/** What a transaction sees of a record, told from who inserted it and who deleted it. */
module HeapHistory {
  import opened Wrappers
  import opened Bytes
  import opened Visibility
  import opened HeapRows

  /** A record by its history: its bytes, the transaction that inserted it and the one that deleted it, 0 if none
      did. */
  datatype Record = Record(data: seq<Byte>, creator: TxnId, deleter: TxnId)

  /** Not before it was inserted, unless reading uncommitted data, and not from its deletion on. */
  predicate Sees(txn: Txn, r: Record) {
    (txn.isolation == ReadUncommitted || r.creator <= txn.id) && (r.deleter == 0 || txn.id < r.deleter)
  }

  /** The first delete that may have the record decides; nothing else touches it. */
  function Next(r: Record, rid: RecordId, op: Op): Record {
    if op.DeleteOp? && op.rid == rid && r.deleter == 0 && Sees(op.txn, r) then r.(deleter := op.txn.id) else r
  }

  function History(r: Record, rid: RecordId, ops: seq<Op>): Record
    decreases |ops|
  {
    if ops == [] then r else History(Next(r, rid, ops[0]), rid, ops[1..])
  }

  /** The record id names a tuple with this history. */
  ghost predicate Stands(h: Heap, rid: RecordId, r: Record) {
    var t := Lookup(h, rid);
    && t.Some? && |t.value| >= TUPLE_HEADER_SIZE && t.value[TUPLE_HEADER_SIZE..] == r.data
    && ReadXmin(t.value) == r.creator && ReadXmax(t.value) == r.deleter
  }

  lemma VisibleIsSeen(h: Heap, rid: RecordId, r: Record, txn: Txn)
    requires Stands(h, rid, r)
    ensures Named(h, rid) == Ok(Lookup(h, rid).value) && (IsVisible(Lookup(h, rid).value, txn) <==> Sees(txn, r))
  {
  }

  /** A record is read exactly by those who see it; anyone else is told who inserted and who deleted it. */
  lemma GetByHistory(h: Heap, rid: RecordId, r: Record, txn: Txn)
    requires Stands(h, rid, r)
    ensures GetTuple(h, txn, rid) ==
      if Sees(txn, r) then Ok(r.data) else Err(TupleNotVisible(txn.id, r.creator, r.deleter))
  {
    VisibleIsSeen(h, rid, r, txn);
  }

  /** A scan yields it exactly to those who see it, with its bytes. */
  lemma ScanByHistory(h: Heap, rid: RecordId, r: Record, txn: Txn, f: Found)
    requires Valid(h) && Stands(h, rid, r) && f.rid == rid
    ensures f in ScanRows(h, txn) <==> Sees(txn, r) && f.data == r.data
  {
    VisibleIsSeen(h, rid, r, txn);
    ScanExact(h, txn, f);
  }

  /** Whether it is deleted, and what anyone else is told. */
  lemma DeleteByHistory(h: Heap, rid: RecordId, r: Record, txn: Txn)
    requires Valid(h) && Stands(h, rid, r)
    ensures DeleteTuple(h, txn, rid).outcome ==
      if !Sees(txn, r) then Err(TupleNotVisible(txn.id, r.creator, r.deleter))
      else if r.deleter != 0 then Err(AlreadyDeleted(r.deleter)) else Ok(())
    ensures Stands(DeleteTuple(h, txn, rid).heap, rid, Next(r, rid, DeleteOp(txn, rid)))
  {
    VisibleIsSeen(h, rid, r, txn);
    DeleteOk(h, txn, rid, rid);
    StampedTuple(Lookup(h, rid).value, txn.id);
  }

  lemma StepByHistory(s: State, op: Op, rid: RecordId, r: Record)
    requires Good(s) && Stands(s.heap, rid, r)
    ensures Stands(Apply(s, op).heap, rid, Next(r, rid, op))
  {
    match op
    case InsertOp(txn, data) =>
      InsertOk(s.heap, MakeHeader(txn.id) + data, s.nextId, rid);
    case DeleteOp(txn, other) =>
      if other == rid { DeleteByHistory(s.heap, rid, r, txn); } else { DeleteOk(s.heap, txn, other, rid); }
  }

  /** Over any run a record's history is what the deletes naming it make of it. */
  lemma {:induction false} RunByHistory(s: State, ops: seq<Op>, rid: RecordId, r: Record)
    requires Good(s) && Stands(s.heap, rid, r)
    ensures Good(RunOps(s, ops)) && Stands(RunOps(s, ops).heap, rid, History(r, rid, ops))
    decreases |ops|
  {
    if ops != [] {
      ApplyGood(s, ops[0]);
      StepByHistory(s, ops[0], rid, r);
      RunByHistory(Apply(s, ops[0]), ops[1..], rid, Next(r, rid, ops[0]));
    }
  }

  // ---------------------------------------------------------------- after an insert, after a delete

  predicate NoDelete(ops: seq<Op>, rid: RecordId) {
    forall i :: 0 <= i < |ops| ==> !(ops[i].DeleteOp? && ops[i].rid == rid)
  }

  lemma {:induction false} HistoryKept(r: Record, rid: RecordId, ops: seq<Op>)
    requires NoDelete(ops, rid) || r.deleter != 0
    ensures History(r, rid, ops) == r
    decreases |ops|
  {
    if ops != [] { HistoryKept(r, rid, ops[1..]); }
  }

  lemma InsertStands(s: State, w: Txn, data: seq<Byte>)
    requires Good(s) && InsertTuple(s.heap, MakeHeader(w.id) + data, s.nextId).rid.Some?
    ensures var rid := InsertTuple(s.heap, MakeHeader(w.id) + data, s.nextId).rid.value;
      Good(Apply(s, InsertOp(w, data))) && Stands(Apply(s, InsertOp(w, data)).heap, rid, Record(data, w.id, 0))
  {
    var t := MakeHeader(w.id) + data;
    ApplyGood(s, InsertOp(w, data));
    FreshTuple(w.id, data);
    InsertOk(s.heap, t, s.nextId, InsertTuple(s.heap, t, s.nextId).rid.value);
  }

  /** What `txn` gets and scans of one record. */
  ghost predicate Reads(h: Heap, txn: Txn, rid: RecordId, data: seq<Byte>) {
    GetTuple(h, txn, rid) == Ok(data) && forall f: Found {:trigger f in ScanRows(h, txn)} ::
      f.rid == rid ==> (f in ScanRows(h, txn) <==> f.data == data)
  }

  ghost predicate Misses(h: Heap, txn: Txn, rid: RecordId, creator: TxnId, deleter: TxnId) {
    GetTuple(h, txn, rid) == Err(TupleNotVisible(txn.id, creator, deleter)) &&
      forall f: Found {:trigger f in ScanRows(h, txn)} :: f in ScanRows(h, txn) ==> f.rid != rid
  }

  lemma ReadsOrMisses(h: Heap, rid: RecordId, r: Record, txn: Txn)
    requires Valid(h) && Stands(h, rid, r)
    ensures if Sees(txn, r) then Reads(h, txn, rid, r.data) else Misses(h, txn, rid, r.creator, r.deleter)
  {
    GetByHistory(h, rid, r, txn);
    forall f: Found | f.rid == rid
      ensures f in ScanRows(h, txn) <==> Sees(txn, r) && f.data == r.data
    {
      ScanByHistory(h, rid, r, txn, f);
    }
  }

  /** What `w` has inserted is there, while nobody deletes it, for `w` itself, for every later transaction and for
      every one reading uncommitted data; an earlier transaction of another level misses it. */
  lemma AfterInsert(s: State, w: Txn, data: seq<Byte>, ops: seq<Op>, txn: Txn)
    requires Good(s) && InsertTuple(s.heap, MakeHeader(w.id) + data, s.nextId).rid.Some?
    requires NoDelete(ops, InsertTuple(s.heap, MakeHeader(w.id) + data, s.nextId).rid.value)
    ensures var rid := InsertTuple(s.heap, MakeHeader(w.id) + data, s.nextId).rid.value;
      var h := RunOps(Apply(s, InsertOp(w, data)), ops).heap;
      && (txn.id >= w.id || txn.isolation == ReadUncommitted ==> Reads(h, txn, rid, data))
      && (txn.id < w.id && txn.isolation != ReadUncommitted ==> Misses(h, txn, rid, w.id, 0))
  {
    var rid, r := InsertTuple(s.heap, MakeHeader(w.id) + data, s.nextId).rid.value, Record(data, w.id, 0);
    InsertStands(s, w, data);
    RunByHistory(Apply(s, InsertOp(w, data)), ops, rid, r);
    HistoryKept(r, rid, ops);
    ReadsOrMisses(RunOps(Apply(s, InsertOp(w, data)), ops).heap, rid, r, txn);
  }

  /** Once `d`, which may have it, has deleted it, `d` and every later transaction of any level miss it, whatever runs
      then; an earlier one reads it as if nothing had happened. Transaction id 0 deletes nothing: 0 means not
      deleted. */
  lemma AfterDelete(s: State, w: Txn, data: seq<Byte>, before: seq<Op>, d: Txn, after: seq<Op>, txn: Txn)
    requires Good(s) && InsertTuple(s.heap, MakeHeader(w.id) + data, s.nextId).rid.Some?
    requires NoDelete(before, InsertTuple(s.heap, MakeHeader(w.id) + data, s.nextId).rid.value)
    requires d.id > 0 && (d.id >= w.id || d.isolation == ReadUncommitted)
    ensures var rid := InsertTuple(s.heap, MakeHeader(w.id) + data, s.nextId).rid.value;
      var s1 := RunOps(Apply(s, InsertOp(w, data)), before);
      var h := RunOps(Apply(s1, DeleteOp(d, rid)), after).heap;
      && DeleteTuple(s1.heap, d, rid).outcome == Ok(())
      && (txn.id >= d.id ==> Misses(h, txn, rid, w.id, d.id))
      && (txn.id < d.id && (txn.id >= w.id || txn.isolation == ReadUncommitted) ==> Reads(h, txn, rid, data))
      && (txn.id < d.id && txn.id < w.id && txn.isolation != ReadUncommitted ==> Misses(h, txn, rid, w.id, d.id))
  {
    var rid, r := InsertTuple(s.heap, MakeHeader(w.id) + data, s.nextId).rid.value, Record(data, w.id, 0);
    var s0 := Apply(s, InsertOp(w, data));
    InsertStands(s, w, data);
    RunByHistory(s0, before, rid, r);
    HistoryKept(r, rid, before);
    var s1 := RunOps(s0, before);
    var s2, r' := Apply(s1, DeleteOp(d, rid)), Record(data, w.id, d.id);
    DeleteByHistory(s1.heap, rid, r, d);
    ApplyGood(s1, DeleteOp(d, rid));
    StepByHistory(s1, DeleteOp(d, rid), rid, r);
    RunByHistory(s2, after, rid, r');
    HistoryKept(r', rid, after);
    ReadsOrMisses(RunOps(s2, after).heap, rid, r', txn);
  }

  /** A delete by transaction id 0 is reported as done and leaves the record as it was. */
  lemma DeleteByZero(h: Heap, rid: RecordId, r: Record, txn: Txn)
    requires Valid(h) && Stands(h, rid, r) && txn.id == 0
    ensures r.deleter == 0 && Sees(txn, r) ==> DeleteTuple(h, txn, rid).outcome == Ok(())
    ensures Stands(DeleteTuple(h, txn, rid).heap, rid, r)
  {
    DeleteByHistory(h, rid, r, txn);
  }
}
