/** A heap file as the list of its pages, each a list of tuples: what insert, delete, get and scan do to it,
    and what transactions can observe over whole runs. */
module HeapRows {
  import opened Wrappers
  import opened Bytes
  import opened Visibility
  import S = SlottedPage

  type PageId = nat

  datatype RecordId = RecordId(page: PageId, slot: nat)

  datatype Listed = Listed(id: PageId, tuples: seq<Tuple>)

  /** The pages of a heap file in list order, newest first. */
  type Heap = seq<Listed>

  datatype Error =
    | NoSuchPage
    | TupleNonExistent
    | TupleNotVisible(txn: TxnId, xmin: TxnId, xmax: TxnId)
    | AlreadyDeleted(deleter: TxnId)
    | PageCorruption

  // ---------------------------------------------------------------- space

  function TotalLength(tuples: seq<Tuple>): nat {
    if tuples == [] then 0 else TotalLength(tuples[..|tuples| - 1]) + |tuples[|tuples| - 1]|
  }

  /** Bytes between the end of the slot array and the lowest tuple. */
  function FreeSpace(tuples: seq<Tuple>): int {
    PAGE_SIZE - S.SlotsEnd(|tuples|) - TotalLength(tuples)
  }

  predicate Fits(tuples: seq<Tuple>, t: Tuple) {
    FreeSpace(tuples) >= |t| + S.SLOT_SIZE
  }

  // ---------------------------------------------------------------- operations

  function FirstFit(h: Heap, t: Tuple): (i: nat)
    ensures i <= |h|
    ensures i < |h| ==> Fits(h[i].tuples, t)
    ensures forall j :: 0 <= j < i ==> !Fits(h[j].tuples, t)
  {
    if h == [] || Fits(h[0].tuples, t) then 0 else 1 + FirstFit(h[1..], t)
  }

  datatype Inserted = Inserted(heap: Heap, rid: Option<RecordId>)

  /** Append to the first page with room; failing that, put a fresh page in front of the list. */
  function InsertTuple(h: Heap, t: Tuple, id: PageId): Inserted {
    var i := FirstFit(h, t);
    if i < |h| then Inserted(h[i := Listed(h[i].id, h[i].tuples + [t])], Some(RecordId(h[i].id, |h[i].tuples|)))
    else if Fits([], t) then Inserted([Listed(id, [t])] + h, Some(RecordId(id, 0)))
    else Inserted(h, None)
  }

  function IndexOf(h: Heap, id: PageId): (i: nat)
    ensures i <= |h|
    ensures i < |h| ==> h[i].id == id
    ensures i == |h| ==> forall j :: 0 <= j < |h| ==> h[j].id != id
  {
    if h == [] || h[0].id == id then 0 else 1 + IndexOf(h[1..], id)
  }

  function Lookup(h: Heap, rid: RecordId): Option<Tuple> {
    var i := IndexOf(h, rid.page);
    if i < |h| && rid.slot < |h[i].tuples| then Some(h[i].tuples[rid.slot]) else None
  }

  /** The tuple a record id names, if any. */
  function Named(h: Heap, rid: RecordId): Result<Tuple, Error> {
    var t := Lookup(h, rid);
    if IndexOf(h, rid.page) == |h| then Err(NoSuchPage)
    else if t.None? || |t.value| < TUPLE_HEADER_SIZE then Err(TupleNonExistent)
    else Ok(t.value)
  }

  function GetTuple(h: Heap, txn: Txn, rid: RecordId): Result<seq<Byte>, Error> {
    var t := Named(h, rid);
    if t.Err? then Err(t.error)
    else if !IsVisible(t.value, txn) then Err(TupleNotVisible(txn.id, ReadXmin(t.value), ReadXmax(t.value)))
    else Ok(t.value[TUPLE_HEADER_SIZE..])
  }

  datatype Deleted = Deleted(heap: Heap, outcome: Result<(), Error>)

  /** Why a delete leaves a tuple alone, if it does. */
  function Refusal(t: Tuple, txn: Txn): Option<Error>
    requires |t| >= TUPLE_HEADER_SIZE
  {
    if !IsVisible(t, txn) then Some(TupleNotVisible(txn.id, ReadXmin(t), ReadXmax(t)))
    else if ReadXmax(t) != 0 then Some(AlreadyDeleted(ReadXmax(t)))
    else None
  }

  function StampRow(h: Heap, rid: RecordId, xmax: TxnId): Heap
    requires Named(h, rid).Ok?
  {
    var i := IndexOf(h, rid.page);
    h[i := Listed(h[i].id, h[i].tuples[rid.slot := WriteXmax(h[i].tuples[rid.slot], xmax)])]
  }

  /** Stamp XMAX on a tuple the transaction sees and nobody has deleted. */
  function DeleteTuple(h: Heap, txn: Txn, rid: RecordId): Deleted {
    var t := Named(h, rid);
    if t.Err? then Deleted(h, Err(t.error))
    else
      var no := Refusal(t.value, txn);
      if no.Some? then Deleted(h, Err(no.value)) else Deleted(StampRow(h, rid, txn.id), Ok(()))
  }

  datatype Found = Found(data: seq<Byte>, rid: RecordId)

  function PageRows(id: PageId, tuples: seq<Tuple>, txn: Txn): seq<Found> {
    if tuples == [] then []
    else
      var last := |tuples| - 1;
      var front := PageRows(id, tuples[..last], txn);
      if IsVisible(tuples[last], txn) then front + [Found(tuples[last][TUPLE_HEADER_SIZE..], RecordId(id, last))]
        else front
  }

  /** Everything a scan yields: page by page in list order, slot by slot. */
  function ScanRows(h: Heap, txn: Txn): seq<Found> {
    if h == [] then [] else PageRows(h[0].id, h[0].tuples, txn) + ScanRows(h[1..], txn)
  }

  // ---------------------------------------------------------------- invariant

  ghost predicate Valid(h: Heap) {
    && (forall i, j :: 0 <= i < j < |h| ==> h[i].id != h[j].id)
    && (forall i, k :: 0 <= i < |h| && 0 <= k < |h[i].tuples| ==> |h[i].tuples[k]| >= TUPLE_HEADER_SIZE)
    && (forall i :: 0 <= i < |h| ==> FreeSpace(h[i].tuples) >= 0)
  }

  lemma IndexOfAt(h: Heap, i: nat)
    requires Valid(h) && i < |h|
    ensures IndexOf(h, h[i].id) == i
  {
  }

  lemma TotalLengthSnoc(tuples: seq<Tuple>, t: Tuple)
    ensures TotalLength(tuples + [t]) == TotalLength(tuples) + |t|
  {
    assert (tuples + [t])[..|tuples|] == tuples;
  }

  lemma {:induction false} TotalLengthUpdate(tuples: seq<Tuple>, k: nat, t: Tuple)
    requires k < |tuples| && |t| == |tuples[k]|
    ensures TotalLength(tuples[k := t]) == TotalLength(tuples)
  {
    var last := |tuples| - 1;
    if k < last {
      TotalLengthUpdate(tuples[..last], k, t);
      assert tuples[k := t][..last] == tuples[..last][k := t];
    } else {
      assert tuples[k := t][..last] == tuples[..last];
    }
  }

  /** Where a record id leads, once its page is known. */
  lemma LookupIn(h: Heap, i: nat, slot: nat)
    requires Valid(h) && i < |h|
    ensures Lookup(h, RecordId(h[i].id, slot)) == if slot < |h[i].tuples| then Some(h[i].tuples[slot]) else None
  {
    IndexOfAt(h, i);
  }

  lemma UpdateValid(h: Heap, i: nat, tuples: seq<Tuple>)
    requires Valid(h) && i < |h| && FreeSpace(tuples) >= 0
    requires forall k :: 0 <= k < |tuples| ==> |tuples[k]| >= TUPLE_HEADER_SIZE
    ensures Valid(h[i := Listed(h[i].id, tuples)])
  {
  }

  /** Replacing one page's tuples changes what record ids on that page name, and nothing else. */
  lemma UpdateLookup(h: Heap, i: nat, tuples: seq<Tuple>, rid: RecordId)
    requires Valid(h) && i < |h| && Valid(h[i := Listed(h[i].id, tuples)])
    ensures rid.page != h[i].id ==> Lookup(h[i := Listed(h[i].id, tuples)], rid) == Lookup(h, rid)
    ensures rid.page == h[i].id ==>
      Lookup(h[i := Listed(h[i].id, tuples)], rid) == if rid.slot < |tuples| then Some(tuples[rid.slot]) else None
  {
    var h' := h[i := Listed(h[i].id, tuples)];
    SameIds(h, h', rid.page);
    if rid.page == h[i].id { LookupIn(h', i, rid.slot); }
  }

  lemma AppendValid(h: Heap, i: nat, t: Tuple)
    requires Valid(h) && i < |h| && |t| >= TUPLE_HEADER_SIZE && Fits(h[i].tuples, t)
    ensures Valid(h[i := Listed(h[i].id, h[i].tuples + [t])])
  {
    TotalLengthSnoc(h[i].tuples, t);
    UpdateValid(h, i, h[i].tuples + [t]);
  }

  lemma PrependValid(h: Heap, p: Listed)
    requires Valid(h) && FreeSpace(p.tuples) >= 0
    requires forall i :: 0 <= i < |h| ==> h[i].id != p.id
    requires forall k :: 0 <= k < |p.tuples| ==> |p.tuples[k]| >= TUPLE_HEADER_SIZE
    ensures Valid([p] + h)
  {
    var h' := [p] + h;
    assert forall j :: 0 < j < |h'| ==> h'[j] == h[j - 1];
  }

  lemma FreshValid(h: Heap, id: PageId, t: Tuple)
    requires Valid(h) && |t| >= TUPLE_HEADER_SIZE && Fits([], t) && forall i :: 0 <= i < |h| ==> h[i].id != id
    ensures Valid([Listed(id, [t])] + h)
  {
    TotalLengthSnoc([], t);
    assert [] + [t] == [t];
    PrependValid(h, Listed(id, [t]));
  }

  lemma PrependLookup(h: Heap, p: Listed, rid: RecordId)
    requires forall i :: 0 <= i < |h| ==> h[i].id != p.id
    ensures rid.page != p.id ==> Lookup([p] + h, rid) == Lookup(h, rid)
    ensures rid.page == p.id ==>
      Lookup(h, rid) == None && Lookup([p] + h, rid) == if rid.slot < |p.tuples| then Some(p.tuples[rid.slot]) else None
  {
    assert ([p] + h)[1..] == h;
  }

  /** An insert names a place that was empty, fills it with the tuple, and moves nothing else. */
  lemma InsertOk(h: Heap, t: Tuple, id: PageId, rid: RecordId)
    requires Valid(h) && |t| >= TUPLE_HEADER_SIZE && forall i :: 0 <= i < |h| ==> h[i].id != id
    ensures var r := InsertTuple(h, t, id);
      && Valid(r.heap)
      && (r.rid.None? <==> !Fits([], t) && forall i :: 0 <= i < |h| ==> !Fits(h[i].tuples, t))
      && (r.rid.None? ==> r.heap == h)
      && (r.rid.Some? ==> Lookup(h, r.rid.value) == None && Lookup(r.heap, r.rid.value) == Some(t))
      && (r.rid.Some? && rid != r.rid.value ==> Lookup(r.heap, rid) == Lookup(h, rid))
  {
    var i := FirstFit(h, t);
    if i < |h| {
      var tuples := h[i].tuples + [t];
      AppendValid(h, i, t);
      LookupIn(h, i, |h[i].tuples|);
      LookupIn(h, i, rid.slot);
      UpdateLookup(h, i, tuples, RecordId(h[i].id, |h[i].tuples|));
      UpdateLookup(h, i, tuples, rid);
    } else if Fits([], t) {
      FreshValid(h, id, t);
      PrependLookup(h, Listed(id, [t]), RecordId(id, 0));
      PrependLookup(h, Listed(id, [t]), rid);
    }
  }

  /** Room in numbers: a page holds a 24-byte header, four bytes for each tuple and the tuples. */
  lemma FitsIff(tuples: seq<Tuple>, t: Tuple)
    ensures Fits(tuples, t) <==> 24 + 4 * (|tuples| + 1) + TotalLength(tuples + [t]) <= 4096
  {
    TotalLengthSnoc(tuples, t);
  }

  /** The first page in list order with room takes the tuple, behind those it has. */
  lemma {:induction false} GoesToFirst(h: Heap, t: Tuple, id: PageId, i: nat)
    requires i < |h| && Fits(h[i].tuples, t) && forall j :: 0 <= j < i ==> !Fits(h[j].tuples, t)
    ensures InsertTuple(h, t, id) ==
      Inserted(h[..i] + [Listed(h[i].id, h[i].tuples + [t])] + h[i + 1..], Some(RecordId(h[i].id, |h[i].tuples|)))
  {
    var k := FirstFit(h, t);
    assert k == i;
  }

  /** Only without such a page a fresh one is put in front of the list. */
  lemma GoesInFront(h: Heap, t: Tuple, id: PageId)
    requires forall j :: 0 <= j < |h| ==> !Fits(h[j].tuples, t)
    ensures InsertTuple(h, t, id) ==
      if 24 + 4 + |t| <= 4096 then Inserted([Listed(id, [t])] + h, Some(RecordId(id, 0))) else Inserted(h, None)
  {
  }

  lemma {:induction false} SameIds(h: Heap, h': Heap, id: PageId)
    requires |h| == |h'| && forall i :: 0 <= i < |h| ==> h[i].id == h'[i].id
    ensures IndexOf(h, id) == IndexOf(h', id)
  {
    if h != [] { SameIds(h[1..], h'[1..], id); }
  }

  lemma StampOk(h: Heap, rid: RecordId, xmax: TxnId, other: RecordId)
    requires Valid(h) && Named(h, rid).Ok?
    ensures Valid(StampRow(h, rid, xmax))
    ensures Lookup(StampRow(h, rid, xmax), other) == if other == rid then Some(WriteXmax(Named(h, rid).value, xmax))
      else Lookup(h, other)
  {
    hide WriteXmax, TotalLength;
    var i := IndexOf(h, rid.page);
    var t := h[i].tuples[rid.slot];
    var t' := WriteXmax(t, xmax);
    var tuples := h[i].tuples[rid.slot := t'];
    StampedTuple(t, xmax);
    TotalLengthUpdate(h[i].tuples, rid.slot, t');
    UpdateValid(h, i, tuples);
    UpdateLookup(h, i, tuples, other);
    if other.page == h[i].id { LookupIn(h, i, other.slot); }
  }

  /** A delete stamps one visible, undeleted tuple and changes nothing else; otherwise it changes nothing. */
  lemma DeleteOk(h: Heap, txn: Txn, rid: RecordId, other: RecordId)
    requires Valid(h)
    ensures var d := DeleteTuple(h, txn, rid);
      && Valid(d.heap)
      && (d.outcome.Ok? <==> exists t :: Lookup(h, rid) == Some(t) && IsVisible(t, txn) && ReadXmax(t) == 0)
      && (d.outcome.Err? ==> d.heap == h)
      && (d.outcome.Ok? ==> Lookup(d.heap, rid) == Some(WriteXmax(Lookup(h, rid).value, txn.id)))
      && (other != rid ==> Lookup(d.heap, other) == Lookup(h, other))
  {
    var d := DeleteTuple(h, txn, rid);
    if d.outcome.Ok? {
      StampOk(h, rid, txn.id, other);
      StampOk(h, rid, txn.id, rid);
      assert Lookup(h, rid) == Some(Named(h, rid).value);
    }
  }

  // ---------------------------------------------------------------- scan and get agree

  lemma {:induction false} PageRowsExact(id: PageId, tuples: seq<Tuple>, txn: Txn, f: Found)
    ensures f in PageRows(id, tuples, txn) <==>
      f.rid.page == id && f.rid.slot < |tuples| && IsVisible(tuples[f.rid.slot], txn) &&
        f.data == tuples[f.rid.slot][TUPLE_HEADER_SIZE..]
  {
    if tuples != [] { PageRowsExact(id, tuples[..|tuples| - 1], txn, f); }
  }

  /** The record names a tuple the transaction sees, with this data. */
  predicate Holds(h: Heap, txn: Txn, f: Found) {
    var t := Lookup(h, f.rid);
    t.Some? && IsVisible(t.value, txn) && f.data == t.value[TUPLE_HEADER_SIZE..]
  }

  lemma {:induction false} ScanExact(h: Heap, txn: Txn, f: Found)
    requires Valid(h)
    ensures f in ScanRows(h, txn) <==> Holds(h, txn, f)
  {
    hide IsVisible, TotalLength, PageRows;
    if h != [] {
      var rest := h[1..];
      ScanExact(rest, txn, f);
      PageRowsExact(h[0].id, h[0].tuples, txn, f);
      assert h == [h[0]] + rest;
      PrependLookup(rest, h[0], f.rid);
    }
  }

  /** A scan yields a record exactly when `get` succeeds on it, with the same bytes. */
  lemma ScanIsGet(h: Heap, txn: Txn, f: Found)
    requires Valid(h)
    ensures f in ScanRows(h, txn) <==> GetTuple(h, txn, f.rid) == Ok(f.data)
  {
    ScanExact(h, txn, f);
  }

  ghost predicate Once(rows: seq<Found>) {
    forall i, j :: 0 <= i < j < |rows| ==> rows[i].rid != rows[j].rid
  }

  ghost predicate OnPage(rows: seq<Found>, id: PageId, slots: nat) {
    forall i :: 0 <= i < |rows| ==> rows[i].rid.page == id && rows[i].rid.slot < slots
  }

  lemma {:induction false} PageRowsOnce(id: PageId, tuples: seq<Tuple>, txn: Txn)
    ensures Once(PageRows(id, tuples, txn)) && OnPage(PageRows(id, tuples, txn), id, |tuples|)
  {
    if tuples != [] {
      var last := |tuples| - 1;
      PageRowsOnce(id, tuples[..last], txn);
      var front := PageRows(id, tuples[..last], txn);
      assert OnPage(front, id, last);
      if IsVisible(tuples[last], txn) {
        var row := Found(tuples[last][TUPLE_HEADER_SIZE..], RecordId(id, last));
        assert PageRows(id, tuples, txn) == front + [row];
        assert Once(front + [row]);
      }
    }
  }

  lemma OnceAppend(a: seq<Found>, b: seq<Found>)
    requires Once(a) && Once(b) && forall i, j :: 0 <= i < |a| && 0 <= j < |b| ==> a[i].rid != b[j].rid
    ensures Once(a + b)
  {
  }

  /** A scan yields no record twice. */
  lemma {:induction false} ScanOnce(h: Heap, txn: Txn)
    requires Valid(h)
    ensures Once(ScanRows(h, txn))
  {
    if h != [] {
      ScanOnce(h[1..], txn);
      PageRowsOnce(h[0].id, h[0].tuples, txn);
      var front, rest := PageRows(h[0].id, h[0].tuples, txn), ScanRows(h[1..], txn);
      forall j | 0 <= j < |rest|
        ensures rest[j].rid.page != h[0].id
      {
        ScanExact(h[1..], txn, rest[j]);
        assert rest[j] in rest;
      }
      OnceAppend(front, rest);
    }
  }

  // ---------------------------------------------------------------- runs

  datatype Op = InsertOp(txn: Txn, data: seq<Byte>) | DeleteOp(txn: Txn, rid: RecordId)

  datatype State = State(heap: Heap, nextId: PageId)

  ghost predicate Good(s: State) {
    Valid(s.heap) && 0 < s.nextId && forall i :: 0 <= i < |s.heap| ==> 0 < s.heap[i].id < s.nextId
  }

  /** One operation; a fresh page id is drawn when no listed page has room. */
  function Apply(s: State, op: Op): State {
    match op
    case InsertOp(txn, data) =>
      var t := MakeHeader(txn.id) + data;
      State(InsertTuple(s.heap, t, s.nextId).heap, if FirstFit(s.heap, t) < |s.heap| then s.nextId else s.nextId + 1)
    case DeleteOp(txn, rid) => State(DeleteTuple(s.heap, txn, rid).heap, s.nextId)
  }

  function RunOps(s: State, ops: seq<Op>): State
    decreases |ops|
  {
    if ops == [] then s else RunOps(Apply(s, ops[0]), ops[1..])
  }

  lemma {:induction false} ApplyGood(s: State, op: Op)
    requires Good(s)
    ensures Good(Apply(s, op))
  {
    hide Lookup, MakeHeader;
    match op
    case InsertOp(txn, data) =>
      var t := MakeHeader(txn.id) + data;
      InsertOk(s.heap, t, s.nextId, RecordId(0, 0));
      assert Valid(InsertTuple(s.heap, t, s.nextId).heap);
    case DeleteOp(txn, rid) =>
      DeleteOk(s.heap, txn, rid, rid);
  }

  /** Later versions of a tuple: same creator, same data, and XMAX stamped at most once, from 0. */
  ghost predicate Succeeds(t: Tuple, t': Tuple) {
    && |t| >= TUPLE_HEADER_SIZE && |t'| == |t|
    && ReadXmin(t') == ReadXmin(t) && t'[TUPLE_HEADER_SIZE..] == t[TUPLE_HEADER_SIZE..]
    && (ReadXmax(t') == ReadXmax(t) || ReadXmax(t) == 0)
  }

  lemma ApplySucceeds(s: State, op: Op, rid: RecordId)
    requires Good(s) && Lookup(s.heap, rid).Some?
    ensures Lookup(Apply(s, op).heap, rid).Some? &&
      Succeeds(Lookup(s.heap, rid).value, Lookup(Apply(s, op).heap, rid).value)
  {
    match op
    case InsertOp(txn, data) =>
      InsertOk(s.heap, MakeHeader(txn.id) + data, s.nextId, rid);
    case DeleteOp(txn, r) =>
      DeleteOk(s.heap, txn, r, rid);
      StampedTuple(Lookup(s.heap, rid).value, txn.id);
  }

  /** Over any run, a record id keeps naming the same bytes; XMIN never changes and XMAX changes at most once, from
      0. */
  lemma {:induction false} RunSucceeds(s: State, ops: seq<Op>, rid: RecordId)
    requires Good(s) && Lookup(s.heap, rid).Some?
    ensures Good(RunOps(s, ops)) && Lookup(RunOps(s, ops).heap, rid).Some?
    ensures Succeeds(Lookup(s.heap, rid).value, Lookup(RunOps(s, ops).heap, rid).value)
    decreases |ops|
  {
    if ops != [] {
      ApplyGood(s, ops[0]);
      ApplySucceeds(s, ops[0], rid);
      RunSucceeds(Apply(s, ops[0]), ops[1..], rid);
    }
  }

  // ---------------------------------------------------------------- what a reader sees

  /** `txn` cannot tell the two tuples apart. */
  predicate ReadsSame(t: Tuple, t': Tuple, txn: Txn) {
    IsVisible(t, txn) == IsVisible(t', txn) && (IsVisible(t, txn) ==> t[TUPLE_HEADER_SIZE..] == t'[TUPLE_HEADER_SIZE..])
  }

  lemma {:induction false} RowsSame(id: PageId, ts: seq<Tuple>, ts': seq<Tuple>, txn: Txn)
    requires |ts| == |ts'|
    requires forall i :: 0 <= i < |ts| ==> ReadsSame(ts[i], ts'[i], txn)
    ensures PageRows(id, ts, txn) == PageRows(id, ts', txn)
  {
    if ts != [] { RowsSame(id, ts[..|ts| - 1], ts'[..|ts| - 1], txn); }
  }

  lemma {:induction false} ScanUpdate(h: Heap, i: nat, p: Listed, txn: Txn)
    requires i < |h| && PageRows(p.id, p.tuples, txn) == PageRows(h[i].id, h[i].tuples, txn)
    ensures ScanRows(h[i := p], txn) == ScanRows(h, txn)
  {
    if i > 0 {
      ScanUpdate(h[1..], i - 1, p, txn);
      assert h[i := p][1..] == h[1..][i - 1 := p];
    } else {
      assert h[0 := p][1..] == h[1..];
    }
  }

  lemma PageRowsSnoc(id: PageId, tuples: seq<Tuple>, t: Tuple, txn: Txn)
    ensures PageRows(id, tuples + [t], txn) ==
      if IsVisible(t, txn) then PageRows(id, tuples, txn) + [Found(t[TUPLE_HEADER_SIZE..], RecordId(id, |tuples|))]
        else PageRows(id, tuples, txn)
  {
    assert (tuples + [t])[..|tuples|] == tuples;
  }

  lemma InsertUnseen(s: State, data: seq<Byte>, writer: Txn, txn: Txn)
    requires Good(s) && !IsVisible(MakeHeader(writer.id) + data, txn)
    ensures ScanRows(Apply(s, InsertOp(writer, data)).heap, txn) == ScanRows(s.heap, txn)
  {
    var t, h := MakeHeader(writer.id) + data, s.heap;
    var i := FirstFit(h, t);
    if i < |h| {
      PageRowsSnoc(h[i].id, h[i].tuples, t, txn);
      ScanUpdate(h, i, Listed(h[i].id, h[i].tuples + [t]), txn);
    } else if Fits([], t) {
      PageRowsSnoc(s.nextId, [], t, txn);
      assert [] + [t] == [t];
      assert ([Listed(s.nextId, [t])] + h)[1..] == h;
    }
  }

  lemma DeleteUnseen(s: State, rid: RecordId, writer: Txn, txn: Txn)
    requires Good(s) && writer.id > txn.id
    ensures ScanRows(Apply(s, DeleteOp(writer, rid)).heap, txn) == ScanRows(s.heap, txn)
  {
    var h, d := s.heap, DeleteTuple(s.heap, writer, rid);
    if d.outcome.Ok? {
      var i := IndexOf(h, rid.page);
      var t := h[i].tuples[rid.slot];
      StampedTuple(t, writer.id);
      var p := Listed(h[i].id, h[i].tuples[rid.slot := WriteXmax(t, writer.id)]);
      RowsSame(h[i].id, h[i].tuples, p.tuples, txn);
      ScanUpdate(h, i, p, txn);
    }
  }

  /** Under ReadCommitted or Snapshot, nothing transactions with larger ids insert or delete changes what `txn`
      scans. */
  lemma {:induction false} SnapshotStable(s: State, ops: seq<Op>, txn: Txn)
    requires Good(s) && txn.isolation != ReadUncommitted
    requires forall i :: 0 <= i < |ops| ==> ops[i].txn.id > txn.id
    ensures ScanRows(RunOps(s, ops).heap, txn) == ScanRows(s.heap, txn)
    decreases |ops|
  {
    if ops != [] {
      var op := ops[0];
      match op {
        case InsertOp(writer, data) => FreshTuple(writer.id, data); InsertUnseen(s, data, writer, txn);
        case DeleteOp(writer, rid) => DeleteUnseen(s, rid, writer, txn);
      }
      ApplyGood(s, op);
      SnapshotStable(Apply(s, op), ops[1..], txn);
    }
  }

  /** Whether an operation adds a tuple. */
  predicate Adds(s: State, op: Op) {
    op.InsertOp? && InsertTuple(s.heap, MakeHeader(op.txn.id) + op.data, s.nextId).rid.Some?
  }

  lemma {:induction false} ScanLengthUpdate(h: Heap, i: nat, p: Listed, txn: Txn)
    requires i < |h|
    ensures |ScanRows(h[i := p], txn)| - |ScanRows(h, txn)| ==
      |PageRows(p.id, p.tuples, txn)| - |PageRows(h[i].id, h[i].tuples, txn)|
  {
    if i > 0 {
      ScanLengthUpdate(h[1..], i - 1, p, txn);
      assert h[i := p][1..] == h[1..][i - 1 := p];
    } else {
      assert h[0 := p][1..] == h[1..];
    }
  }

  /** Under ReadUncommitted every tuple a later transaction adds shows up at once. */
  lemma InsertSeen(s: State, op: Op, txn: Txn)
    requires Good(s) && txn.isolation == ReadUncommitted && Adds(s, op)
    ensures |ScanRows(Apply(s, op).heap, txn)| == |ScanRows(s.heap, txn)| + 1
  {
    hide TotalLength, MakeHeader;
    var t, h := MakeHeader(op.txn.id) + op.data, s.heap;
    FreshTuple(op.txn.id, op.data);
    var i := FirstFit(h, t);
    if i < |h| {
      PageRowsSnoc(h[i].id, h[i].tuples, t, txn);
      ScanLengthUpdate(h, i, Listed(h[i].id, h[i].tuples + [t]), txn);
    } else {
      PageRowsSnoc(s.nextId, [], t, txn);
      assert [] + [t] == [t];
      assert ([Listed(s.nextId, [t])] + h)[1..] == h;
    }
  }

  ghost predicate SomeAdds(s: State, ops: seq<Op>)
    decreases |ops|
  {
    ops != [] && (Adds(s, ops[0]) || SomeAdds(Apply(s, ops[0]), ops[1..]))
  }

  lemma {:induction false} DirtyGrows(s: State, ops: seq<Op>, txn: Txn)
    requires Good(s) && txn.isolation == ReadUncommitted && forall i :: 0 <= i < |ops| ==> ops[i].txn.id > txn.id
    ensures |ScanRows(RunOps(s, ops).heap, txn)| >= |ScanRows(s.heap, txn)|
    ensures SomeAdds(s, ops) ==> |ScanRows(RunOps(s, ops).heap, txn)| > |ScanRows(s.heap, txn)|
    ensures !SomeAdds(s, ops) ==> ScanRows(RunOps(s, ops).heap, txn) == ScanRows(s.heap, txn)
    decreases |ops|
  {
    if ops != [] {
      var op := ops[0];
      if Adds(s, op) {
        InsertSeen(s, op, txn);
      } else if op.DeleteOp? {
        DeleteUnseen(s, op.rid, op.txn, txn);
      }
      ApplyGood(s, op);
      DirtyGrows(Apply(s, op), ops[1..], txn);
    }
  }

  /** Under ReadUncommitted a run of later transactions leaves the scan alone exactly when it adds no tuple. */
  lemma {:induction false} DirtyReadIff(s: State, ops: seq<Op>, txn: Txn)
    requires Good(s) && txn.isolation == ReadUncommitted && forall i :: 0 <= i < |ops| ==> ops[i].txn.id > txn.id
    ensures ScanRows(RunOps(s, ops).heap, txn) == ScanRows(s.heap, txn) <==> !SomeAdds(s, ops)
  {
    DirtyGrows(s, ops, txn);
  }
}
