/** Tuple headers and the visibility rule. */
module Visibility {
  import opened Bytes

  type TxnId = x: int | 0 <= x < 0x1_0000_0000_0000_0000

  type Tuple = seq<Byte>

  datatype IsolationLevel = ReadUncommitted | ReadCommitted | Snapshot

  datatype Txn = Txn(id: TxnId, isolation: IsolationLevel)

  const TUPLE_HEADER_SIZE := 16

  function ReadXmin(t: Tuple): (x: TxnId)
    requires |t| >= TUPLE_HEADER_SIZE
  {
    FromLEBound(t[0..8]);
    Widths();
    FromLE(t[0..8])
  }

  function ReadXmax(t: Tuple): (x: TxnId)
    requires |t| >= TUPLE_HEADER_SIZE
  {
    FromLEBound(t[8..16]);
    Widths();
    FromLE(t[8..16])
  }

  function WriteXmax(t: Tuple, xmax: TxnId): Tuple
    requires |t| >= TUPLE_HEADER_SIZE
  {
    Splice(t, 8, ToLE(8, xmax))
  }

  function MakeHeader(xmin: TxnId): (h: seq<Byte>)
    ensures |h| == TUPLE_HEADER_SIZE
  {
    ToLE(8, xmin) + ToLE(8, 0)
  }

  /** ReadUncommitted ignores XMIN but still respects deletions by this or earlier transactions. */
  predicate IsVisible(t: Tuple, txn: Txn) {
    |t| >= TUPLE_HEADER_SIZE &&
    var xmax := ReadXmax(t);
    match txn.isolation
    case ReadUncommitted => xmax == 0 || xmax > txn.id
    case _ => ReadXmin(t) <= txn.id && (xmax == 0 || xmax > txn.id)
  }

  /** A fresh tuple carries its creator, no deleter and its data, in this order. */
  lemma FreshTuple(xmin: TxnId, data: seq<Byte>)
    ensures var t := MakeHeader(xmin) + data;
      && ReadXmin(t) == xmin && ReadXmax(t) == 0 && t[TUPLE_HEADER_SIZE..] == data
      && t[..8] == ToLE(8, xmin) && t[8..16] == ToLE(8, 0)
  {
    var t := MakeHeader(xmin) + data;
    assert t[0..8] == ToLE(8, xmin) && t[8..16] == ToLE(8, 0);
    Widths();
    LERoundTrip(8, xmin);
    LERoundTrip(8, 0);
  }

  /** Stamping XMAX changes XMAX and nothing else. */
  lemma StampedTuple(t: Tuple, xmax: TxnId)
    requires |t| >= TUPLE_HEADER_SIZE
    ensures var t' := WriteXmax(t, xmax);
      && |t'| == |t| && ReadXmin(t') == ReadXmin(t) && ReadXmax(t') == xmax
      && t'[TUPLE_HEADER_SIZE..] == t[TUPLE_HEADER_SIZE..]
      && t'[..8] == t[..8] && t'[8..16] == ToLE(8, xmax)
  {
    SpliceReads(t, 8, ToLE(8, xmax), 0, 8);
    SpliceReads(t, 8, ToLE(8, xmax), 16, |t|);
    Widths();
    LERoundTrip(8, xmax);
  }
}
