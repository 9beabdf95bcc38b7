/** A page holding a sorted array of 16-byte entries behind a header: what the leaf and inner pages of the
    index share. An entry is an 8-byte key and eight more bytes. */
module EntryPage {
  import opened Wrappers
  import opened Bytes
  import opened SortedEntries
  import PageOps

  const COUNT_AT := 16
  const ENTRY_SIZE := 16
  const LEAF_BASE := 40
  const INNER_BASE := 24

  type Payload = b: seq<Byte> | |b| == 8 witness [0, 0, 0, 0, 0, 0, 0, 0]

  /** Where entries start: right behind the header of a leaf or an inner page. */
  predicate IsBase(base: nat) {
    base == LEAF_BASE || base == INNER_BASE
  }

  function Capacity(base: nat): nat
    requires IsBase(base)
  {
    (PAGE_SIZE - base) / ENTRY_SIZE
  }

  function Count(b: seq<Byte>): nat
    requires |b| == PAGE_SIZE
  {
    Num16(b, COUNT_AT)
  }

  function Pos(base: nat, i: nat): nat {
    base + ENTRY_SIZE * i
  }

  function EntryAt(b: seq<Byte>, at: nat): Entry<Payload>
    requires at + ENTRY_SIZE <= |b|
  {
    Entry(Num64(b, at), b[at + 8..at + ENTRY_SIZE])
  }

  ghost predicate InBounds(b: seq<Byte>, base: nat) {
    |b| == PAGE_SIZE && IsBase(base) && Count(b) <= Capacity(base)
  }

  ghost function Entries(b: seq<Byte>, base: nat): (es: seq<Entry<Payload>>)
    requires InBounds(b, base)
    ensures |es| == Count(b)
  {
    seq(Count(b), i requires 0 <= i < Count(b) => EntryAt(b, Pos(base, i)))
  }

  /** Equal bytes, equal entries. */
  lemma SameEntry(b: seq<Byte>, at: nat, r: seq<Byte>, to: nat)
    requires at + ENTRY_SIZE <= |b| && to + ENTRY_SIZE <= |r| && r[to..to + ENTRY_SIZE] == b[at..at + ENTRY_SIZE]
    ensures EntryAt(r, to) == EntryAt(b, at)
  {
    var x, y := b[at..at + ENTRY_SIZE], r[to..to + ENTRY_SIZE];
    assert Num64(b, at) == Num64(x, 0) && Num64(r, to) == Num64(y, 0);
    assert b[at + 8..at + ENTRY_SIZE] == x[8..] && r[to + 8..to + ENTRY_SIZE] == y[8..];
  }

  // ---------------------------------------------------------------- search

  method KeyAt(page: array<Byte>, base: nat, i: nat) returns (key: U64)
    requires InBounds(page[..], base) && i < Count(page[..])
    ensures key == Entries(page[..], base)[i].key
  {
    key := Read64(page, Pos(base, i));
  }

  /** Binary search: whether the key is there, and its slot or the place to insert it. */
  method FindSlot(page: array<Byte>, base: nat, key: U64) returns (found: bool, pos: nat)
    requires InBounds(page[..], base) && Sorted(Entries(page[..], base))
    ensures pos == Below(Entries(page[..], base), key) && found == Found(Entries(page[..], base), key)
  {
    hide Num64, Below, EntryAt;
    ghost var es := Entries(page[..], base);
    var n := Read16(page, COUNT_AT);
    if n == 0 { return false, 0; }
    var left, right := 0, n;
    while left < right
      invariant 0 <= left <= right <= n == |es|
      invariant forall i :: 0 <= i < left ==> es[i].key < key
      invariant forall i :: right <= i < n ==> key < es[i].key
    {
      var mid := left + (right - left) / 2;
      var midKey := KeyAt(page, base, mid);
      if midKey == key {
        BelowUnique(es, key, mid);
        return true, mid;
      } else if midKey < key {
        left := mid + 1;
      } else {
        right := mid;
      }
    }
    BelowUnique(es, key, left);
    return false, left;
  }

  // ---------------------------------------------------------------- insert

  /** What an insert at slot `pos` writes: the count, one entry, and the entries from there on one place right. */
  ghost predicate Shifted(b: seq<Byte>, r: seq<Byte>, base: nat, pos: nat, key: U64, payload: Payload)
    requires InBounds(b, base) && pos <= Count(b) < Capacity(base)
  {
    && |r| == |b| && Count(r) == Count(b) + 1
    && r[..COUNT_AT] == b[..COUNT_AT] && r[COUNT_AT + 2..Pos(base, pos)] == b[COUNT_AT + 2..Pos(base, pos)]
    && EntryAt(r, Pos(base, pos)) == Entry(key, payload)
    && r[Pos(base, pos + 1)..Pos(base, Count(b) + 1)] == b[Pos(base, pos)..Pos(base, Count(b))]
    && r[Pos(base, Count(b) + 1)..] == b[Pos(base, Count(b) + 1)..]
  }

  /** Header bytes other than the entry count, and every byte past the last entry, are as before. */
  ghost predicate RestKept(b: seq<Byte>, r: seq<Byte>, base: nat, count: nat) {
    && |r| == |b| && COUNT_AT + 2 <= base && Pos(base, count) <= |b|
    && r[..COUNT_AT] == b[..COUNT_AT] && r[COUNT_AT + 2..base] == b[COUNT_AT + 2..base]
    && r[Pos(base, count)..] == b[Pos(base, count)..]
  }

  lemma EntriesBefore(b: seq<Byte>, r: seq<Byte>, base: nat, pos: nat, i: nat)
    requires IsBase(base) && |r| == |b| && i < pos && Pos(base, pos) <= |b|
    requires r[COUNT_AT + 2..Pos(base, pos)] == b[COUNT_AT + 2..Pos(base, pos)]
    ensures EntryAt(r, Pos(base, i)) == EntryAt(b, Pos(base, i))
  {
    var start := COUNT_AT + 2;
    Piece(b, start, r, start, Pos(base, pos) - start, Pos(base, i) - start, Pos(base, i + 1) - start);
    SameEntry(b, Pos(base, i), r, Pos(base, i));
  }

  lemma EntriesMoved(b: seq<Byte>, lo: nat, r: seq<Byte>, at: nat, n: nat, i: nat)
    requires lo + ENTRY_SIZE * n <= |b| && at + ENTRY_SIZE * n <= |r| && i < n
    requires r[at..at + ENTRY_SIZE * n] == b[lo..lo + ENTRY_SIZE * n]
    ensures EntryAt(r, Pos(at, i)) == EntryAt(b, Pos(lo, i))
  {
    Piece(b, lo, r, at, ENTRY_SIZE * n, ENTRY_SIZE * i, ENTRY_SIZE * (i + 1));
    SameEntry(b, Pos(lo, i), r, Pos(at, i));
  }

  lemma ShiftedIsInsert(b: seq<Byte>, r: seq<Byte>, base: nat, pos: nat, key: U64, payload: Payload)
    requires InBounds(b, base) && Count(b) < Capacity(base) && pos == Below(Entries(b, base), key)
    requires Shifted(b, r, base, pos, key, payload)
    ensures InBounds(r, base) && Entries(r, base) == InsertSorted(Entries(b, base), Entry(key, payload))
  {
    hide EntryAt, Below;
    var es, e, n := Entries(b, base), Entry(key, payload), Count(b);
    forall i | 0 <= i < Count(r)
      ensures Entries(r, base)[i] == InsertSorted(es, e)[i]
    {
      InsertSortedAt(es, e, i);
      if i < pos {
        EntriesBefore(b, r, base, pos, i);
      } else if i > pos {
        EntriesMoved(b, Pos(base, pos), r, Pos(base, pos + 1), n - pos, i - pos - 1);
      }
    }
  }

  lemma ShiftedKeeps(b: seq<Byte>, r: seq<Byte>, base: nat, pos: nat, key: U64, payload: Payload)
    requires InBounds(b, base) && pos <= Count(b) < Capacity(base) && Shifted(b, r, base, pos, key, payload)
    ensures RestKept(b, r, base, Count(r))
  {
    var start := COUNT_AT + 2;
    Piece(b, start, r, start, Pos(base, pos) - start, 0, base - start);
  }

  /** Inserting on the page is inserting into the sorted run, errors included; nothing else on the page moves. */
  method InsertEntry(page: array<Byte>, base: nat, key: U64, payload: Payload)
    returns (r: Result<(), PageOps.OverlayError>)
    requires InBounds(page[..], base) && Sorted(Entries(page[..], base))
    modifies page
    ensures InBounds(page[..], base)
    ensures var s := PageOps.Insert(old(Entries(page[..], base)), Entry(key, payload), Capacity(base));
      && (s.Ok? ==> r == Ok(()) && Entries(page[..], base) == s.value)
      && (s.Err? ==> r == Err(s.error) && page[..] == old(page[..]))
    ensures RestKept(old(page[..]), page[..], base, Count(page[..]))
  {
    hide EntryAt, Entries, Below, InsertSorted, Shifted, Sorted;
    ghost var b := page[..];
    var n := Read16(page, COUNT_AT);
    if n >= Capacity(base) { return Err(PageOps.PageFull); }
    var found, pos := FindSlot(page, base, key);
    if found { return Err(PageOps.DuplicateKey); }
    Shift(page, base, pos, n, key, payload);
    ShiftedIsInsert(b, page[..], base, pos, key, payload);
    ShiftedKeeps(b, page[..], base, pos, key, payload);
    return Ok(());
  }

  method Shift(page: array<Byte>, base: nat, pos: nat, n: nat, key: U64, payload: Payload)
    requires InBounds(page[..], base) && pos <= n == Count(page[..]) < Capacity(base)
    modifies page
    ensures Shifted(old(page[..]), page[..], base, pos, key, payload)
  {
    hide EntryAt, Num64, Num16, Shifted;
    ghost var b := page[..];
    if pos < n {
      CopyWithin(page, Pos(base, pos), ENTRY_SIZE * (n - pos), Pos(base, pos + 1));
    }
    ghost var b1 := page[..];
    Write64(page, Pos(base, pos), key);
    ghost var b2 := page[..];
    Write(page, Pos(base, pos) + 8, payload);
    ghost var b3 := page[..];
    Write16(page, COUNT_AT, n + 1);
    EntryWritten(b2, b3, page[..], Pos(base, pos), key, payload);
    ShiftWrites(b, b1, page[..], base, pos, key, payload);
  }

  lemma ShiftWrites(b: seq<Byte>, b1: seq<Byte>, r: seq<Byte>, base: nat, pos: nat, key: U64, payload: Payload)
    requires InBounds(b, base) && pos <= Count(b) < Capacity(base) && |r| == |b1| == |b|
    requires SameOutside(b, b1, Pos(base, pos + 1), Pos(base, Count(b) + 1))
    requires b1[Pos(base, pos + 1)..Pos(base, Count(b) + 1)] == b[Pos(base, pos)..Pos(base, Count(b))]
    requires forall k {:trigger r[k]} ::
      0 <= k < |b| && !(COUNT_AT <= k < COUNT_AT + 2) && !(Pos(base, pos) <= k < Pos(base, pos + 1)) ==> r[k] == b1[k]
    requires Count(r) == Count(b) + 1 && EntryAt(r, Pos(base, pos)) == Entry(key, payload)
    ensures Shifted(b, r, base, pos, key, payload)
  {
    hide EntryAt, Count;
    var lo, hi := Pos(base, pos + 1), Pos(base, Count(b) + 1);
    assert r[lo..hi] == b1[lo..hi];
  }

  lemma EntryWritten(b2: seq<Byte>, b3: seq<Byte>, r: seq<Byte>, at: nat, key: U64, payload: Payload)
    requires COUNT_AT + 2 <= at && at + ENTRY_SIZE <= |b2|
    requires Num64(b2, at) == key && SameOutside(b2, b3, at + 8, at + 16) && b3[at + 8..at + 16] == payload
    requires SameOutside(b3, r, COUNT_AT, COUNT_AT + 2)
    ensures EntryAt(r, at) == Entry(key, payload)
  {
    assert forall k :: at <= k < at + 8 ==> r[k] == b2[k];
    assert r[at + 8..at + 16] == b3[at + 8..at + 16];
  }

  // ---------------------------------------------------------------- delete

  lemma RemovedIsRemove(b: seq<Byte>, r: seq<Byte>, base: nat, index: nat)
    requires InBounds(b, base) && index < Count(b) && |r| == |b| && Count(r) == Count(b) - 1
    requires r[COUNT_AT + 2..Pos(base, index)] == b[COUNT_AT + 2..Pos(base, index)]
    requires r[Pos(base, index)..Pos(base, Count(b) - 1)] == b[Pos(base, index + 1)..Pos(base, Count(b))]
    ensures InBounds(r, base) && Entries(r, base) == RemoveAt(Entries(b, base), index)
  {
    hide EntryAt;
    forall i | 0 <= i < Count(r)
      ensures Entries(r, base)[i] == RemoveAt(Entries(b, base), index)[i]
    {
      if i < index {
        EntriesBefore(b, r, base, index, i);
      } else {
        EntriesMoved(b, Pos(base, index + 1), r, Pos(base, index), Count(b) - 1 - index, i - index);
      }
    }
  }

  /** Close the gap at slot `index` and lower the count. */
  method Close(page: array<Byte>, base: nat, index: nat, n: nat)
    requires InBounds(page[..], base) && index < n == Count(page[..])
    modifies page
    ensures Count(page[..]) == n - 1 && page[..COUNT_AT] == old(page[..COUNT_AT])
    ensures page[COUNT_AT + 2..Pos(base, index)] == old(page[COUNT_AT + 2..Pos(base, index)])
    ensures page[Pos(base, index)..Pos(base, n - 1)] == old(page[Pos(base, index + 1)..Pos(base, n)])
    ensures page[Pos(base, n)..] == old(page[Pos(base, n)..])
  {
    if index < n - 1 {
      CopyWithin(page, Pos(base, index + 1), ENTRY_SIZE * (n - 1 - index), Pos(base, index));
    }
    ghost var b1 := page[..];
    Write16(page, COUNT_AT, n - 1);
    assert page[Pos(base, index)..Pos(base, n - 1)] == b1[Pos(base, index)..Pos(base, n - 1)];
  }

  /** Deleting a slot on the page is removing it from the run; the header and the bytes past the last entry stay. */
  method DeleteEntry(page: array<Byte>, base: nat, index: nat) returns (r: Result<(), PageOps.OverlayError>)
    requires InBounds(page[..], base)
    modifies page
    ensures InBounds(page[..], base)
    ensures var s := PageOps.Delete(old(Entries(page[..], base)), index);
      && (s.Ok? ==> r == Ok(()) && Entries(page[..], base) == s.value)
      && (s.Err? ==> r == Err(s.error) && page[..] == old(page[..]))
    ensures RestKept(old(page[..]), page[..], base, old(Count(page[..])))
  {
    ghost var b := page[..];
    var n := Read16(page, COUNT_AT);
    if index >= n { return Err(PageOps.IndexOutOfBounds); }
    Close(page, base, index, n);
    RemovedIsRemove(b, page[..], base, index);
    Piece(b, COUNT_AT + 2, page[..], COUNT_AT + 2, Pos(base, index) - COUNT_AT - 2, 0, base - COUNT_AT - 2);
    return Ok(());
  }

  /** Rewriting one entry's payload changes that entry and no other byte. */
  method SetPayload(page: array<Byte>, base: nat, index: nat, payload: Payload)
    requires InBounds(page[..], base) && index < Count(page[..])
    modifies page
    ensures InBounds(page[..], base)
    ensures var es := old(Entries(page[..], base));
      Entries(page[..], base) == es[index := Entry(es[index].key, payload)]
    ensures SameOutside(old(page[..]), page[..], Pos(base, index) + 8, Pos(base, index) + 16)
  {
    ghost var b := page[..];
    Write(page, Pos(base, index) + 8, payload);
    PayloadSet(b, page[..], base, index, payload);
  }

  lemma PayloadSet(b: seq<Byte>, r: seq<Byte>, base: nat, index: nat, payload: Payload)
    requires InBounds(b, base) && index < Count(b) && SameOutside(b, r, Pos(base, index) + 8, Pos(base, index) + 16)
    requires r[Pos(base, index) + 8..Pos(base, index) + 16] == payload
    ensures InBounds(r, base) &&
      Entries(r, base) == Entries(b, base)[index := Entry(Entries(b, base)[index].key, payload)]
  {
    forall i | 0 <= i < Count(b)
      ensures EntryAt(r, Pos(base, i)) == if i == index then Entry(Num64(b, Pos(base, i)), payload)
        else EntryAt(b, Pos(base, i))
    {
      var at := Pos(base, i);
      if i == index {
        assert forall k :: at <= k < at + 8 ==> r[k] == b[k];
      } else {
        assert r[at..at + ENTRY_SIZE] == b[at..at + ENTRY_SIZE];
        SameEntry(b, at, r, at);
      }
    }
  }

  /** Writing header bytes other than the count leaves the entries alone. */
  lemma HeaderWriteKeeps(b: seq<Byte>, r: seq<Byte>, base: nat, lo: nat, hi: nat)
    requires InBounds(b, base) && SameOutside(b, r, lo, hi) && COUNT_AT + 2 <= lo <= hi <= base
    ensures InBounds(r, base) && Entries(r, base) == Entries(b, base)
  {
    forall i | 0 <= i < Count(r)
      ensures Entries(r, base)[i] == Entries(b, base)[i]
    {
      SameEntry(b, Pos(base, i), r, Pos(base, i));
    }
  }
}
