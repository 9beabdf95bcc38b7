/** The heap page: a slot array growing up from the headers, tuple bytes growing down from the end of the page. */
module SlottedPage {
  import opened Wrappers
  import opened Bytes

  const HEADERS_SIZE := 24
  const SLOT_SIZE := 4
  const NUM_SLOTS_AT := 16
  const DATA_OFFSET_AT := 18
  const NEXT_PAGE_AT := 20

  datatype PageError = InvalidIndex(index: nat) | NoSpace | Corruption

  type Page = PageBuf

  function Slots(b: Page): nat { Num16(b, NUM_SLOTS_AT) }

  function DataOffset(b: Page): nat { Num16(b, DATA_OFFSET_AT) }

  function NextPage(b: Page): nat { Num32(b, NEXT_PAGE_AT) }

  function SlotsEnd(n: nat): nat { HEADERS_SIZE + SLOT_SIZE * n }

  function Offset(b: Page, i: nat): nat
    requires SlotsEnd(i + 1) <= PAGE_SIZE
  {
    Num16(b, SlotsEnd(i))
  }

  function Length(b: Page, i: nat): nat
    requires SlotsEnd(i + 1) <= PAGE_SIZE
  {
    Num16(b, SlotsEnd(i) + 2)
  }

  /** Where the tuple allocated before tuple `i` starts. */
  function Ceiling(b: Page, i: nat): nat
    requires SlotsEnd(i) <= PAGE_SIZE
  {
    if i == 0 then PAGE_SIZE else Offset(b, i - 1)
  }

  /** Tuple `i` lies between the data offset and its predecessor. */
  predicate SlotOk(b: Page, i: nat)
    requires SlotsEnd(i + 1) <= PAGE_SIZE
  {
    DataOffset(b) <= Offset(b, i) && Offset(b, i) + Length(b, i) <= Ceiling(b, i)
  }

  /** The slot array ends below the data, and every tuple lies in its place. */
  ghost predicate PageOk(b: Page) {
    && SlotsEnd(Slots(b)) <= DataOffset(b) <= PAGE_SIZE
    && forall i {:trigger SlotOk(b, i)} :: 0 <= i < Slots(b) ==> SlotOk(b, i)
  }

  lemma {:induction false} CeilingInside(b: Page, i: nat)
    requires PageOk(b) && i <= Slots(b)
    ensures DataOffset(b) <= Ceiling(b, i) <= PAGE_SIZE
  {
    if i > 0 {
      CeilingInside(b, i - 1);
      assert SlotOk(b, i - 1);
    }
  }

  /** Every tuple of a well-formed page can be read. */
  lemma SlotInside(b: Page, i: nat)
    requires PageOk(b) && i < Slots(b)
    ensures SlotsEnd(Slots(b)) <= DataOffset(b) <= Offset(b, i) && Offset(b, i) + Length(b, i) <= PAGE_SIZE
  {
    CeilingInside(b, i);
    assert SlotOk(b, i);
  }

  function TupleAt(b: Page, i: nat): seq<Byte>
    requires SlotsEnd(i + 1) <= PAGE_SIZE && Offset(b, i) + Length(b, i) <= PAGE_SIZE
  {
    b[Offset(b, i)..Offset(b, i) + Length(b, i)]
  }

  /** The tuples of a page, by slot. */
  ghost function Tuples(b: Page): (ts: seq<seq<Byte>>)
    requires PageOk(b)
    ensures |ts| == Slots(b)
  {
    seq(Slots(b), i requires 0 <= i < Slots(b) => SlotInside(b, i); TupleAt(b, i))
  }

  lemma {:induction false} Below(b: Page, i: nat, j: nat)
    requires PageOk(b) && i < j < Slots(b)
    ensures Offset(b, j) + Length(b, j) <= Offset(b, i)
    decreases j
  {
    assert SlotOk(b, j);
    if i < j - 1 { Below(b, i, j - 1); }
  }

  /** Slot array and tuples never overlap, and distinct tuples occupy disjoint stretches of the page. */
  lemma NoOverlap(b: Page, i: nat, j: nat)
    requires PageOk(b) && i < Slots(b) && j < Slots(b)
    ensures SlotsEnd(Slots(b)) <= Offset(b, i) && Offset(b, i) + Length(b, i) <= PAGE_SIZE
    ensures i != j ==> Offset(b, i) + Length(b, i) <= Offset(b, j) || Offset(b, j) + Length(b, j) <= Offset(b, i)
  {
    SlotInside(b, i);
    if i < j { Below(b, i, j); }
    if j < i { Below(b, j, i); }
  }

  /** A heap page in numbers: the slot count at byte 16, the next page at 20, and 4-byte slots from byte 24 on, each the
      offset and the length of its tuple. */
  lemma PageInBytes(b: Page, i: nat)
    requires PageOk(b)
    ensures Slots(b) == FromLE(b[16..18]) && DataOffset(b) == FromLE(b[18..20]) && NextPage(b) == FromLE(b[20..24])
    ensures i < Slots(b) ==>
      var at := 24 + 4 * i;
      && at + 4 <= 4096
      && var off, length := FromLE(b[at..at + 2]), FromLE(b[at + 2..at + 4]);
        off + length <= 4096 && Tuples(b)[i] == b[off..off + length]
  {
    hide Num16, Num32, FromLE;
    NumsAreLE(b, 16);
    NumsAreLE(b, 18);
    NumsAreLE(b, 20);
    if i < Slots(b) {
      SlotInside(b, i);
      NumsAreLE(b, 24 + 4 * i);
      NumsAreLE(b, 24 + 4 * i + 2);
    }
  }

  // ---------------------------------------------------------------- what a write leaves alone

  /** The slot entries before `n` are the same bytes. */
  ghost predicate SameSlots(b: Page, r: Page, n: nat)
    requires SlotsEnd(n) <= PAGE_SIZE
  {
    forall k {:trigger r[k]} :: HEADERS_SIZE <= k < SlotsEnd(n) ==> r[k] == b[k]
  }

  lemma SlotKept(b: Page, r: Page, n: nat, i: nat)
    requires SlotsEnd(n) <= PAGE_SIZE && SameSlots(b, r, n) && i < n
    ensures Offset(r, i) == Offset(b, i) && Length(r, i) == Length(b, i) && Ceiling(r, i) == Ceiling(b, i)
  {
    assert r[SlotsEnd(i)] == b[SlotsEnd(i)] && r[SlotsEnd(i) + 1] == b[SlotsEnd(i) + 1];
    assert r[SlotsEnd(i) + 2] == b[SlotsEnd(i) + 2] && r[SlotsEnd(i) + 3] == b[SlotsEnd(i) + 3];
    if i > 0 {
      assert r[SlotsEnd(i - 1)] == b[SlotsEnd(i - 1)] && r[SlotsEnd(i - 1) + 1] == b[SlotsEnd(i - 1) + 1];
    }
  }

  /** Same headers and slots, and the same bytes outside one stretch of the data. */
  ghost predicate SameBut(b: Page, r: Page, lo: nat, hi: nat) {
    && SlotsEnd(Slots(b)) <= PAGE_SIZE
    && Slots(r) == Slots(b) && DataOffset(r) == DataOffset(b) && SameSlots(b, r, Slots(b))
    && forall k {:trigger r[k]} :: SlotsEnd(Slots(b)) <= k < PAGE_SIZE && !(lo <= k < hi) ==> r[k] == b[k]
  }

  lemma SameButOk(b: Page, r: Page, lo: nat, hi: nat)
    requires PageOk(b) && SameBut(b, r, lo, hi)
    ensures PageOk(r)
    ensures forall i :: 0 <= i < Slots(b) && (hi <= Offset(b, i) || Offset(b, i) + Length(b, i) <= lo) ==>
      Tuples(r)[i] == Tuples(b)[i]
  {
    forall i {:trigger SlotOk(r, i)} | 0 <= i < Slots(r)
      ensures SlotOk(r, i)
    {
      assert SlotOk(b, i);
      SlotKept(b, r, Slots(b), i);
    }
    forall i | 0 <= i < Slots(b) && (hi <= Offset(b, i) || Offset(b, i) + Length(b, i) <= lo)
      ensures Tuples(r)[i] == Tuples(b)[i]
    {
      SlotKept(b, r, Slots(b), i);
      SlotInside(b, i);
    }
  }

  // ---------------------------------------------------------------- insert

  /** What an insert writes: the slot count, the data offset, one new slot and the tuple below the old data; no other
      byte. */
  ghost predicate Inserted(b: Page, r: Page, t: seq<Byte>)
    requires SlotsEnd(Slots(b)) + |t| + SLOT_SIZE <= DataOffset(b) <= PAGE_SIZE
  {
    var n, off := Slots(b), DataOffset(b) - |t|;
    && Slots(r) == n + 1 && DataOffset(r) == off && Offset(r, n) == off && Length(r, n) == |t|
    && r[off..off + |t|] == t && r[..UBER_HEADER_SIZE] == b[..UBER_HEADER_SIZE] && NextPage(r) == NextPage(b)
    && SameSlots(b, r, n) && r[DataOffset(b)..] == b[DataOffset(b)..]
  }

  lemma InsertedSlots(b: Page, r: Page, t: seq<Byte>)
    requires PageOk(b) && SlotsEnd(Slots(b)) + |t| + SLOT_SIZE <= DataOffset(b) && Inserted(b, r, t)
    ensures PageOk(r)
  {
    var n := Slots(b);
    CeilingInside(b, n);
    if n > 0 { SlotKept(b, r, n, n - 1); }
    forall i {:trigger SlotOk(r, i)} | 0 <= i < n
      ensures SlotOk(r, i)
    {
      assert SlotOk(b, i);
      SlotKept(b, r, n, i);
    }
    assert SlotOk(r, n);
  }

  lemma SameTail(b: seq<Byte>, r: seq<Byte>, from: nat, lo: nat, hi: nat)
    requires |r| == |b| && from <= lo <= hi <= |b| && r[from..] == b[from..]
    ensures r[lo..hi] == b[lo..hi]
  {
    forall k | lo <= k < hi
      ensures r[k] == b[k]
    {
      assert r[from..][k - from] == b[from..][k - from];
    }
  }

  /** A tuple that fits goes into the next slot, and every earlier tuple keeps its slot and bytes. */
  lemma InsertOk(b: Page, r: Page, t: seq<Byte>)
    requires PageOk(b) && SlotsEnd(Slots(b)) + |t| + SLOT_SIZE <= DataOffset(b) && Inserted(b, r, t)
    ensures PageOk(r) && Tuples(r) == Tuples(b) + [t]
  {
    InsertedSlots(b, r, t);
    forall i | 0 <= i < Slots(b)
      ensures Tuples(r)[i] == Tuples(b)[i]
    {
      SlotKept(b, r, Slots(b), i);
      SlotInside(b, i);
      SameTail(b, r, DataOffset(b), Offset(b, i), Offset(b, i) + Length(b, i));
    }
  }

  // ---------------------------------------------------------------- operations on a page buffer

  method Init(page: array<Byte>)
    requires page.Length == PAGE_SIZE
    modifies page
    ensures PageOk(page[..]) && Tuples(page[..]) == [] && NextPage(page[..]) == 0 && DataOffset(page[..]) == PAGE_SIZE
    ensures page[..UBER_HEADER_SIZE] == old(page[..UBER_HEADER_SIZE])
  {
    Write16(page, NUM_SLOTS_AT, 0);
    Write16(page, DATA_OFFSET_AT, PAGE_SIZE);
    Write32(page, NEXT_PAGE_AT, 0);
  }

  /** Linking a page changes no slot and no tuple. */
  method SetNextPage(page: array<Byte>, next: nat)
    requires page.Length == PAGE_SIZE && PageOk(page[..]) && next < 0x1_0000_0000
    modifies page
    ensures PageOk(page[..]) && Tuples(page[..]) == Tuples(old(page[..])) && NextPage(page[..]) == next
    ensures DataOffset(page[..]) == DataOffset(old(page[..]))
  {
    ghost var b: Page := page[..];
    Write32(page, NEXT_PAGE_AT, next);
    SameButOk(b, page[..], PAGE_SIZE, PAGE_SIZE);
    assert forall i :: 0 <= i < Slots(b) ==> Offset(b, i) + Length(b, i) <= PAGE_SIZE by {
      forall i | 0 <= i < Slots(b) ensures Offset(b, i) + Length(b, i) <= PAGE_SIZE { SlotInside(b, i); }
    }
  }

  /** What a slot of any page holds: damage the slot array or the slot's own extent shows is reported, never read
      past. */
  function SlotData(b: Page, idx: nat): Result<seq<Byte>, PageError> {
    if SlotsEnd(Slots(b)) > PAGE_SIZE then Err(Corruption)
    else if idx >= Slots(b) then Err(InvalidIndex(idx))
    else
      assert SlotsEnd(idx + 1) <= PAGE_SIZE;
      if Offset(b, idx) + Length(b, idx) > PAGE_SIZE then Err(Corruption) else Ok(TupleAt(b, idx))
  }

  /** Reading a slot of a well-formed page fails only for its index. */
  method GetData(page: array<Byte>, idx: nat) returns (r: Result<seq<Byte>, PageError>)
    requires page.Length == PAGE_SIZE
    ensures r == SlotData(page[..], idx)
    ensures PageOk(page[..]) ==> r == if idx < Slots(page[..]) then Ok(Tuples(page[..])[idx])
      else Err(InvalidIndex(idx))
  {
    var n := Read16(page, NUM_SLOTS_AT);
    if SlotsEnd(n) > PAGE_SIZE { return Err(Corruption); }
    if idx >= n { return Err(InvalidIndex(idx)); }
    assert SlotsEnd(idx + 1) <= PAGE_SIZE;
    var start := Read16(page, SlotsEnd(idx));
    var length := Read16(page, SlotsEnd(idx) + 2);
    assert PageOk(page[..]) ==> start + length <= PAGE_SIZE by {
      if PageOk(page[..]) { SlotInside(page[..], idx); }
    }
    if start + length > PAGE_SIZE { return Err(Corruption); }
    assert page[..][start..start + length] == page[start..start + length];
    return Ok(page[start..start + length]);
  }

  method Insert(page: array<Byte>, t: seq<Byte>) returns (r: Result<nat, PageError>)
    requires page.Length == PAGE_SIZE && PageOk(page[..])
    modifies page
    ensures r.Ok? <==> DataOffset(old(page[..])) - SlotsEnd(Slots(old(page[..]))) >= |t| + SLOT_SIZE
    ensures r.Err? ==> r.error == NoSpace && page[..] == old(page[..])
    ensures r.Ok? ==>
      && r.value == Slots(old(page[..])) && Inserted(old(page[..]), page[..], t)
      && PageOk(page[..]) && Tuples(page[..]) == Tuples(old(page[..])) + [t]
  {
    ghost var b: Page := page[..];
    var n := Read16(page, NUM_SLOTS_AT);
    var start := Read16(page, DATA_OFFSET_AT);
    var free := if start < SlotsEnd(n) then 0 else start - SlotsEnd(n);
    if free < |t| + SLOT_SIZE { return Err(NoSpace); }
    WriteTuple(page, n, start, t);
    InsertOk(b, page[..], t);
    return Ok(n);
  }

  method WriteTuple(page: array<Byte>, n: nat, start: nat, t: seq<Byte>)
    requires page.Length == PAGE_SIZE && n == Slots(page[..]) && start == DataOffset(page[..])
    requires SlotsEnd(n) + |t| + SLOT_SIZE <= start <= PAGE_SIZE
    modifies page
    ensures Inserted(old(page[..]), page[..], t)
  {
    hide Inserted, SameOutside;
    var off := start - |t|;
    ghost var b: Page := page[..];
    Write(page, off, t);
    ghost var b1: Page := page[..];
    Write16(page, DATA_OFFSET_AT, off);
    ghost var b2: Page := page[..];
    Write16(page, NUM_SLOTS_AT, n + 1);
    ghost var b3: Page := page[..];
    Write16(page, SlotsEnd(n), off);
    ghost var b4: Page := page[..];
    Write16(page, SlotsEnd(n) + 2, |t|);
    InsertedStepwise(b, b1, b2, b3, b4, page[..], t);
  }

  /** The five writes of an insert, one after the other. */
  lemma InsertedStepwise(b: Page, b1: Page, b2: Page, b3: Page, b4: Page, r: Page, t: seq<Byte>)
    requires SlotsEnd(Slots(b)) + |t| + SLOT_SIZE <= DataOffset(b) <= PAGE_SIZE
    requires var off := DataOffset(b) - |t|; SameOutside(b, b1, off, off + |t|) && b1[off..off + |t|] == t
    requires SameOutside(b1, b2, DATA_OFFSET_AT, DATA_OFFSET_AT + 2) && Num16(b2, DATA_OFFSET_AT) == DataOffset(b) - |t|
    requires SameOutside(b2, b3, NUM_SLOTS_AT, NUM_SLOTS_AT + 2) && Num16(b3, NUM_SLOTS_AT) == Slots(b) + 1
    requires var at := SlotsEnd(Slots(b)); SameOutside(b3, b4, at, at + 2) && Num16(b4, at) == DataOffset(b) - |t|
    requires var at := SlotsEnd(Slots(b)) + 2; SameOutside(b4, r, at, at + 2) && Num16(r, at) == |t|
    ensures Inserted(b, r, t)
  {
    var n, off := Slots(b), DataOffset(b) - |t|;
    forall x | 0 <= x < PAGE_SIZE
      ensures off <= x < off + |t| ==> r[x] == b1[x]
      ensures DATA_OFFSET_AT <= x < DATA_OFFSET_AT + 2 ==> r[x] == b2[x]
      ensures NUM_SLOTS_AT <= x < NUM_SLOTS_AT + 2 ==> r[x] == b3[x]
      ensures SlotsEnd(n) <= x < SlotsEnd(n) + 2 ==> r[x] == b4[x]
      ensures x < DATA_OFFSET_AT && x < NUM_SLOTS_AT ==> r[x] == b[x]
      ensures HEADERS_SIZE <= x < SlotsEnd(n) || DataOffset(b) <= x ==> r[x] == b[x]
    {
    }
    assert r[off..off + |t|] == b1[off..off + |t|];
  }

  // ---------------------------------------------------------------- changing a tuple in place

  /** Write into the bytes of one tuple: the page keeps its shape and every other tuple. */
  method Overwrite(page: array<Byte>, idx: nat, at: nat, bytes: seq<Byte>)
    requires page.Length == PAGE_SIZE && PageOk(page[..]) && idx < Slots(page[..]) &&
      at + |bytes| <= |Tuples(page[..])[idx]|
    modifies page
    ensures PageOk(page[..]) && NextPage(page[..]) == NextPage(old(page[..])) &&
      DataOffset(page[..]) == DataOffset(old(page[..]))
    ensures Tuples(page[..]) == Tuples(old(page[..]))[idx := Splice(Tuples(old(page[..]))[idx], at, bytes)]
  {
    ghost var b: Page := page[..];
    SlotInside(b, idx);
    var start := Read16(page, SlotsEnd(idx));
    Write(page, start + at, bytes);
    OverwriteOk(b, page[..], idx, at, bytes);
  }

  lemma OverwriteOk(b: Page, r: Page, idx: nat, at: nat, bytes: seq<Byte>)
    requires PageOk(b) && idx < Slots(b) && at + |bytes| <= |Tuples(b)[idx]| &&
      Offset(b, idx) + Length(b, idx) <= PAGE_SIZE
    requires var from := Offset(b, idx) + at;
      SameOutside(b, r, from, from + |bytes|) && from + |bytes| <= PAGE_SIZE && r[from..from + |bytes|] == bytes
    ensures PageOk(r) && NextPage(r) == NextPage(b) && DataOffset(r) == DataOffset(b)
    ensures Tuples(r) == Tuples(b)[idx := Splice(Tuples(b)[idx], at, bytes)]
  {
    var start := Offset(b, idx);
    SlotInside(b, idx);
    SameButOk(b, r, start + at, start + at + |bytes|);
    forall i | 0 <= i < Slots(b) && i != idx
      ensures Tuples(r)[i] == Tuples(b)[i]
    {
      NoOverlap(b, i, idx);
    }
    SlotKept(b, r, Slots(b), idx);
    OverwrittenTuple(b, r, start, Length(b, idx), at, bytes);
  }

  lemma OverwrittenTuple(b: seq<Byte>, r: seq<Byte>, start: nat, length: nat, at: nat, bytes: seq<Byte>)
    requires start + length <= |b| && at + |bytes| <= length && SameOutside(b, r, start + at, start + at + |bytes|)
    requires r[start + at..start + at + |bytes|] == bytes
    ensures r[start..start + length] == Splice(b[start..start + length], at, bytes)
  {
    var was, now := b[start..start + length], r[start..start + length];
    forall k | 0 <= k < length
      ensures now[k] == Splice(was, at, bytes)[k]
    {
      assert now[k] == r[start + k];
      if at <= k < at + |bytes| { assert r[start + k] == r[start + at..start + at + |bytes|][k - at]; }
    }
  }

  /** Deleting a slot empties it and keeps every other slot's number and bytes. */
  method Delete(page: array<Byte>, idx: nat) returns (r: Result<(), PageError>)
    requires page.Length == PAGE_SIZE && PageOk(page[..])
    modifies page
    ensures PageOk(page[..]) && NextPage(page[..]) == NextPage(old(page[..]))
    ensures r == if idx < Slots(old(page[..])) then Ok(()) else Err(InvalidIndex(idx))
    ensures Tuples(page[..]) == if r.Ok? then Tuples(old(page[..]))[idx := []] else Tuples(old(page[..]))
  {
    var n := Read16(page, NUM_SLOTS_AT);
    if idx >= n { return Err(InvalidIndex(idx)); }
    ghost var b: Page := page[..];
    Write16(page, SlotsEnd(idx) + 2, 0);
    TombstoneOk(b, page[..], idx);
    return Ok(());
  }

  lemma TombstoneOk(b: Page, r: Page, idx: nat)
    requires PageOk(b) && idx < Slots(b) && SameOutside(b, r, SlotsEnd(idx) + 2, SlotsEnd(idx) + 4) &&
      Length(r, idx) == 0
    ensures PageOk(r) && Tuples(r) == Tuples(b)[idx := []] && NextPage(r) == NextPage(b)
  {
    forall i | 0 <= i < Slots(b)
      ensures Offset(r, i) == Offset(b, i) && (i != idx ==> Length(r, i) == Length(b, i))
    {
      assert r[SlotsEnd(i)] == b[SlotsEnd(i)] && r[SlotsEnd(i) + 1] == b[SlotsEnd(i) + 1];
    }
    forall i {:trigger SlotOk(r, i)} | 0 <= i < Slots(r)
      ensures SlotOk(r, i)
    {
      assert SlotOk(b, i);
      assert Ceiling(r, i) == Ceiling(b, i);
    }
    forall i | 0 <= i < Slots(b)
      ensures Tuples(r)[i] == if i == idx then [] else Tuples(b)[i]
    {
      SlotInside(b, i);
      assert i != idx ==> r[Offset(b, i)..Offset(b, i) + Length(b, i)] == b[Offset(b, i)..Offset(b, i) + Length(b, i)];
    }
  }
}
