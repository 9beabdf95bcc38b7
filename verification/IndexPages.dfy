/** The leaf and inner pages of the index as bytes: every byte-level operation is the abstract page operation. */
module IndexPages {
  import opened Wrappers
  import opened Bytes
  import opened SortedEntries
  import opened EntryPage
  import PageOps
  import T = BTreeTheory
  import H = HeapRows

  const FLAGS_AT := 18
  const NEXT_AT := 20
  const PREV_AT := 24
  const LEFTMOST_AT := 20

  // ---------------------------------------------------------------- decoding

  function RecordOf(p: Payload): H.RecordId {
    H.RecordId(Num32(p, 0), Num16(p, 4))
  }

  function ChildOf(p: Payload): T.PageId {
    Num32(p, 0)
  }

  ghost function Decoded<V>(es: seq<Entry<Payload>>, f: Payload -> V): (ds: seq<Entry<V>>)
    ensures |ds| == |es|
    ensures forall i :: 0 <= i < |es| ==> ds[i] == Entry(es[i].key, f(es[i].value))
  {
    seq(|es|, i requires 0 <= i < |es| => Entry(es[i].key, f(es[i].value)))
  }

  lemma DecodedSearch<V>(es: seq<Entry<Payload>>, f: Payload -> V, key: int)
    requires Sorted(es)
    ensures Sorted(Decoded(es, f))
    ensures Below(Decoded(es, f), key) == Below(es, key) && Upto(Decoded(es, f), key) == Upto(es, key)
    ensures Found(Decoded(es, f), key) == Found(es, key)
  {
    var ds := Decoded(es, f);
    BelowUnique(ds, key, Below(es, key));
    UptoUnique(ds, key, Upto(es, key));
  }

  lemma DecodedParts<V>(x: seq<Entry<Payload>>, y: seq<Entry<Payload>>, f: Payload -> V)
    ensures Decoded(x + y, f) == Decoded(x, f) + Decoded(y, f)
  {
  }

  /** Decoding commutes with inserting and deleting. */
  lemma DecodedInsert<V>(es: seq<Entry<Payload>>, f: Payload -> V, e: Entry<Payload>)
    requires Sorted(es)
    ensures Decoded(InsertSorted(es, e), f) == InsertSorted(Decoded(es, f), Entry(e.key, f(e.value)))
  {
    DecodedSearch(es, f, e.key);
    DecodedSplice(es, f, e, Below(es, e.key));
  }

  lemma DecodedSplice<V>(es: seq<Entry<Payload>>, f: Payload -> V, e: Entry<Payload>, pos: nat)
    requires pos <= |es|
    ensures Decoded(es[..pos] + [e] + es[pos..], f) ==
      Decoded(es, f)[..pos] + [Entry(e.key, f(e.value))] + Decoded(es, f)[pos..]
  {
    DecodedParts(es[..pos] + [e], es[pos..], f);
    DecodedParts(es[..pos], [e], f);
    assert Decoded(es, f)[..pos] == Decoded(es[..pos], f);
    assert Decoded(es, f)[pos..] == Decoded(es[pos..], f);
  }

  lemma DecodedRemove<V>(es: seq<Entry<Payload>>, f: Payload -> V, i: nat)
    requires i < |es|
    ensures Decoded(RemoveAt(es, i), f) == RemoveAt(Decoded(es, f), i)
  {
  }

  /** The page a leaf's bytes stand for. */
  ghost function LeafOf(b: seq<Byte>): (p: T.Page<H.RecordId>)
    requires InBounds(b, LEAF_BASE)
    ensures p.Leaf?
  {
    T.Leaf(Decoded(Entries(b, LEAF_BASE), RecordOf), Num32(b, NEXT_AT), Num32(b, PREV_AT))
  }

  /** The page an inner page's bytes stand for. */
  ghost function InnerOf(b: seq<Byte>): (p: T.Page<H.RecordId>)
    requires InBounds(b, INNER_BASE)
    ensures p.Inner?
  {
    T.Inner(Num32(b, LEFTMOST_AT), Decoded(Entries(b, INNER_BASE), ChildOf))
  }

  lemma PayloadInBytes(p: Payload)
    ensures RecordOf(p) == H.RecordId(FromLE(p[0..4]), FromLE(p[4..6])) && ChildOf(p) == FromLE(p[0..4])
  {
    hide Num32, Num16, FromLE;
    NumsAreLE(p, 0);
    NumsAreLE(p, 4);
  }

  /** Entry `i` is two little-endian numbers side by side, the key and what it leads to, in 16 bytes. */
  lemma EntryInBytes(b: seq<Byte>, base: nat, i: nat)
    requires InBounds(b, base) && i < Count(b)
    ensures |b| == 4096 && base + 16 * i + 16 <= 4096
    ensures var at, e := base + 16 * i, Entries(b, base)[i];
      && e.key == FromLE(b[at..at + 8]) && e.value == b[at + 8..at + 16]
      && RecordOf(e.value) == H.RecordId(FromLE(b[at + 8..at + 12]), FromLE(b[at + 12..at + 14]))
      && ChildOf(e.value) == FromLE(b[at + 8..at + 12])
  {
    hide Num64, RecordOf, ChildOf, FromLE;
    var at, p := base + 16 * i, Entries(b, base)[i].value;
    NumsAreLE(b, at);
    PayloadInBytes(p);
    assert p[0..8] == p == b[at + 8..at + 8 + 8];
    Piece(b, at + 8, p, 0, 8, 0, 4);
    Piece(b, at + 8, p, 0, 8, 4, 6);
  }

  /** A leaf in numbers: the count at byte 16, the links at 20 and 24, and 16-byte entries from byte 40 on: a key, a
      page and a slot. */
  lemma LeafInBytes(b: seq<Byte>, i: nat)
    requires InBounds(b, LEAF_BASE)
    ensures |b| == 4096
    ensures var p := LeafOf(b);
      && |p.entries| == FromLE(b[16..18]) && p.next == FromLE(b[20..24]) && p.prev == FromLE(b[24..28])
      && (i < |p.entries| ==>
           var at := 40 + 16 * i;
           && at + 16 <= 4096
           && p.entries[i].key == FromLE(b[at..at + 8])
           && p.entries[i].value == H.RecordId(FromLE(b[at + 8..at + 12]), FromLE(b[at + 12..at + 14])))
  {
    hide Num64, Num32, Num16, RecordOf;
    NumsAreLE(b, 16);
    NumsAreLE(b, 20);
    NumsAreLE(b, 24);
    if i < Count(b) { EntryInBytes(b, LEAF_BASE, i); }
  }

  /** An inner page in numbers: the count at byte 16, the leftmost child at 20, and 16-byte separators from byte 24
      on: a key and a page. */
  lemma InnerInBytes(b: seq<Byte>, i: nat)
    requires InBounds(b, INNER_BASE)
    ensures |b| == 4096
    ensures var p := InnerOf(b);
      && |p.seps| == FromLE(b[16..18]) && p.leftmost == FromLE(b[20..24])
      && (i < |p.seps| ==>
           var at := 24 + 16 * i;
           && at + 16 <= 4096
           && p.seps[i].key == FromLE(b[at..at + 8]) && p.seps[i].value == FromLE(b[at + 8..at + 12]))
  {
    hide Num64, Num32, Num16, ChildOf;
    NumsAreLE(b, 16);
    NumsAreLE(b, 20);
    if i < Count(b) { EntryInBytes(b, INNER_BASE, i); }
  }

  /** The capacities are the ones the tree is built with. */
  lemma Capacities()
    ensures Capacity(LEAF_BASE) == T.LEAF_MAX && Capacity(INNER_BASE) == T.INNER_MAX
    ensures Pos(LEAF_BASE, T.LEAF_MAX) <= PAGE_SIZE < Pos(LEAF_BASE, T.LEAF_MAX + 1)
    ensures Pos(INNER_BASE, T.INNER_MAX) <= PAGE_SIZE < Pos(INNER_BASE, T.INNER_MAX + 1)
  {
  }

  // ---------------------------------------------------------------- payloads

  function LE32(x: nat): (b: seq<Byte>)
    requires x < 0x1_0000_0000
    ensures |b| == 4 && Num32(b, 0) == x
  {
    var low, high := x % 0x1_0000, x / 0x1_0000;
    [low % 0x100, low / 0x100, high % 0x100, high / 0x100]
  }

  function RecordBytes(rid: H.RecordId): (p: Payload)
    requires rid.page < 0x1_0000_0000 && rid.slot < 0x1_0000
    ensures RecordOf(p) == rid
  {
    var b := LE32(rid.page);
    var p := b + [rid.slot % 0x100, rid.slot / 0x100, 0, 0];
    assert Num32(p, 0) == Num32(b, 0);
    p
  }

  function ChildBytes(child: T.PageId): (p: Payload)
    requires child < 0x1_0000_0000
    ensures ChildOf(p) == child
  {
    var b := LE32(child);
    var p := b + [0, 0, 0, 0];
    assert Num32(p, 0) == Num32(b, 0);
    p
  }

  // ---------------------------------------------------------------- leaf pages

  const LEAF_TYPE: Byte := 3
  const INNER_TYPE: Byte := 2

  /** Zero the page and write its id and type. */
  method Clear(page: array<Byte>, id: T.PageId, kind: Byte)
    requires page.Length == PAGE_SIZE && id < 0x1_0000_0000
    modifies page
    ensures Num32(page[..], PAGE_ID_AT) == id && page[PAGE_TYPE_AT] == kind
    ensures forall k :: COUNT_AT <= k < PAGE_SIZE ==> page[k] == 0
  {
    forall i | 0 <= i < page.Length { page[i] := 0; }
    Write32(page, PAGE_ID_AT, id);
    ghost var b := page[..];
    page[PAGE_TYPE_AT] := kind;
    assert forall k :: PAGE_ID_AT <= k < PAGE_TYPE_AT ==> page[..][k] == b[k];
    assert forall k :: COUNT_AT <= k < PAGE_SIZE ==> b[k] == 0;
  }

  method InitLeaf(page: array<Byte>, id: T.PageId)
    requires page.Length == PAGE_SIZE && id < 0x1_0000_0000
    modifies page
    ensures InBounds(page[..], LEAF_BASE) && LeafOf(page[..]) == T.Leaf([], 0, 0)
    ensures Num32(page[..], PAGE_ID_AT) == id && page[PAGE_TYPE_AT] == LEAF_TYPE
  {
    Clear(page, id, LEAF_TYPE);
    ghost var b := page[..];
    assert Count(b) == 0 && Num32(b, NEXT_AT) == 0 && Num32(b, PREV_AT) == 0;
    assert Decoded(Entries(b, LEAF_BASE), RecordOf) == [];
  }

  method PayloadAt(page: array<Byte>, base: nat, i: nat) returns (p: Payload)
    requires InBounds(page[..], base) && i < Count(page[..])
    ensures p == Entries(page[..], base)[i].value
  {
    var at := Pos(base, i);
    assert page[at + 8..at + ENTRY_SIZE] == page[..][at + 8..at + ENTRY_SIZE];
    p := page[at + 8..at + ENTRY_SIZE];
  }

  method Lookup(page: array<Byte>, key: U64) returns (r: Option<H.RecordId>)
    requires InBounds(page[..], LEAF_BASE) && Sorted(Entries(page[..], LEAF_BASE))
    ensures var es := LeafOf(page[..]).entries;
      r == if Found(es, key) then Some(es[Below(es, key)].value) else None
  {
    hide Below, EntryAt;
    DecodedSearch(Entries(page[..], LEAF_BASE), RecordOf, key);
    var found, pos := FindSlot(page, LEAF_BASE, key);
    if !found { return None; }
    var p := PayloadAt(page, LEAF_BASE, pos);
    return Some(RecordOf(p));
  }

  /** The links survive a change of entries. */
  lemma LinksKept(b: seq<Byte>, r: seq<Byte>, count: nat)
    requires |b| == PAGE_SIZE && RestKept(b, r, LEAF_BASE, count)
    ensures Num32(r, NEXT_AT) == Num32(b, NEXT_AT) && Num32(r, PREV_AT) == Num32(b, PREV_AT)
  {
    var x, y := b[COUNT_AT + 2..LEAF_BASE], r[COUNT_AT + 2..LEAF_BASE];
    assert Num32(b, NEXT_AT) == Num32(x, 2) && Num32(r, NEXT_AT) == Num32(y, 2);
    assert Num32(b, PREV_AT) == Num32(x, 6) && Num32(r, PREV_AT) == Num32(y, 6);
  }

  lemma LeftmostKept(b: seq<Byte>, r: seq<Byte>, count: nat)
    requires |b| == PAGE_SIZE && RestKept(b, r, INNER_BASE, count)
    ensures Num32(r, LEFTMOST_AT) == Num32(b, LEFTMOST_AT)
  {
    var x, y := b[COUNT_AT + 2..INNER_BASE], r[COUNT_AT + 2..INNER_BASE];
    assert Num32(b, LEFTMOST_AT) == Num32(x, 2) && Num32(r, LEFTMOST_AT) == Num32(y, 2);
  }

  lemma DecodedInsertResult<V>(es: seq<Entry<Payload>>, f: Payload -> V, e: Entry<Payload>, cap: nat)
    requires Sorted(es)
    ensures var s, t := PageOps.Insert(es, e, cap), PageOps.Insert(Decoded(es, f), Entry(e.key, f(e.value)), cap);
      && s.Ok? == t.Ok?
      && (s.Ok? ==> t.value == Decoded(s.value, f) && Sorted(s.value))
      && (s.Err? ==> t.error == s.error)
  {
    DecodedSearch(es, f, e.key);
    DecodedInsert(es, f, e);
    if !Found(es, e.key) { InsertSortedOk(es, e); }
  }

  /** Inserting a record on the bytes is inserting it into the page they stand for. */
  method InsertRecord(page: array<Byte>, key: U64, rid: H.RecordId) returns (r: Result<(), PageOps.OverlayError>)
    requires InBounds(page[..], LEAF_BASE) && Sorted(Entries(page[..], LEAF_BASE))
    requires rid.page < 0x1_0000_0000 && rid.slot < 0x1_0000
    modifies page
    ensures InBounds(page[..], LEAF_BASE) && Sorted(Entries(page[..], LEAF_BASE))
    ensures var p := LeafOf(old(page[..]));
      match PageOps.Insert(p.entries, Entry(key, rid), T.LEAF_MAX)
      case Ok(es) => r == Ok(()) && LeafOf(page[..]) == T.Leaf(es, p.next, p.prev)
      case Err(e) => r == Err(e) && page[..] == old(page[..])
  {
    hide Below, EntryAt, InsertSorted, Num32, RestKept, RecordOf;
    ghost var b := page[..];
    Capacities();
    DecodedInsertResult(Entries(b, LEAF_BASE), RecordOf, Entry(key, RecordBytes(rid)), T.LEAF_MAX);
    r := InsertEntry(page, LEAF_BASE, key, RecordBytes(rid));
    LinksKept(b, page[..], Count(page[..]));
  }

  /** Deleting a slot on the bytes is removing the entry from the page they stand for. */
  method DeleteRecord(page: array<Byte>, index: nat) returns (r: Result<(), PageOps.OverlayError>)
    requires InBounds(page[..], LEAF_BASE)
    modifies page
    ensures InBounds(page[..], LEAF_BASE)
    ensures var p := LeafOf(old(page[..]));
      match PageOps.Delete(p.entries, index)
      case Ok(es) => r == Ok(()) && LeafOf(page[..]) == T.Leaf(es, p.next, p.prev)
      case Err(e) => r == Err(e) && page[..] == old(page[..])
  {
    hide EntryAt, RemoveAt, Num32, RestKept, RecordOf;
    ghost var b := page[..];
    if index < Count(b) { DecodedRemove(Entries(b, LEAF_BASE), RecordOf, index); }
    r := DeleteEntry(page, LEAF_BASE, index);
    LinksKept(b, page[..], Count(b));
  }

  method SetNext(page: array<Byte>, next: T.PageId)
    requires InBounds(page[..], LEAF_BASE) && next < 0x1_0000_0000
    modifies page
    ensures InBounds(page[..], LEAF_BASE) &&
      LeafOf(page[..]) == T.Leaf(LeafOf(old(page[..])).entries, next, LeafOf(old(page[..])).prev)
  {
    ghost var b := page[..];
    Write32(page, NEXT_AT, next);
    HeaderWriteKeeps(b, page[..], LEAF_BASE, NEXT_AT, NEXT_AT + 4);
  }

  method SetPrev(page: array<Byte>, prev: T.PageId)
    requires InBounds(page[..], LEAF_BASE) && prev < 0x1_0000_0000
    modifies page
    ensures InBounds(page[..], LEAF_BASE) &&
      LeafOf(page[..]) == T.Leaf(LeafOf(old(page[..])).entries, LeafOf(old(page[..])).next, prev)
  {
    ghost var b := page[..];
    Write32(page, PREV_AT, prev);
    HeaderWriteKeeps(b, page[..], LEAF_BASE, PREV_AT, PREV_AT + 4);
  }

  // ---------------------------------------------------------------- inner pages

  method InitInner(page: array<Byte>, id: T.PageId, leftmost: T.PageId)
    requires page.Length == PAGE_SIZE && id < 0x1_0000_0000 && leftmost < 0x1_0000_0000
    modifies page
    ensures InBounds(page[..], INNER_BASE) && InnerOf(page[..]) == T.Inner(leftmost, [])
    ensures Num32(page[..], PAGE_ID_AT) == id && page[PAGE_TYPE_AT] == INNER_TYPE
  {
    Clear(page, id, INNER_TYPE);
    Write32(page, LEFTMOST_AT, leftmost);
    ghost var b := page[..];
    assert Count(b) == 0;
    assert Decoded(Entries(b, INNER_BASE), ChildOf) == [];
  }

  /** Routing on the bytes descends where the page they stand for sends the key. */
  method FindChild(page: array<Byte>, key: U64) returns (child: T.PageId)
    requires InBounds(page[..], INNER_BASE) && Sorted(Entries(page[..], INNER_BASE))
    ensures child == T.FindChild(InnerOf(page[..]), key)
  {
    hide Num64, Num32, Upto, EntryAt, ChildOf, Sorted;
    ghost var es := Entries(page[..], INNER_BASE);
    DecodedSearch(es, ChildOf, key);
    var n := Read16(page, COUNT_AT);
    var routed := false;
    if n > 0 {
      var first := KeyAt(page, INNER_BASE, 0);
      routed := first <= key;
    }
    if !routed {
      UptoBetween(es, key, 0);
      child := Read32(page, LEFTMOST_AT);
    } else {
      var result := LargestSeparator(page, key, n);
      var p := PayloadAt(page, INNER_BASE, result);
      child := ChildOf(p);
    }
  }

  /** Binary search for the last separator not above the key. */
  method LargestSeparator(page: array<Byte>, key: U64, n: nat) returns (result: nat)
    requires InBounds(page[..], INNER_BASE) && n == Count(page[..]) > 0 && Sorted(Entries(page[..], INNER_BASE))
    requires Entries(page[..], INNER_BASE)[0].key <= key
    ensures Upto(Entries(page[..], INNER_BASE), key) == result + 1
  {
    hide Num64, Upto, EntryAt, Sorted;
    ghost var es := Entries(page[..], INNER_BASE);
    var left, right := 0, n;
    result := 0;
    while left < right
      invariant 0 <= left <= right <= n == |es|
      invariant result == if left == 0 then 0 else left - 1
      invariant left > 0 ==> es[left - 1].key <= key
      invariant right < n ==> key < es[right].key
    {
      var mid := left + (right - left) / 2;
      var midSep := KeyAt(page, INNER_BASE, mid);
      if key >= midSep {
        result, left := mid, mid + 1;
      } else {
        right := mid;
      }
    }
    UptoBetween(es, key, left);
  }

  /** Inserting a separator on the bytes is inserting it into the page they stand for. */
  method InsertSeparator(page: array<Byte>, key: U64, child: T.PageId) returns (r: Result<(), PageOps.OverlayError>)
    requires InBounds(page[..], INNER_BASE) && Sorted(Entries(page[..], INNER_BASE)) && child < 0x1_0000_0000
    modifies page
    ensures InBounds(page[..], INNER_BASE) && Sorted(Entries(page[..], INNER_BASE))
    ensures var p := InnerOf(old(page[..]));
      match PageOps.Insert(p.seps, Entry(key, child), T.INNER_MAX)
      case Ok(es) => r == Ok(()) && InnerOf(page[..]) == T.Inner(p.leftmost, es)
      case Err(e) => r == Err(e) && page[..] == old(page[..])
  {
    hide Below, EntryAt, InsertSorted, Num32, RestKept, ChildOf;
    ghost var b := page[..];
    Capacities();
    DecodedInsertResult(Entries(b, INNER_BASE), ChildOf, Entry(key, ChildBytes(child)), T.INNER_MAX);
    r := InsertEntry(page, INNER_BASE, key, ChildBytes(child));
    LeftmostKept(b, page[..], Count(page[..]));
  }

  method DeleteSeparator(page: array<Byte>, index: nat) returns (r: Result<(), PageOps.OverlayError>)
    requires InBounds(page[..], INNER_BASE)
    modifies page
    ensures InBounds(page[..], INNER_BASE)
    ensures var p := InnerOf(old(page[..]));
      match PageOps.Delete(p.seps, index)
      case Ok(es) => r == Ok(()) && InnerOf(page[..]) == T.Inner(p.leftmost, es)
      case Err(e) => r == Err(e) && page[..] == old(page[..])
  {
    hide EntryAt, RemoveAt, Num32, RestKept, ChildOf;
    ghost var b := page[..];
    if index < Count(b) { DecodedRemove(Entries(b, INNER_BASE), ChildOf, index); }
    r := DeleteEntry(page, INNER_BASE, index);
    LeftmostKept(b, page[..], Count(b));
  }

  // ---------------------------------------------------------------- keys

  /** The first eight bytes, padded with zeros. */
  function Padded(bytes: seq<Byte>): (p: Payload) {
    seq(8, i requires 0 <= i < 8 => if i < |bytes| then bytes[i] else 0)
  }

  function KeyFromBytes(bytes: seq<Byte>): U64 {
    Num64(Padded(bytes), 0)
  }

  lemma SameDigits(a: seq<Byte>, b: seq<Byte>, at: nat)
    requires at + 4 <= |a| && |b| == |a| && Num32(a, at) == Num32(b, at)
    ensures a[at..at + 4] == b[at..at + 4]
  {
    assert Num16(a, at) == Num16(b, at) && Num16(a, at + 2) == Num16(b, at + 2);
  }

  /** Two byte strings are the same index key exactly when they agree on their first eight bytes, zero padded. */
  lemma {:induction false} SameKeyIff(x: seq<Byte>, y: seq<Byte>)
    ensures KeyFromBytes(x) == KeyFromBytes(y) <==> Padded(x) == Padded(y)
  {
    hide Num32, Padded;
    var a, b := Padded(x), Padded(y);
    if KeyFromBytes(x) == KeyFromBytes(y) {
      SameDigits(a, b, 0);
      SameDigits(a, b, 4);
      assert a == a[0..4] + a[4..8] && b == b[0..4] + b[4..8];
    }
  }

  /** The bytes a scan reports for a key. */
  function KeyToBytes(key: U64): (bytes: seq<Byte>) {
    ToLE(8, key)
  }

  /** The key is the number its first eight bytes spell, the first byte lowest. */
  lemma KeyIsNumber(bytes: seq<Byte>)
    ensures KeyFromBytes(bytes) == FromLE(Padded(bytes))
  {
    hide Num64;
    NumsAreLE(Padded(bytes), 0);
    assert Padded(bytes)[0..8] == Padded(bytes);
  }

  /** A key comes back from its bytes, and eight bytes come back from their key. */
  lemma KeyBytesRoundTrip(key: U64, bytes: seq<Byte>)
    ensures KeyFromBytes(KeyToBytes(key)) == key
    ensures |bytes| == 8 ==> KeyToBytes(KeyFromBytes(bytes)) == bytes
  {
    hide Num64;
    KeyIsNumber(KeyToBytes(key));
    assert Padded(KeyToBytes(key)) == KeyToBytes(key);
    Widths();
    LERoundTrip(8, key);
    if |bytes| == 8 {
      KeyIsNumber(bytes);
      assert Padded(bytes) == bytes;
      ToLEFromLE(bytes);
    }
  }
}
