/** The leaf pages of the page directory as bytes. They are laid out like the index leaves; an entry holds a file id
    and a page number. The inner pages are those of the index. */
module DirectoryPages {
  import opened Wrappers
  import opened Bytes
  import opened SortedEntries
  import opened EntryPage
  import opened PoolTheory
  import opened Directory
  import PageOps
  import I = IndexPages
  import T = BTreeTheory

  function SlotOf(p: Payload): Slot {
    Slot(Num32(p, 0), Num32(p, 4))
  }

  function SlotBytes(s: Slot): (p: Payload)
    requires s.file < U32_END && s.number < U32_END
    ensures SlotOf(p) == s
  {
    var a, b := I.LE32(s.file), I.LE32(s.number);
    assert Num32(a + b, 0) == Num32(a, 0) && Num32(a + b, 4) == Num32(b, 0);
    a + b
  }

  /** The page a directory leaf's bytes stand for. */
  ghost function LeafOf(b: seq<Byte>): (p: T.Page<Slot>)
    requires InBounds(b, LEAF_BASE)
    ensures p.Leaf?
  {
    T.Leaf(I.Decoded(Entries(b, LEAF_BASE), SlotOf), Num32(b, I.NEXT_AT), Num32(b, I.PREV_AT))
  }

  /** A directory leaf in numbers: the header of an index leaf, and 16-byte entries from byte 40 on: a page id, a
      file and a page number. */
  lemma LeafInBytes(b: seq<Byte>, i: nat)
    requires InBounds(b, LEAF_BASE)
    ensures |b| == 4096
    ensures var p := LeafOf(b);
      && |p.entries| == FromLE(b[16..18]) && p.next == FromLE(b[20..24]) && p.prev == FromLE(b[24..28])
      && (i < |p.entries| ==>
           var at := 40 + 16 * i;
           && at + 16 <= 4096
           && p.entries[i].key == FromLE(b[at..at + 8])
           && p.entries[i].value == Slot(FromLE(b[at + 8..at + 12]), FromLE(b[at + 12..at + 16])))
  {
    hide Num64, Num32, Num16;
    I.LeafInBytes(b, i);
    if i < Count(b) {
      var p := Entries(b, LEAF_BASE)[i].value;
      I.EntryInBytes(b, LEAF_BASE, i);
      NumsAreLE(p, 0);
      NumsAreLE(p, 4);
      var at := 40 + 16 * i;
      assert p[0..4] == b[at + 8..at + 12] && p[4..8] == b[at + 12..at + 16];
    }
  }

  method Lookup(page: array<Byte>, l: PageKey) returns (r: Option<PPageId>)
    requires InBounds(page[..], LEAF_BASE) && Sorted(Entries(page[..], LEAF_BASE))
    ensures var es := LeafOf(page[..]).entries;
      r == if Found(es, l) then Some(ToPPageId(es[Below(es, l)].value)) else None
  {
    hide Below, EntryAt, Num32;
    I.DecodedSearch(Entries(page[..], LEAF_BASE), SlotOf, l);
    var found, pos := FindSlot(page, LEAF_BASE, l);
    if !found { return None; }
    var p := I.PayloadAt(page, LEAF_BASE, pos);
    return Some(ToPPageId(SlotOf(p)));
  }

  /** Adding a place on the bytes is inserting it into the page they stand for. */
  method InsertPlace(page: array<Byte>, l: PageKey, p: PPageId) returns (r: Result<(), PageOps.OverlayError>)
    requires InBounds(page[..], LEAF_BASE) && Sorted(Entries(page[..], LEAF_BASE)) && p.file < U32_END
    modifies page
    ensures InBounds(page[..], LEAF_BASE) && Sorted(Entries(page[..], LEAF_BASE))
    ensures var was := LeafOf(old(page[..]));
      match PageOps.Insert(was.entries, Entry(l, FromPPageId(p)), T.LEAF_MAX)
      case Ok(es) => r == Ok(()) && LeafOf(page[..]) == T.Leaf(es, was.next, was.prev)
      case Err(e) => r == Err(e) && page[..] == old(page[..])
  {
    hide Below, EntryAt, InsertSorted, Num32, RestKept, SlotOf;
    ghost var b := page[..];
    I.Capacities();
    I.DecodedInsertResult(Entries(b, LEAF_BASE), SlotOf, Entry(l, SlotBytes(FromPPageId(p))), T.LEAF_MAX);
    r := InsertEntry(page, LEAF_BASE, l, SlotBytes(FromPPageId(p)));
    I.LinksKept(b, page[..], Count(page[..]));
  }

  /** Updating a place rewrites that entry in place, or reports that there is none. */
  method UpdatePlace(page: array<Byte>, l: PageKey, p: PPageId) returns (updated: bool)
    requires InBounds(page[..], LEAF_BASE) && Sorted(Entries(page[..], LEAF_BASE)) && p.file < U32_END
    modifies page
    ensures InBounds(page[..], LEAF_BASE)
    ensures var was := LeafOf(old(page[..]));
      var pos := Below(was.entries, l);
      && updated == Found(was.entries, l)
      && (updated ==> LeafOf(page[..]) == T.Leaf(was.entries[pos := Entry(l, FromPPageId(p))], was.next, was.prev))
      && (!updated ==> page[..] == old(page[..]))
  {
    hide Below, EntryAt, SlotOf;
    ghost var b := page[..];
    I.DecodedSearch(Entries(b, LEAF_BASE), SlotOf, l);
    var found, pos := FindSlot(page, LEAF_BASE, l);
    updated := found;
    if found {
      SetPayload(page, LEAF_BASE, pos, SlotBytes(FromPPageId(p)));
      HeaderKept(b, page[..], pos);
    }
  }

  lemma HeaderKept(b: seq<Byte>, r: seq<Byte>, pos: nat)
    requires |b| == PAGE_SIZE && SameOutside(b, r, Pos(LEAF_BASE, pos) + 8, Pos(LEAF_BASE, pos) + 16)
    ensures Num32(r, I.NEXT_AT) == Num32(b, I.NEXT_AT) && Num32(r, I.PREV_AT) == Num32(b, I.PREV_AT)
  {
  }

  /** Deleting by key removes that entry, or reports that there is none. */
  method DeleteByKey(page: array<Byte>, l: PageKey) returns (deleted: bool)
    requires InBounds(page[..], LEAF_BASE) && Sorted(Entries(page[..], LEAF_BASE))
    modifies page
    ensures InBounds(page[..], LEAF_BASE)
    ensures var was := LeafOf(old(page[..]));
      && deleted == Found(was.entries, l)
      && (deleted ==> LeafOf(page[..]) == T.Leaf(RemoveAt(was.entries, Below(was.entries, l)), was.next, was.prev))
      && (!deleted ==> page[..] == old(page[..]))
  {
    hide Below, EntryAt, RemoveAt, Num32, RestKept, SlotOf;
    ghost var b := page[..];
    I.DecodedSearch(Entries(b, LEAF_BASE), SlotOf, l);
    var found, pos := FindSlot(page, LEAF_BASE, l);
    deleted := found;
    if found {
      I.DecodedRemove(Entries(b, LEAF_BASE), SlotOf, pos);
      var r := DeleteEntry(page, LEAF_BASE, pos);
      I.LinksKept(b, page[..], Count(b));
    }
  }
}
