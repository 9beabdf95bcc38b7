/** The range scan as a stream polled one item at a time. */
module IndexScan {
  import opened Wrappers
  import opened SortedEntries
  import opened BTreeTheory
  import opened BTreeScan
  import opened BTree

  class ScanState<V(==,!new)> {
    const index: Index<V>
    const end: Option<U64>
    var currentLeaf: PageId
    var start: Option<U64>
    var buffered: seq<Entry<V>>
    var bufIdx: nat
    var done: bool

    ghost predicate Valid()
      reads this, index
    {
      && index.Valid()
      && bufIdx <= |buffered|
      && (index.root == 0 ==> currentLeaf == 0)
      && (index.root != 0 ==> LinkOk(index.State(), index.own, currentLeaf))
    }

    /** The leaves not yet loaded would still yield this. */
    ghost function Ahead(): seq<Entry<V>>
      requires Valid()
      reads this, index
    {
      if index.root == 0 then [] else Out(index.State(), index.own, index.m, currentLeaf, start, end)
    }

    /** Everything the stream has yet to yield. */
    ghost function Rest(): seq<Entry<V>>
      requires Valid()
      reads this, index
    {
      if done then [] else buffered[bufIdx..] + Ahead()
    }

    /** Start a scan at the leaf of the start key, or of key 0 without one. */
    constructor (index: Index<V>, start: Option<U64>, end: Option<U64>)
      requires index.Valid()
      ensures this.index == index && Valid()
      ensures Slice(index.m, Rest(), 0, TOP, start, end)
      ensures index.root == 0 ==> Rest() == []
      ensures index.root != 0 ==>
        && LeafAt(index.pages, index.own, currentLeaf) && this.end == end
        && (Complete(index.m, Rest(), 0, start, end) <==> !Straddled(index.State(), index.own, 0, start, end))
      ensures (end.Some? ==> forall k :: k in index.m ==> k <= end.value) ==> Complete(index.m, Rest(), 0, start, end)
    {
      hide Inv, Slice, Complete, Straddled, Out;
      this.index, this.start, this.end := index, start, end;
      buffered, bufIdx := [], 0;
      currentLeaf, done := 0, index.root == 0;
      new;
      NothingToScan(index.m, start, end);
      if index.root != 0 {
        var leaf := index.FindLeaf(if start.Some? then start.value else 0);
        currentLeaf := leaf;
        ScanFrom(index.State(), index.own, index.m, leaf, start, end);
        assert Rest() == Out(index.State(), index.own, index.m, leaf, start, end);
      }
    }

    /** What the rest of one poll may yield: a set `done` no longer stops the first buffered item. */
    ghost function Pending(): seq<Entry<V>>
      requires Valid()
      reads this, index
    {
      if !done then Rest() else if bufIdx < |buffered| then [buffered[bufIdx]] else []
    }

    /** Poll the stream. */
    method Next() returns (item: Option<Entry<V>>)
      requires Valid()
      modifies this
      ensures Valid()
      ensures item.None? ==> old(Rest()) == []
      ensures item.Some? ==> old(Rest()) == [item.value] + Rest()
    {
      if done {
        return None;
      }
      while true
        invariant Valid()
        invariant old(Rest()) == Pending()
        decreases if index.root == 0 then 0 else TOP - From(index.own, currentLeaf)
      {
        if bufIdx < |buffered| {
          var e := TakeBuffered();
          return Some(e);
        }
        if currentLeaf == 0 || done {
          return None;
        }
        LoadNext();
        if currentLeaf == 0 && buffered == [] {
          return None;
        }
      }
    }

    method TakeBuffered() returns (e: Entry<V>)
      requires Valid() && bufIdx < |buffered|
      modifies `bufIdx
      ensures Valid() && old(Pending()) == [e] + Rest()
    {
      hide Inv, Out, Tree;
      ghost var ahead := Ahead();
      e := buffered[bufIdx];
      assert buffered[bufIdx..] == [e] + buffered[bufIdx + 1..];
      assert [e] + (buffered[bufIdx + 1..] + ahead) == buffered[bufIdx..] + ahead;
      bufIdx := bufIdx + 1;
      assert Ahead() == ahead;
    }

    /** Replace the drained buffer by the next leaf's entries. */
    method LoadNext()
      requires Valid() && currentLeaf != 0 && bufIdx == |buffered| && !done
      modifies this
      ensures Valid() && bufIdx == 0
      ensures old(Rest()) == Pending()
      ensures old(From(index.own, currentLeaf)) < From(index.own, currentLeaf) <= TOP
    {
      NextLeaf(index.State(), index.own, index.m, currentLeaf);
      var page := index.pages[currentLeaf];
      ghost var load := Load(page.entries, start, end);
      buffered, done := LoadLeaf(page.entries, start, end);
      bufIdx := 0;
      start := None;
      currentLeaf := page.next;
      assert buffered[0..] == buffered && load == (buffered, done);
    }
  }

  /** Filter one leaf's entries into the buffer, stopping at the first beyond the end key. */
  method LoadLeaf<V>(es: seq<Entry<V>>, start: Option<U64>, end: Option<U64>)
    returns (buffered: seq<Entry<V>>, done: bool)
    ensures (buffered, done) == Load(es, start, end)
  {
    buffered, done := [], false;
    assert es[0..] == es;
    for i := 0 to |es|
      invariant !done
      invariant Load(es, start, end).0 == buffered + Load(es[i..], start, end).0
      invariant Load(es, start, end).1 == Load(es[i..], start, end).1
    {
      assert es[i..][0] == es[i] && es[i..][1..] == es[i + 1..];
      if start.Some? && es[i].key < start.value {
        continue;
      }
      if end.Some? && es[i].key > end.value {
        done := true;
        break;
      }
      buffered := buffered + [es[i]];
    }
    assert buffered + [] == buffered;
  }

  lemma NothingToScan<V(!new)>(m: map<int, V>, start: Option<U64>, end: Option<U64>)
    ensures Slice(m, [], 0, TOP, start, end) && (m == map[] ==> Complete(m, [], 0, start, end))
  {
  }

  lemma ScanFrom<V(!new)>(s: Store<V>, own: Table, m: map<int, V>, leaf: PageId, start: Option<U64>, end: Option<U64>)
    requires Inv(s, own, own, m) && LeafAt(s.pages, own, leaf)
    requires var key := if start.Some? then start.value else 0; own[leaf].lo <= key < own[leaf].hi
    ensures var out := Out(s, own, m, leaf, start, end);
      && Slice(m, out, 0, TOP, start, end)
      && (Complete(m, out, 0, start, end) <==> !Straddled(s, own, 0, start, end))
    ensures (end.Some? ==> forall k :: k in m ==> k <= end.value) ==>
      Complete(m, Out(s, own, m, leaf, start, end), 0, start, end)
  {
    assert PageOk(s.pages, own, own, m, leaf);
    OutSound(s, own, m, leaf, start, end);
    OutComplete(s, own, m, leaf, start, end);
    CutShortIff(s, own, m, leaf, start, end);
    StraddledAnywhere(s, own, m, leaf, start, end);
    forall e: Entry<V> | Wanted(m, e, start, end)
      ensures own[leaf].lo <= e.key
    {
    }
    if end.Some? ==> forall k :: k in m ==> k <= end.value {
      NeverCut(s, own, m, leaf, start, end);
    }
  }

  /** No leaf before the one the scan starts at holds an entry in range. */
  lemma StraddledAnywhere<V(!new)>(s: Store<V>, own: Table, m: map<int, V>, leaf: PageId, start: Option<U64>,
                                   end: Option<U64>)
    requires Inv(s, own, own, m) && LeafAt(s.pages, own, leaf)
    requires var key := if start.Some? then start.value else 0; own[leaf].lo <= key < own[leaf].hi
    ensures Straddled(s, own, 0, start, end) <==> Straddled(s, own, own[leaf].lo, start, end)
  {
    assert PageOk(s.pages, own, own, m, leaf);
    forall q, i: nat | LeafAt(s.pages, own, q) && CutAt(s.pages[q].entries, i, start, end)
      ensures own[leaf].lo <= own[q].lo
    {
      assert PageOk(s.pages, own, own, m, q) && Separate(own, q, leaf);
      assert own[q].lo <= s.pages[q].entries[i].key < own[q].hi;
    }
  }
}
