/** Deleting a pair as a function on stores: the entry goes, and an underfull leaf may fuse with a sibling. */
module BTreeDelete {
  import opened Wrappers
  import opened SortedEntries
  import opened BTreeTheory
  import opened BTreeSteps
  import opened BTreeInsert
  import opened BTreeMerge
  import opened BTreeScan

  const LEAF_MERGE_THRESHOLD := 126  // LEAF_MAX / 2

  /** The first separator from `i` on whose child is `leaf`. */
  function SlotOf(seps: seq<Entry<PageId>>, leaf: PageId, i: nat): Option<nat>
    requires i <= |seps|
    decreases |seps| - i
  {
    if i == |seps| then None else if seps[i].value == leaf then Some(i) else SlotOf(seps, leaf, i + 1)
  }

  /** The separator between `leaf` and the sibling it would merge with: the right one for a leftmost child,
      otherwise the left one. None without a sibling, or if `leaf` is not below this page. */
  function MergeCandidate<V>(p: Page<V>, leaf: PageId): (r: Option<nat>)
    requires p.Inner?
  {
    if p.seps == [] then None else if leaf == p.leftmost then Some(0) else SlotOf(p.seps, leaf, 0)
  }

  /** The parent and the separator at which an underfull `leaf` at the end of `path` fuses with its sibling. */
  function FusionAt<V>(s: Store<V>, leaf: PageId, path: seq<PageId>): (r: Option<nat>)
    requires AllInner(s.pages, path)
    ensures r.Some? ==> path != [] && CanMerge(s.pages, path[|path| - 1], r.value)
  {
    if path == [] then None
    else
      var parent := path[|path| - 1];
      var j := MergeCandidate(s.pages[parent], leaf);
      if j.Some? && CanMerge(s.pages, parent, j.value) then j else None
  }

  /** Fuse the two leaves around separator `j`; a root left without separators hands over to its only child. */
  function FuseAt<V>(s: Store<V>, parent: PageId, j: nat): Store<V>
    requires CanMerge(s.pages, parent, j)
  {
    var merged := MergeLeaves(s, parent, j);
    if parent == s.root then Shrink(merged) else merged
  }

  function TryMerge<V>(s: Store<V>, leaf: PageId, path: seq<PageId>): Store<V>
    requires AllInner(s.pages, path)
  {
    var j := FusionAt(s, leaf, path);
    if j.None? then s else FuseAt(s, path[|path| - 1], j.value)
  }

  /** The page a merge takes out of the tree's leaves; 0 if there is no merge. */
  function Gone<V>(s: Store<V>, leaf: PageId, path: seq<PageId>): PageId
    requires AllInner(s.pages, path)
  {
    var j := FusionAt(s, leaf, path);
    if j.None? then 0 else Child(s.pages[path[|path| - 1]], j.value + 1)
  }

  /** The ranges after a merge: the survivor's reaches over the removed leaf's; a root that handed over is gone. */
  ghost function MergedTable<V>(s: Store<V>, own: Table, leaf: PageId, path: seq<PageId>): Table
    requires AllInner(s.pages, path)
  {
    var j := FusionAt(s, leaf, path);
    if j.None? then own
    else
      var p := s.pages[path[|path| - 1]];
      var survivor, removed := Child(p, j.value), Child(p, j.value + 1);
      var fused := if survivor in own && removed in own then Fuse(own, survivor, removed) else own;
      if TryMerge(s, leaf, path).root == s.root then fused else fused - {s.root}
  }

  function DeleteEntry<V>(s: Store<V>, leaf: PageId, pos: nat, path: seq<PageId>): Store<V>
    requires leaf in s.pages && s.pages[leaf].Leaf? && pos < |s.pages[leaf].entries| && AllInner(s.pages, path)
  {
    var s' := DeleteLeaf(s, leaf, pos);
    if |s.pages[leaf].entries| - 1 < LEAF_MERGE_THRESHOLD then TryMerge(s', leaf, path) else s'
  }

  function GoneAfterDelete<V>(s: Store<V>, leaf: PageId, pos: nat, path: seq<PageId>): PageId
    requires leaf in s.pages && s.pages[leaf].Leaf? && pos < |s.pages[leaf].entries| && AllInner(s.pages, path)
  {
    if |s.pages[leaf].entries| - 1 < LEAF_MERGE_THRESHOLD then Gone(DeleteLeaf(s, leaf, pos), leaf, path) else 0
  }

  // ---------------------------------------------------------------- who merges, and when

  lemma {:induction false} SlotOfOk(seps: seq<Entry<PageId>>, leaf: PageId, i: nat)
    requires i <= |seps|
    ensures var r := SlotOf(seps, leaf, i);
      if r.Some? then i <= r.value < |seps| && seps[r.value].value == leaf &&
        forall k :: i <= k < r.value ==> seps[k].value != leaf
      else forall k :: i <= k < |seps| ==> seps[k].value != leaf
    decreases |seps| - i
  {
    if i < |seps| { SlotOfOk(seps, leaf, i + 1); }
  }

  /** The chosen separator borders the leaf; there is none exactly without a sibling or outside this parent. */
  lemma CandidateBorders<V>(p: Page<V>, leaf: PageId)
    requires p.Inner?
    ensures var r := MergeCandidate(p, leaf);
      && (r.None? <==> p.seps == [] || forall i :: 0 <= i <= |p.seps| ==> Child(p, i) != leaf)
      && (r.Some? ==> r.value < |p.seps| && if leaf == p.leftmost then r.value == 0 else Child(p, r.value + 1) == leaf)
  {
    var r := MergeCandidate(p, leaf);
    SlotOfOk(p.seps, leaf, 0);
    assert Child(p, 0) == p.leftmost;
    if r.Some? && leaf != p.leftmost { assert Child(p, r.value + 1) == leaf; }
    if r.None? && p.seps != [] {
      forall i | 0 <= i <= |p.seps|
        ensures Child(p, i) != leaf
      {
        if i > 0 { assert p.seps[i - 1].value != leaf; }
      }
    }
  }

  /** `path` is the descent from the root to the leaf whose range holds `key`. */
  ghost predicate Descent<V>(s: Store<V>, own: Table, path: seq<PageId>, key: int, leaf: PageId) {
    && LeafAt(s.pages, own, leaf) && own[leaf].lo <= key < own[leaf].hi
    && Walk(s, own, path, key, leaf) && AllInner(s.pages, path)
    && if path == [] then leaf == s.root else path[0] == s.root
  }

  /** Both sides of a separator next to a leaf are leaves whose entries follow one another. */
  lemma SiblingsAreLeaves<V>(s: Store<V>, own: Table, m: map<int, V>, parent: PageId, j: nat, leaf: PageId)
    requires Inv(s, own, own, m) && parent in own && s.pages[parent].Inner? && j < |s.pages[parent].seps|
    requires LeafAt(s.pages, own, leaf) && (Child(s.pages[parent], j) == leaf || Child(s.pages[parent], j + 1) == leaf)
    ensures var p := s.pages[parent];
      var survivor, removed := Child(p, j), Child(p, j + 1);
      && LeafAt(s.pages, own, survivor) && LeafAt(s.pages, own, removed) && survivor != removed
      && Sorted(s.pages[survivor].entries + s.pages[removed].entries)
      && 0 !in s.pages
      && (var next := s.pages[removed].next; next != 0 ==> next in s.pages && s.pages[next].Leaf? && next != survivor)
  {
    var p := s.pages[parent];
    var survivor, removed := Child(p, j), Child(p, j + 1);
    assert PageOk(s.pages, own, own, m, parent) && PageOk(s.pages, own, own, m, leaf);
    assert ChildOk(p, own[parent], own, j) && ChildOk(p, own[parent], own, j + 1);
    assert PageOk(s.pages, own, own, m, survivor) && PageOk(s.pages, own, own, m, removed);
    assert LinksOk(s.pages, own, removed);
  }

  /** A merge happens exactly below a parent with a sibling for the leaf whose entries fit beside its own: with the
      right sibling if the leaf is the leftmost child, otherwise with the left one. */
  lemma FusionIff<V>(s: Store<V>, own: Table, m: map<int, V>, path: seq<PageId>, key: int, leaf: PageId)
    requires Inv(s, own, own, m) && Descent(s, own, path, key, leaf)
    ensures path == [] ==> FusionAt(s, leaf, path) == None
    ensures path != [] ==>
      var p := s.pages[path[|path| - 1]];
      var at := Upto(p.seps, key);
      var j := if at == 0 then 0 else at - 1;
      && Child(p, at) == leaf
      && (p.seps == [] ==> FusionAt(s, leaf, path) == None)
      && (p.seps != [] ==>
           && LeafAt(s.pages, own, Child(p, j)) && LeafAt(s.pages, own, Child(p, j + 1))
           && FusionAt(s, leaf, path) ==
              if |s.pages[Child(p, j)].entries| + |s.pages[Child(p, j + 1)].entries| <= LEAF_MAX then Some(j) else None)
  {
    if path != [] {
      var parent := path[|path| - 1];
      var p := s.pages[parent];
      var at := Upto(p.seps, key);
      assert WalkStep(s, own, path, key, leaf, |path| - 1);
      if p.seps != [] {
        SlotOfOk(p.seps, leaf, 0);
        SlotsDiffer(s, own, own, m, parent, at, 0);
        var r := SlotOf(p.seps, leaf, 0);
        if at > 0 { assert p.seps[at - 1].value == leaf; SlotsDiffer(s, own, own, m, parent, r.value + 1, at); }
        SiblingsAreLeaves(s, own, m, parent, if at == 0 then 0 else at - 1, leaf);
      }
    }
  }

  /** What a merge attempt meets at the parent it looks at. */
  lemma MergeReady<V>(s: Store<V>, own: Table, m: map<int, V>, path: seq<PageId>, key: int, leaf: PageId)
    requires Inv(s, own, own, m) && Descent(s, own, path, key, leaf)
    ensures AllInner(s.pages, path) && (path == [] ==> TryMerge(s, leaf, path) == s)
    ensures path != [] ==>
      var parent := path[|path| - 1];
      var p := s.pages[parent];
      var c := MergeCandidate(p, leaf);
      && (c.None? ==> TryMerge(s, leaf, path) == s)
      && (c.Some? ==>
           && c.value < |p.seps|
           && var survivor, removed := Child(p, c.value), Child(p, c.value + 1);
             && LeafAt(s.pages, own, survivor) && LeafAt(s.pages, own, removed) && survivor != removed
             && Sorted(s.pages[survivor].entries + s.pages[removed].entries) && 0 !in s.pages
             && (var next := s.pages[removed].next; next != 0 ==>
               next in s.pages && s.pages[next].Leaf? && next != survivor)
             && (if |s.pages[survivor].entries| + |s.pages[removed].entries| > LEAF_MAX
                 then TryMerge(s, leaf, path) == s
                 else CanMerge(s.pages, parent, c.value) && TryMerge(s, leaf, path) == FuseAt(s, parent, c.value)))
  {
    if path != [] {
      var parent := path[|path| - 1];
      var c := MergeCandidate(s.pages[parent], leaf);
      assert WalkStep(s, own, path, key, leaf, |path| - 1);
      CandidateBorders(s.pages[parent], leaf);
      if c.Some? { SiblingsAreLeaves(s, own, m, parent, c.value, leaf); }
    }
  }

  // ---------------------------------------------------------------- the tree and the chain afterwards

  /** Every leaf but `gone` stays a leaf, and only links to `gone` change: they lead past it. */
  ghost predicate Relinked<V>(s: Store<V>, own: Table, s': Store<V>, own': Table, gone: PageId) {
    && !LeafAt(s'.pages, own', gone)
    && forall q {:trigger LeafAt(s'.pages, own', q)} :: LeafAt(s.pages, own, q) && q != gone ==>
      && LeafAt(s'.pages, own', q)
      && s'.pages[q].next == if s.pages[q].next == gone && LeafAt(s.pages, own, gone) then s.pages[gone].next
        else s.pages[q].next
  }

  function Without(ids: seq<PageId>, gone: PageId): seq<PageId> {
    if ids == [] then [] else if ids[0] == gone then Without(ids[1..], gone) else [ids[0]] + Without(ids[1..], gone)
  }

  /** The leaf chain afterwards is the old one with exactly `gone` taken out. */
  lemma {:induction false} ChainCut<V>(s: Store<V>, own: Table, m: map<int, V>, s': Store<V>, own': Table,
                                       m': map<int, V>, gone: PageId, id: PageId)
    requires Inv(s, own, own, m) && Inv(s', own', own', m') && Relinked(s, own, s', own', gone)
    requires LeafAt(s.pages, own, id) && id != gone
    ensures LeafAt(s'.pages, own', id) && Chain(s', own', m', id) == Without(Chain(s, own, m, id), gone)
    decreases TOP - own[id].lo
  {
    assert LeafAt(s'.pages, own', id);
    NextLeaf(s, own, m, id);
    var next := s.pages[id].next;
    if next == 0 {
      assert Chain(s, own, m, id) == [id] && !LeafAt(s.pages, own, 0);
    } else if next != gone {
      ChainCut(s, own, m, s', own', m', gone, next);
      assert Chain(s, own, m, id) == [id] + Chain(s, own, m, next);
    } else {
      NextLeaf(s, own, m, next);
      var after := s.pages[next].next;
      assert Chain(s, own, m, next) == if after == 0 then [next] else [next] + Chain(s, own, m, after);
      assert Chain(s, own, m, id) == [id] + Chain(s, own, m, next);
      assert s'.pages[id].next == after;
      if after == 0 {
        assert Chain(s, own, m, id) == [id, gone] && Chain(s', own', m', id) == [id];
        assert [id, gone][1..] == [gone] && [gone][1..] == [] && Without([gone], gone) == [];
      } else {
        ChainCut(s, own, m, s', own', m', gone, after);
        assert Chain(s', own', m', id) == [id] + Chain(s', own', m', after);
        assert Chain(s, own, m, next)[1..] == Chain(s, own, m, after);
      }
    }
  }

  /** A merge attempt keeps the map and the tree, and cuts exactly the removed leaf out of the chain. */
  lemma TryMergeOk<V>(s: Store<V>, own: Table, m: map<int, V>, path: seq<PageId>, key: int, leaf: PageId)
    requires Inv(s, own, own, m) && Descent(s, own, path, key, leaf)
    ensures var s', own' := TryMerge(s, leaf, path), MergedTable(s, own, leaf, path);
      Inv(s', own', own', m) && Relinked(s, own, s', own', Gone(s, leaf, path))
  {
    hide Inv, Relinked, FuseAt;
    MergeNowhere(s, own, m);
    var j := FusionAt(s, leaf, path);
    if j.Some? {
      FusionIff(s, own, m, path, key, leaf);
      var parent := path[|path| - 1];
      assert WalkStep(s, own, path, key, leaf, |path| - 1);
      FuseAtOk(s, own, m, parent, j.value);
    }
  }

  lemma MergeNowhere<V>(s: Store<V>, own: Table, m: map<int, V>)
    requires Inv(s, own, own, m)
    ensures Relinked(s, own, s, own, 0)
  {
  }

  lemma FuseAtOk<V>(s: Store<V>, own: Table, m: map<int, V>, parent: PageId, j: nat)
    requires Inv(s, own, own, m) && parent in own && CanMerge(s.pages, parent, j)
    ensures var survivor, removed := Child(s.pages[parent], j), Child(s.pages[parent], j + 1);
      var s' := FuseAt(s, parent, j);
      && survivor in own && removed in own
      && var own' := if s'.root == s.root then Fuse(own, survivor, removed)
        else Fuse(own, survivor, removed) - {s.root};
        Inv(s', own', own', m) && Relinked(s, own, s', own', removed)
  {
    var p := s.pages[parent];
    var survivor, removed := Child(p, j), Child(p, j + 1);
    MergeNeighbours(s, own, m, parent, j);
    MergeLeavesOk(s, own, m, parent, j);
    var merged, fused := MergeLeaves(s, parent, j), Fuse(own, survivor, removed);
    FusedRelinked(s, own, m, parent, j);
    if parent == s.root && |p.seps| == 1 {
      ShrinkOk(merged, fused, m);
      assert PageOk(s.pages, own, own, m, s.root);
      ShrunkRelinked(s, own, merged, fused, removed);
      assert FuseAt(s, parent, j) == Shrink(merged) && Shrink(merged).root != s.root;
    } else {
      assert FuseAt(s, parent, j) == merged;
    }
  }

  /** The leaves do not notice the root going. */
  lemma ShrunkRelinked<V>(s: Store<V>, own: Table, merged: Store<V>, fused: Table, gone: PageId)
    requires Relinked(s, own, merged, fused, gone) && merged.root in merged.pages && merged.pages[merged.root].Inner?
    ensures Relinked(s, own, Shrink(merged), fused - {merged.root}, gone)
  {
    var s', own' := Shrink(merged), fused - {merged.root};
    forall q | LeafAt(s.pages, own, q) && q != gone
      ensures LeafAt(s'.pages, own', q) && LeafAt(merged.pages, fused, q)
    {
      assert LeafAt(merged.pages, fused, q);
    }
  }

  lemma FusedRelinked<V>(s: Store<V>, own: Table, m: map<int, V>, parent: PageId, j: nat)
    requires Inv(s, own, own, m) && parent in own && CanMerge(s.pages, parent, j)
    requires Child(s.pages[parent], j) in own && Child(s.pages[parent], j + 1) in own
    ensures var survivor, removed := Child(s.pages[parent], j), Child(s.pages[parent], j + 1);
      Relinked(s, own, MergeLeaves(s, parent, j), Fuse(own, survivor, removed), removed)
  {
    MergeNeighbours(s, own, m, parent, j);
    var p := s.pages[parent];
    var survivor, removed := Child(p, j), Child(p, j + 1);
    forall q | LeafAt(s.pages, own, q) && s.pages[q].next == removed
      ensures q == survivor
    {
      assert LinksOk(s.pages, own, q);
    }
  }

  // ---------------------------------------------------------------- the whole delete

  ghost function TableAfterDelete<V>(s: Store<V>, own: Table, leaf: PageId, pos: nat, path: seq<PageId>): Table
    requires leaf in s.pages && s.pages[leaf].Leaf? && pos < |s.pages[leaf].entries| && AllInner(s.pages, path)
  {
    if |s.pages[leaf].entries| - 1 < LEAF_MERGE_THRESHOLD then MergedTable(DeleteLeaf(s, leaf, pos), own, leaf, path)
      else own
  }

  /** From whichever leaf the chain is followed, it is the old chain with exactly `gone` taken out. */
  ghost predicate ChainLoses<V>(s: Store<V>, own: Table, m: map<int, V>, s': Store<V>, own': Table, m': map<int, V>,
                                gone: PageId)
    requires Inv(s, own, own, m) && Inv(s', own', own', m')
  {
    forall id {:trigger LeafAt(s'.pages, own', id)} :: LeafAt(s.pages, own, id) && id != gone ==>
      LeafAt(s'.pages, own', id) && Chain(s', own', m', id) == Without(Chain(s, own, m, id), gone)
  }

  lemma RelinkedChain<V>(s: Store<V>, own: Table, m: map<int, V>, s': Store<V>, own': Table, m': map<int, V>,
                         gone: PageId)
    requires Inv(s, own, own, m) && Inv(s', own', own', m') && Relinked(s, own, s', own', gone)
    ensures ChainLoses(s, own, m, s', own', m', gone)
  {
    forall id | LeafAt(s.pages, own, id) && id != gone
      ensures LeafAt(s'.pages, own', id) && Chain(s', own', m', id) == Without(Chain(s, own, m, id), gone)
    {
      ChainCut(s, own, m, s', own', m', gone, id);
    }
  }

  /** Deleting an entry does not disturb the way to its leaf. */
  lemma DescentKept<V>(s: Store<V>, own: Table, path: seq<PageId>, key: int, leaf: PageId, pos: nat)
    requires Descent(s, own, path, key, leaf) && pos < |s.pages[leaf].entries|
    ensures Descent(DeleteLeaf(s, leaf, pos), own, path, key, leaf)
  {
    var s' := DeleteLeaf(s, leaf, pos);
    forall i | 0 <= i < |path|
      ensures WalkStep(s', own, path, key, leaf, i)
    {
      assert WalkStep(s, own, path, key, leaf, i);
    }
  }

  /** A delete, merge included, leaves a tree for the map without that key, and a chain without just the merged-away
      leaf. */
  lemma DeleteEntryOk<V>(s: Store<V>, own: Table, m: map<int, V>, path: seq<PageId>, key: int, leaf: PageId)
    requires Inv(s, own, own, m) && Descent(s, own, path, key, leaf) && Found(s.pages[leaf].entries, key)
    ensures var pos := Below(s.pages[leaf].entries, key);
      var s', own', m' := DeleteEntry(s, leaf, pos, path), TableAfterDelete(s, own, leaf, pos, path), m - {key};
      Inv(s', own', own', m') && ChainLoses(s, own, m, s', own', m', GoneAfterDelete(s, leaf, pos, path))
  {
    hide Inv, Walk, Relinked, ChainLoses, TryMerge, MergedTable, Gone, DeleteLeaf;
    var pos := Below(s.pages[leaf].entries, key);
    DeletedReady(s, own, m, path, key, leaf, pos);
    var s1, s', own' := DeleteLeaf(s, leaf, pos), DeleteEntry(s, leaf, pos, path),
      TableAfterDelete(s, own, leaf, pos, path);
    var gone, m' := GoneAfterDelete(s, leaf, pos, path), m - {key};
    if |s.pages[leaf].entries| - 1 < LEAF_MERGE_THRESHOLD {
      TryMergeOk(s1, own, m', path, key, leaf);
      RelinkedAfter(s, s1, own, s', own', leaf, pos, gone);
    }
    RelinkedChain(s, own, m, s', own', m', gone);
  }

  /** The entry is gone, and nothing else about the tree or the way down has changed. */
  lemma DeletedReady<V>(s: Store<V>, own: Table, m: map<int, V>, path: seq<PageId>, key: int, leaf: PageId, pos: nat)
    requires Inv(s, own, own, m) && Descent(s, own, path, key, leaf) && pos < |s.pages[leaf].entries|
    requires s.pages[leaf].entries[pos].key == key
    ensures var s1 := DeleteLeaf(s, leaf, pos);
      Inv(s1, own, own, m - {key}) && Descent(s1, own, path, key, leaf) && Relinked(s, own, s1, own, 0) && 0 !in own
  {
    DeleteLeafOk(s, own, m, leaf, pos);
    DescentKept(s, own, path, key, leaf, pos);
  }

  lemma RelinkedAfter<V>(s: Store<V>, s1: Store<V>, own: Table, s': Store<V>, own': Table, leaf: PageId, pos: nat,
                         gone: PageId)
    requires leaf in s.pages && s.pages[leaf].Leaf? && pos < |s.pages[leaf].entries| && s1 == DeleteLeaf(s, leaf, pos)
    requires Relinked(s1, own, s', own', gone)
    ensures Relinked(s, own, s', own', gone)
  {
    assert LeafAt(s.pages, own, gone) <==> LeafAt(s1.pages, own, gone);
  }

  // ---------------------------------------------------------------- the outcome in numbers

  /** The entries of a leaf once slot `pos` of `leaf` is gone. */
  function Left<V>(s: Store<V>, leaf: PageId, pos: nat, q: PageId): seq<Entry<V>>
    requires q in s.pages && s.pages[q].Leaf? && (q == leaf ==> pos < |s.pages[q].entries|)
  {
    if q == leaf then RemoveAt(s.pages[q].entries, pos) else s.pages[q].entries
  }

  /** The leaf right of separator `j` has moved into the one left of it: entries, links and separator. Every other
      page is as it was, and a root that had no other separator has handed over to the joined leaf. */
  ghost predicate Joined<V>(s: Store<V>, s': Store<V>, leaf: PageId, pos: nat, parent: PageId, j: nat) {
    && parent in s.pages && s.pages[parent].Inner? && j < |s.pages[parent].seps|
    && var p, survivor, removed := s.pages[parent], Child(s.pages[parent], j), Child(s.pages[parent], j + 1);
      && survivor in s.pages && removed in s.pages && s.pages[survivor].Leaf? && s.pages[removed].Leaf?
      && survivor != removed && (leaf == survivor || leaf == removed) && pos < |s.pages[leaf].entries|
      && var next := s.pages[removed].next;
        && survivor in s'.pages && parent in s'.pages
        && s'.pages[survivor] ==
             Leaf(Left(s, leaf, pos, survivor) + Left(s, leaf, pos, removed), next, s.pages[survivor].prev)
        && s'.pages[parent] == p.(seps := RemoveAt(p.seps, j))
        && (next != 0 ==>
             next in s.pages && s.pages[next].Leaf? && next in s'.pages &&
               s'.pages[next] == s.pages[next].(prev := survivor))
        && s'.pages.Keys == s.pages.Keys && s'.nextId == s.nextId
        && (forall q :: q in s.pages && q !in {survivor, removed, parent, next} ==>
             q in s'.pages && s'.pages[q] == s.pages[q])
        && s'.root == if parent == s.root && |p.seps| == 1 then survivor else s.root
  }

  /** What a delete leaves behind. The leaf is joined with a sibling exactly if it keeps fewer than half of what
      fits, its parent has another child, and the two fit in one page: with the right sibling if it is the leftmost
      child, else with the left one. Otherwise the entry goes and nothing else changes. */
  ghost predicate Outcome<V>(s: Store<V>, s': Store<V>, path: seq<PageId>, key: int, leaf: PageId, pos: nat,
                             gone: PageId)
    requires AllInner(s.pages, path) && leaf in s.pages && s.pages[leaf].Leaf? && pos < |s.pages[leaf].entries|
  {
    var entries := s.pages[leaf].entries;
    var alone := gone == 0 && s' == s.(pages := s.pages[leaf := s.pages[leaf].(entries := RemoveAt(entries, pos))]);
    if path == [] || s.pages[path[|path| - 1]].seps == [] then alone
    else
      var parent := path[|path| - 1];
      var p := s.pages[parent];
      var at := Upto(p.seps, key);
      var j := if at == 0 then 0 else at - 1;
      var survivor, removed := Child(p, j), Child(p, j + 1);
      && leaf == Child(p, at)
      && survivor in s.pages && removed in s.pages && s.pages[survivor].Leaf? && s.pages[removed].Leaf?
      && if |entries| - 1 < LEAF_MAX / 2 &&
            |s.pages[survivor].entries| + |s.pages[removed].entries| - 1 <= LEAF_MAX
         then gone == removed && Joined(s, s', leaf, pos, parent, j) else alone
  }

  lemma DeleteOutcome<V>(s: Store<V>, own: Table, m: map<int, V>, path: seq<PageId>, key: int, leaf: PageId)
    requires Inv(s, own, own, m) && Descent(s, own, path, key, leaf) && Found(s.pages[leaf].entries, key)
    ensures var pos := Below(s.pages[leaf].entries, key);
      Outcome(s, DeleteEntry(s, leaf, pos, path), path, key, leaf, pos, GoneAfterDelete(s, leaf, pos, path))
  {
    hide Inv, Joined, FuseAt, Walk, Below, Relinked;
    var pos := Below(s.pages[leaf].entries, key);
    var s1, s' := DeleteLeaf(s, leaf, pos), DeleteEntry(s, leaf, pos, path);
    DeletedReady(s, own, m, path, key, leaf, pos);
    FusionIff(s1, own, m - {key}, path, key, leaf);
    if path != [] {
      LastOnWalk(s, own, path, key, leaf);
      var j := FusionAt(s1, leaf, path);
      if j.Some? && |s.pages[leaf].entries| - 1 < LEAF_MERGE_THRESHOLD {
        JoinedBy(s, own, m, leaf, pos, key, path[|path| - 1], j.value);
      }
    }
  }

  lemma LastOnWalk<V>(s: Store<V>, own: Table, path: seq<PageId>, key: int, leaf: PageId)
    requires Walk(s, own, path, key, leaf) && path != [] && LeafAt(s.pages, own, leaf)
    ensures var parent := path[|path| - 1];
      parent in own && parent in s.pages && s.pages[parent].Inner? && parent != leaf
  {
    assert WalkStep(s, own, path, key, leaf, |path| - 1);
  }

  lemma FuseShape<V>(s: Store<V>, parent: PageId, j: nat)
    requires CanMerge(s.pages, parent, j) && Child(s.pages[parent], j) != parent && s.pages[parent].Inner?
    requires s.pages[Child(s.pages[parent], j + 1)].next != parent
    ensures var p := s.pages[parent];
      FuseAt(s, parent, j) ==
        MergeLeaves(s, parent, j).(root := if parent == s.root && |p.seps| == 1 then Child(p, j) else s.root)
  {
  }

  lemma JoinedBy<V>(s: Store<V>, own: Table, m: map<int, V>, leaf: PageId, pos: nat, key: int, parent: PageId, j: nat)
    requires LeafAt(s.pages, own, leaf) && pos < |s.pages[leaf].entries|
    requires parent in own && parent in s.pages && parent != leaf
    requires Inv(DeleteLeaf(s, leaf, pos), own, own, m - {key}) && CanMerge(DeleteLeaf(s, leaf, pos).pages, parent, j)
    requires Child(s.pages[parent], j) == leaf || Child(s.pages[parent], j + 1) == leaf
    ensures Joined(s, FuseAt(DeleteLeaf(s, leaf, pos), parent, j), leaf, pos, parent, j)
  {
    hide FuseAt, Inv;
    var s1 := DeleteLeaf(s, leaf, pos);
    MergeNeighbours(s1, own, m - {key}, parent, j);
    FuseShape(s1, parent, j);
    LinksOf(s1, own, m - {key}, Child(s.pages[parent], j + 1));
  }

  lemma LinksOf<V>(s: Store<V>, own: Table, m: map<int, V>, q: PageId)
    requires Inv(s, own, own, m) && q in own
    ensures LinksOk(s.pages, own, q)
  {
  }

  // ---------------------------------------------------------------- latches

  /** The pages a merge attempt write-latches before it looks at sizes: the parent and, if it names a pair, both of
      them. */
  function MergeLatches<V>(s: Store<V>, leaf: PageId, path: seq<PageId>): seq<PageId>
    requires AllInner(s.pages, path)
  {
    if path == [] then []
    else
      var parent := path[|path| - 1];
      var j := MergeCandidate(s.pages[parent], leaf);
      if j.Some? && j.value < |s.pages[parent].seps|
      then [parent, Child(s.pages[parent], j.value), Child(s.pages[parent], j.value + 1)] else [parent]
  }

  /** The pages a delete latches while it still holds the leaf's own latch. */
  function LatchesUnderLeaf<V>(s: Store<V>, leaf: PageId, pos: nat, path: seq<PageId>): seq<PageId>
    requires leaf in s.pages && s.pages[leaf].Leaf? && pos < |s.pages[leaf].entries| && AllInner(s.pages, path)
  {
    if |s.pages[leaf].entries| - 1 < LEAF_MERGE_THRESHOLD then MergeLatches(DeleteLeaf(s, leaf, pos), leaf, path)
      else []
  }

  /** A delete waits for the latch it holds itself if and only if it leaves few entries in a leaf whose parent has
      another child, whether or not the two would fit in one page. */
  lemma SelfWaitIff<V>(s: Store<V>, own: Table, m: map<int, V>, path: seq<PageId>, key: int, leaf: PageId, pos: nat)
    requires Inv(s, own, own, m) && Descent(s, own, path, key, leaf) && pos < |s.pages[leaf].entries|
    ensures leaf in LatchesUnderLeaf(s, leaf, pos, path) <==>
      |s.pages[leaf].entries| - 1 < LEAF_MAX / 2 && path != [] && s.pages[path[|path| - 1]].seps != []
  {
    if path != [] {
      var s', parent := DeleteLeaf(s, leaf, pos), path[|path| - 1];
      var p := s.pages[parent];
      FusionIff(s, own, m, path, key, leaf);
      assert WalkStep(s, own, path, key, leaf, |path| - 1);
      assert parent != leaf && s'.pages[parent] == p;
      CandidateBorders(p, leaf);
      var j := MergeCandidate(p, leaf);
      if j.Some? { assert leaf == Child(p, j.value) || leaf == Child(p, j.value + 1); }
    }
  }
}
