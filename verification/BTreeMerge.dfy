/** Merging an underfull leaf into a sibling, and shrinking a root left with one child. */
module BTreeMerge {
  import opened SortedEntries
  import opened BTreeTheory
  import opened BTreeSteps

  /** Move the leaf right of separator `j` into the one left of it and drop the separator. */
  function MergeLeaves<V>(s: Store<V>, parent: PageId, j: nat): Store<V>
    requires CanMerge(s.pages, parent, j)
  {
    var p := s.pages[parent];
    var survivor, removed := Child(p, j), Child(p, j + 1);
    var l, r := s.pages[survivor], s.pages[removed];
    var pages := SetPrev(s.pages[survivor := Leaf(l.entries + r.entries, r.next, l.prev)], r.next, survivor);
    s.(pages := pages[parent := p.(seps := RemoveAt(p.seps, j))])
  }

  predicate CanMerge<V>(pages: map<PageId, Page<V>>, parent: PageId, j: nat) {
    && parent in pages && pages[parent].Inner? && j < |pages[parent].seps|
    && var survivor, removed := Child(pages[parent], j), Child(pages[parent], j + 1);
      && survivor in pages && pages[survivor].Leaf? && removed in pages && pages[removed].Leaf?
      && |pages[survivor].entries| + |pages[removed].entries| <= LEAF_MAX
  }

  /** A root page without separators hands the root over to its only child. */
  function Shrink<V>(s: Store<V>): Store<V> {
    if s.root in s.pages && s.pages[s.root].Inner? && |s.pages[s.root].seps| == 0
    then s.(root := s.pages[s.root].leftmost) else s
  }

  /** Two adjacent runs joined hold the map over both ranges. */
  lemma JoinedLeafOk<V>(l: Page<V>, r: Page<V>, a: Node, b: Node, m: map<int, V>, next: PageId, prev: PageId)
    requires LeafOk(l, a, m) && LeafOk(r, b, m) && a.hi == b.lo && a.lo < a.hi && b.lo < b.hi
    requires |l.entries| + |r.entries| <= LEAF_MAX
    ensures LeafOk(Leaf(l.entries + r.entries, next, prev), a.(hi := b.hi), m)
  {
    var es := l.entries + r.entries;
    forall k | k in m && a.lo <= k < b.hi
      ensures HasKey(es, k)
    {
      if k < a.hi {
        var i :| 0 <= i < |l.entries| && l.entries[i].key == k;
        assert es[i].key == k;
      } else {
        var i :| 0 <= i < |r.entries| && r.entries[i].key == k;
        assert es[|l.entries| + i].key == k;
      }
    }
  }

  /** A child slot of the parent once separator `j` is gone. */
  lemma DroppedChild<V>(p: Page<V>, n: Node, own: Table, j: nat, i: nat)
    requires p.Inner? && n.height > 0 && j < |p.seps| && i < |p.seps|
    requires ChildOk(p, n, own, j) && ChildOk(p, n, own, j + 1)
    requires i != j ==> var k := if i < j then i else i + 1;
      ChildOk(p, n, own, k) && Child(p, k) != Child(p, j) && Child(p, k) != Child(p, j + 1)
    ensures ChildOk(p.(seps := RemoveAt(p.seps, j)), n, Fuse(own, Child(p, j), Child(p, j + 1)), i)
  {
  }

  /** The parent without separator `j` describes the joined leaf as one child. */
  lemma DroppedSepFits<V>(s: Store<V>, own: Table, m: map<int, V>, parent: PageId, j: nat)
    requires Inv(s, own, own, m) && parent in own && s.pages[parent].Inner? && j < |s.pages[parent].seps|
    requires Child(s.pages[parent], j) in own && Child(s.pages[parent], j + 1) in own
    ensures var p := s.pages[parent];
      InnerOk(p.(seps := RemoveAt(p.seps, j)), own[parent], Fuse(own, Child(p, j), Child(p, j + 1)))
  {
    var p, n := s.pages[parent], own[parent];
    var view := Fuse(own, Child(p, j), Child(p, j + 1));
    var p' := p.(seps := RemoveAt(p.seps, j));
    assert PageOk(s.pages, own, own, m, parent);
    assert ChildOk(p, n, own, j) && ChildOk(p, n, own, j + 1);
    forall i | 0 <= i <= |p'.seps|
      ensures ChildOk(p', n, view, i)
    {
      if i != j {
        var k := if i < j then i else i + 1;
        assert ChildOk(p, n, own, k);
        SlotsDiffer(s, own, own, m, parent, k, j);
        SlotsDiffer(s, own, own, m, parent, k, j + 1);
      }
      DroppedChild(p, n, own, j, i);
    }
  }

  lemma MergeNeighbours<V>(s: Store<V>, own: Table, m: map<int, V>, parent: PageId, j: nat)
    requires Inv(s, own, own, m) && parent in own && CanMerge(s.pages, parent, j)
    ensures var p := s.pages[parent];
      var survivor, removed := Child(p, j), Child(p, j + 1);
      && survivor in own && removed in own && survivor != removed && survivor != s.root && removed != s.root
      && own[survivor].hi == own[removed].lo && own[survivor].height == own[removed].height == 0
      && s.pages[survivor].next == removed && s.pages[removed].prev == survivor
      && s.pages[removed].next != survivor && s.pages[removed].next != removed && s.pages[removed].next != parent
  {
    var p := s.pages[parent];
    var survivor, removed := Child(p, j), Child(p, j + 1);
    assert PageOk(s.pages, own, own, m, parent);
    assert ChildOk(p, own[parent], own, j) && ChildOk(p, own[parent], own, j + 1);
    assert PageOk(s.pages, own, own, m, survivor) && PageOk(s.pages, own, own, m, removed);
    assert LinksOk(s.pages, own, survivor) && LinksOk(s.pages, own, removed);
    var next := s.pages[survivor].next;
    assert PageOk(s.pages, own, own, m, next);
    assert Separate(own, next, removed);
    if s.pages[removed].next != 0 { assert PageOk(s.pages, own, own, m, s.pages[removed].next); }
  }

  /** Merging keeps the map and the tree; exactly the removed leaf leaves it. */
  lemma MergeLeavesOk<V>(s: Store<V>, own: Table, m: map<int, V>, parent: PageId, j: nat)
    requires Inv(s, own, own, m) && parent in own && CanMerge(s.pages, parent, j)
    ensures var p := s.pages[parent];
      var survivor, removed := Child(p, j), Child(p, j + 1);
      && survivor in own && removed in own && own[survivor].hi == own[removed].lo
      && Inv(MergeLeaves(s, parent, j), Fuse(own, survivor, removed), Fuse(own, survivor, removed), m)
  {
    MergeNeighbours(s, own, m, parent, j);
    var p := s.pages[parent];
    var survivor, removed := Child(p, j), Child(p, j + 1);
    var l, r := s.pages[survivor], s.pages[removed];
    assert PageOk(s.pages, own, own, m, survivor) && PageOk(s.pages, own, own, m, removed);
    JoinedLeafOk(l, r, own[survivor], own[removed], m, r.next, l.prev);
    DroppedSepFits(s, own, m, parent, j);
    MergedInv(s, MergeLeaves(s, parent, j), own, m, parent, survivor, removed);
  }

  lemma MergedInv<V>(s: Store<V>, s': Store<V>, own: Table, m: map<int, V>, parent: PageId, survivor: PageId,
                     removed: PageId)
    requires Inv(s, own, own, m) && parent in own && LeafAt(s.pages, own, survivor) && LeafAt(s.pages, own, removed)
    requires s.pages[parent].Inner? && survivor != removed && survivor != s.root && removed != s.root
    requires own[survivor].hi == own[removed].lo && own[survivor].height == own[removed].height
    requires s.pages[survivor].next == removed && s.pages[removed].next != survivor && s.pages[removed].next != removed
    requires exists j ::
      0 <= j < |s.pages[parent].seps| && Child(s.pages[parent], j) == survivor &&
        Child(s.pages[parent], j + 1) == removed
    requires s' == s.(pages := s'.pages) && Numbered(s')
    requires parent in s'.pages && InnerOk(s'.pages[parent], own[parent], Fuse(own, survivor, removed))
    requires survivor in s'.pages && LeafOk(s'.pages[survivor], own[survivor].(hi := own[removed].hi), m)
    requires s'.pages[survivor].next == s.pages[removed].next && s'.pages[survivor].prev == s.pages[survivor].prev
    requires forall q :: q in own && q != parent && q != survivor && q != removed ==>
      (q in s'.pages && s'.pages[q] == if q == s.pages[removed].next then SetPrev(s.pages, q, survivor)[q]
        else s.pages[q])
    ensures Inv(s', Fuse(own, survivor, removed), Fuse(own, survivor, removed), m)
  {
    hide LeafOk, InnerOk, Disjoint;
    var own' := Fuse(own, survivor, removed);
    IsLeaf(s'.pages[survivor], own[survivor].(hi := own[removed].hi), m);
    IsInner(s'.pages[parent], own[parent], own');
    forall q | q in own'
      ensures PageOk(s'.pages, own', own', m, q)
    {
      MergedPage(s, s', own, m, parent, survivor, removed, q);
    }
    forall q | q in own
      ensures own[q].lo < own[q].hi
    {
      assert PageOk(s.pages, own, own, m, q);
    }
    FuseDisjoint(own, survivor, removed);
    MergedLinks(s.pages, s'.pages, own, survivor, removed, parent);
  }

  lemma MergedPage<V>(s: Store<V>, s': Store<V>, own: Table, m: map<int, V>, parent: PageId, survivor: PageId,
                      removed: PageId, q: PageId)
    requires Inv(s, own, own, m) && parent in own && LeafAt(s.pages, own, survivor) && LeafAt(s.pages, own, removed)
    requires s.pages[parent].Inner? && survivor != removed && survivor != s.root && removed != s.root
    requires own[survivor].hi == own[removed].lo && own[survivor].height == own[removed].height
    requires s.pages[survivor].next == removed && s.pages[removed].next != survivor && s.pages[removed].next != removed
    requires exists j ::
      0 <= j < |s.pages[parent].seps| && Child(s.pages[parent], j) == survivor &&
        Child(s.pages[parent], j + 1) == removed
    requires s' == s.(pages := s'.pages) && Numbered(s')
    requires parent in s'.pages && InnerOk(s'.pages[parent], own[parent], Fuse(own, survivor, removed))
    requires survivor in s'.pages && LeafOk(s'.pages[survivor], own[survivor].(hi := own[removed].hi), m)
    requires s'.pages[survivor].next == s.pages[removed].next && s'.pages[survivor].prev == s.pages[survivor].prev
    requires forall q :: q in own && q != parent && q != survivor && q != removed ==>
      (q in s'.pages && s'.pages[q] == if q == s.pages[removed].next then SetPrev(s.pages, q, survivor)[q]
        else s.pages[q])
    requires q in Fuse(own, survivor, removed)
    ensures PageOk(s'.pages, Fuse(own, survivor, removed), Fuse(own, survivor, removed), m, q)
  {
    var own' := Fuse(own, survivor, removed);
    var j :| 0 <= j < |s.pages[parent].seps| && Child(s.pages[parent], j) == survivor &&
      Child(s.pages[parent], j + 1) == removed;
    assert PageOk(s.pages, own, own, m, survivor) && PageOk(s.pages, own, own, m, removed);
    assert PageOk(s.pages, own, own, m, q);
    if q != parent && s.pages[q].Inner? {
      OnlyParent(s, own, own, m, parent, j, survivor, q);
      OnlyParent(s, own, own, m, parent, j + 1, removed, q);
      forall i | 0 <= i <= |s.pages[q].seps|
        ensures ChildOk(s.pages[q], own[q], own', i)
      {
        assert ChildOk(s.pages[q], own[q], own, i);
      }
    }
  }

  lemma FuseDisjoint(own: Table, left: PageId, right: PageId)
    requires Disjoint(own) && left in own && right in own && left != right
    requires own[left].hi == own[right].lo && own[left].height == own[right].height
    requires forall q :: q in own ==> own[q].lo < own[q].hi
    ensures Disjoint(Fuse(own, left, right))
  {
    var own' := Fuse(own, left, right);
    forall p, q | p in own' && q in own'
      ensures Separate(own', p, q)
    {
      assert Separate(own, p, q) && Separate(own, p, right) && Separate(own, right, q);
    }
  }

  /** Cutting the removed leaf out keeps the sibling chain. */
  lemma MergedLinks<V>(pages: map<PageId, Page<V>>, pages': map<PageId, Page<V>>, own: Table, survivor: PageId,
                       removed: PageId, parent: PageId)
    requires LeafAt(pages, own, survivor) && LeafAt(pages, own, removed) && survivor != removed
    requires own[survivor].hi == own[removed].lo && pages[survivor].next == removed
    requires parent in own && parent in pages && pages[parent].Inner? && parent in pages' && pages'[parent].Inner?
    requires forall q {:trigger LinksOk(pages, own, q)} :: q in own ==> LinksOk(pages, own, q)
    requires forall q :: q in own ==> q in pages && q != 0
    requires survivor in pages' && pages'[survivor].Leaf? && pages[removed].next != survivor &&
      pages[removed].next != removed
    requires pages'[survivor].next == pages[removed].next && pages'[survivor].prev == pages[survivor].prev
    requires forall q :: q in own && q != parent && q != survivor && q != removed ==>
      (q in pages' && pages'[q] == if q == pages[removed].next then SetPrev(pages, q, survivor)[q] else pages[q])
    ensures forall q {:trigger LinksOk(pages', Fuse(own, survivor, removed), q)} ::
      q in Fuse(own, survivor, removed) ==> LinksOk(pages', Fuse(own, survivor, removed), q)
  {
    var own' := Fuse(own, survivor, removed);
    assert LinksOk(pages, own, survivor) && LinksOk(pages, own, removed);
    forall q | q in own'
      ensures LinksOk(pages', own', q)
    {
      if q != parent && pages[q].Leaf? {
        assert LinksOk(pages, own, q);
      }
    }
  }

  /** The only child takes over as root; every leaf keeps its depth below it. */
  lemma ShrinkOk<V>(s: Store<V>, own: Table, m: map<int, V>)
    requires Inv(s, own, own, m) && s.pages[s.root].Inner? && |s.pages[s.root].seps| == 0
    ensures Inv(Shrink(s), own - {s.root}, own - {s.root}, m)
  {
    var s', own', root := Shrink(s), own - {s.root}, s.root;
    assert PageOk(s.pages, own, own, m, root) && ChildOk(s.pages[root], own[root], own, 0);
    forall q | q in own'
      ensures PageOk(s'.pages, own', own', m, q) && own'[q].height <= own'[s'.root].height
    {
      assert PageOk(s.pages, own, own, m, q) && Separate(own, q, root);
      if s.pages[q].Inner? {
        forall i | 0 <= i <= |s.pages[q].seps|
          ensures ChildOk(s.pages[q], own[q], own', i)
        {
          assert ChildOk(s.pages[q], own[q], own, i);
        }
      }
    }
    forall p, q | p in own' && q in own'
      ensures Separate(own', p, q)
    {
      assert Separate(own, p, q);
    }
    forall q | q in own'
      ensures LinksOk(s'.pages, own', q)
    {
      assert LinksOk(s.pages, own, q);
    }
  }
}
