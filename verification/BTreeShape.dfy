/** The live pages of a B+tree form a tree. */
module BTreeShape {
  import opened SortedEntries
  import opened BTreeTheory

  /** `q` hangs below live page `p` in slot `i`. */
  ghost predicate HangsBelow<V>(s: Store<V>, own: Table, q: PageId, p: PageId, i: nat) {
    p in own && p in s.pages && s.pages[p].Inner? && i <= |s.pages[p].seps| && Child(s.pages[p], i) == q
  }

  /** The live pages form a tree: each but the root hangs below one live page, in one slot. */
  lemma {:induction false} OneTree<V>(s: Store<V>, own: Table, m: map<int, V>, q: PageId)
    requires Inv(s, own, own, m) && q in own
    ensures (exists p, i :: HangsBelow(s, own, q, p, i)) <==> q != s.root
    ensures forall p, i, p', i' :: HangsBelow(s, own, q, p, i) && HangsBelow(s, own, q, p', i') ==> p == p' && i == i'
  {
    assert PageOk(s.pages, own, own, m, q) && PageOk(s.pages, own, own, m, s.root);
    if q != s.root {
      assert Separate(own, s.root, q);
      var p, i := ParentBelow(s, own, m, q, s.root);
    }
    forall p, i | HangsBelow(s, own, q, p, i)
      ensures q != s.root
    {
      assert PageOk(s.pages, own, own, m, p) && ChildOk(s.pages[p], own[p], own, i);
    }
    forall p, i, p', i' | HangsBelow(s, own, q, p, i) && HangsBelow(s, own, q, p', i')
      ensures p == p' && i == i'
    {
      OneParent(s, own, own, m, p, i, p', i');
    }
  }

  /** Following the lowest key of `q` down from a higher page comes past its parent. */
  lemma {:induction false} ParentBelow<V>(s: Store<V>, own: Table, m: map<int, V>, q: PageId, c: PageId)
    returns (p: PageId, i: nat)
    requires Inv(s, own, own, m) && q in own && c in own
    requires own[c].lo <= own[q].lo < own[c].hi && own[q].height < own[c].height
    ensures HangsBelow(s, own, q, p, i)
    decreases own[c].height
  {
    assert PageOk(s.pages, own, own, m, q) && PageOk(s.pages, own, own, m, c);
    RouteOk(s, own, own, m, c, own[q].lo);
    p, i := c, Upto(s.pages[c].seps, own[q].lo);
    var child := Child(s.pages[c], i);
    if child != q {
      assert Separate(own, child, q);
      p, i := ParentBelow(s, own, m, q, child);
    }
  }
}
