/** Propagating a leaf split to the ancestors, and the claim behind latch crabbing:
    releasing the ancestors above a safe page changes nothing. */
module BTreeInsert {
  import opened SortedEntries
  import opened BTreeTheory
  import opened BTreeSteps

  predicate AllInner<V>(pages: map<PageId, Page<V>>, path: seq<PageId>) {
    forall i :: 0 <= i < |path| ==> path[i] in pages && pages[path[i]].Inner?
  }

  predicate Full<V>(pages: map<PageId, Page<V>>, id: PageId) {
    id in pages && pages[id].Inner? && |pages[id].seps| >= INNER_MAX
  }

  /** Hand a separator to the last page of `path`; while that page is full, split it and go one up. */
  function Cascade<V>(s: Store<V>, path: seq<PageId>, sep: U64, child: PageId): Store<V>
    requires AllInner(s.pages, path)
    decreases |path|
  {
    if path == [] then NewRoot(s, sep, child)
    else
      var parent := path[|path| - 1];
      if !Full(s.pages, parent) then AddSep(s, parent, sep, child)
      else
        var split := SplitInner(s, parent, sep, child);
        Cascade(split.store, path[..|path| - 1], split.sep, split.right)
  }

  predicate SafeInner<V>(p: Page<V>) {
    p.Inner? && |p.seps| < INNER_MAX - 1
  }

  /** Where crabbing's hold on `path` begins: a safe page lets go of everything above it. */
  function HeldFrom<V>(pages: map<PageId, Page<V>>, path: seq<PageId>): (r: nat)
    requires AllInner(pages, path)
    ensures r <= |path|
    ensures r == 0 || (r < |path| && SafeInner(pages[path[r]]))
    ensures forall i :: r < i < |path| ==> !SafeInner(pages[path[i]])
  {
    if path == [] then 0
    else
      var last := |path| - 1;
      if SafeInner(pages[path[last]]) then last else HeldFrom(pages, path[..last])
  }

  function Held<V>(pages: map<PageId, Page<V>>, path: seq<PageId>): seq<PageId>
    requires AllInner(pages, path)
  {
    path[HeldFrom(pages, path)..]
  }

  /** The held pages are the path from its last page of fewer than `bound` separators on, or all of it. */
  ghost predicate HeldFromLastBelow<V>(pages: map<PageId, Page<V>>, path: seq<PageId>, held: seq<PageId>, bound: nat) {
    AllInner(pages, path) && exists i ::
      && 0 <= i <= |path| && held == path[i..]
      && (i == 0 || (i < |path| && |pages[path[i]].seps| < bound))
      && forall k :: i < k < |path| ==> |pages[path[k]].seps| >= bound
  }

  lemma HeldInNumbers<V>(pages: map<PageId, Page<V>>, path: seq<PageId>)
    requires AllInner(pages, path)
    ensures HeldFromLastBelow(pages, path, Held(pages, path), 253)
  {
    var i := HeldFrom(pages, path);
    assert Held(pages, path) == path[i..];
    forall k | i < k < |path|
      ensures |pages[path[k]].seps| >= 253
    {
      assert !SafeInner(pages[path[k]]);
    }
  }

  ghost predicate Known<V>(s: Store<V>, path: seq<PageId>) {
    && (forall j, k :: 0 <= j < k < |path| ==> path[j] != path[k])
    && (forall j :: 0 <= j < |path| ==> path[j] < s.nextId)
  }

  /** Splitting the last page of a path touches none of the pages above it. */
  lemma SplitKeepsAbove<V>(s: Store<V>, path: seq<PageId>, sep: U64, child: PageId)
    requires AllInner(s.pages, path) && Known(s, path) && path != []
    ensures var upper, s' := path[..|path| - 1], SplitInner(s, path[|path| - 1], sep, child).store;
      && s'.root == s.root && s'.nextId == s.nextId + 1 && Known(s', upper) && AllInner(s'.pages, upper)
      && (forall i :: 0 <= i < |upper| ==> Full(s'.pages, upper[i]) == Full(s.pages, path[i]))
  {
  }

  /** One level of the cascade. */
  lemma CascadeUp<V>(s: Store<V>, path: seq<PageId>, sep: U64, child: PageId)
    requires AllInner(s.pages, path) && path != []
    ensures var last := |path| - 1;
      var split := SplitInner(s, path[last], sep, child);
      Cascade(s, path, sep, child) ==
        if Full(s.pages, path[last]) then Cascade(split.store, path[..last], split.sep, split.right)
          else AddSep(s, path[last], sep, child)
  {
  }

  /** The cascade never looks above a page that is not full. */
  lemma {:induction false} CascadeStops<V>(s: Store<V>, above: seq<PageId>, held: seq<PageId>, sep: U64, child: PageId)
    requires held != [] && AllInner(s.pages, above + held) && AllInner(s.pages, held) && Known(s, above + held)
    requires !Full(s.pages, held[0])
    ensures Cascade(s, above + held, sep, child) == Cascade(s, held, sep, child)
    decreases |held|
  {
    var path, last := above + held, held[|held| - 1];
    assert path[|path| - 1] == last;
    CascadeUp(s, path, sep, child);
    CascadeUp(s, held, sep, child);
    if Full(s.pages, last) {
      var split, rest := SplitInner(s, last, sep, child), held[..|held| - 1];
      assert path[..|path| - 1] == above + rest;
      SplitKeepsAbove(s, path, sep, child);
      assert (above + rest)[|above|] == held[0] == path[|above|];
      CascadeStops(split.store, above, rest, split.sep, split.right);
    }
  }

  /** Early release is harmless: the held suffix gives the very tree the whole path would. */
  lemma EarlyReleaseHarmless<V>(s: Store<V>, path: seq<PageId>, sep: U64, child: PageId)
    requires AllInner(s.pages, path) && Known(s, path)
    ensures Cascade(s, Held(s.pages, path), sep, child) == Cascade(s, path, sep, child)
  {
    var i := HeldFrom(s.pages, path);
    if i > 0 {
      assert path == path[..i] + path[i..];
      CascadeStops(s, path[..i], path[i..], sep, child);
    } else {
      assert path[0..] == path;
    }
  }

  ghost predicate AllFull<V>(pages: map<PageId, Page<V>>, path: seq<PageId>) {
    forall i :: 0 <= i < |path| ==> Full(pages, path[i])
  }

  lemma AllFullAbove<V>(pages: map<PageId, Page<V>>, pages': map<PageId, Page<V>>, path: seq<PageId>)
    requires path != [] && Full(pages, path[|path| - 1])
    requires var upper := path[..|path| - 1]; forall i :: 0 <= i < |upper| ==>
      Full(pages', upper[i]) == Full(pages, path[i])
    ensures AllFull(pages', path[..|path| - 1]) <==> AllFull(pages, path)
  {
    var upper := path[..|path| - 1];
    if AllFull(pages', upper) {
      forall i | 0 <= i < |path|
        ensures Full(pages, path[i])
      {
        if i < |upper| { assert Full(pages', upper[i]); }
      }
    }
  }

  /** The tree grows a new root exactly when every page on the path is full. */
  lemma {:induction false} GrowsIffAllFull<V>(s: Store<V>, path: seq<PageId>, sep: U64, child: PageId)
    requires AllInner(s.pages, path) && Known(s, path) && s.root < s.nextId
    ensures Cascade(s, path, sep, child).root != s.root <==> AllFull(s.pages, path)
    decreases |path|
  {
    if path != [] {
      var last := |path| - 1;
      if Full(s.pages, path[last]) {
        var split := SplitInner(s, path[last], sep, child);
        SplitKeepsAbove(s, path, sep, child);
        GrowsIffAllFull(split.store, path[..last], split.sep, split.right);
        AllFullAbove(s.pages, split.store.pages, path);
      } else {
        assert Cascade(s, path, sep, child) == AddSep(s, path[last], sep, child);
      }
    }
  }

  /** `path` is a downward walk along the route of `key` that ends just above `c`. */
  ghost predicate Walk<V>(s: Store<V>, own: Table, path: seq<PageId>, key: int, c: PageId) {
    c in own && forall i {:trigger WalkStep(s, own, path, key, c, i)} :: 0 <= i < |path| ==>
      WalkStep(s, own, path, key, c, i)
  }

  ghost predicate WalkStep<V>(s: Store<V>, own: Table, path: seq<PageId>, key: int, c: PageId, i: nat)
    requires i < |path| && c in own
  {
    && path[i] in own && path[i] in s.pages && s.pages[path[i]].Inner?
    && FindChild(s.pages[path[i]], key) == (if i + 1 < |path| then path[i + 1] else c)
    && own[path[i]].height == own[c].height + |path| - i
  }

  lemma WalkDown<V>(s: Store<V>, own: Table, view: Table, m: map<int, V>, path: seq<PageId>, key: int, c: PageId)
    requires Inv(s, own, view, m) && own == view && Walk(s, own, path, key, c) && s.pages[c].Inner? &&
      own[c].lo <= key < own[c].hi
    ensures FindChild(s.pages[c], key) in own && Walk(s, own, path + [c], key, FindChild(s.pages[c], key))
  {
    RouteOk(s, own, view, m, c, key);
    var next := FindChild(s.pages[c], key);
    forall i | 0 <= i < |path| + 1
      ensures WalkStep(s, own, path + [c], key, next, i)
    {
      if i < |path| { assert WalkStep(s, own, path, key, c, i); }
    }
  }

  lemma HeldDown<V>(pages: map<PageId, Page<V>>, path: seq<PageId>, c: PageId)
    requires AllInner(pages, path) && c in pages && pages[c].Inner?
    ensures AllInner(pages, path + [c])
    ensures Held(pages, path + [c]) == if SafeInner(pages[c]) then [c] else Held(pages, path) + [c]
  {
    assert (path + [c])[..|path|] == path;
  }

  lemma WalkIsKnown<V>(s: Store<V>, own: Table, view: Table, m: map<int, V>, path: seq<PageId>, key: int, c: PageId)
    requires Inv(s, own, view, m) && Walk(s, own, path, key, c)
    ensures AllInner(s.pages, path) && Known(s, path)
  {
    forall j, k | 0 <= j < k < |path|
      ensures path[j] != path[k]
    {
      assert WalkStep(s, own, path, key, c, j) && WalkStep(s, own, path, key, c, k);
    }
    forall j | 0 <= j < |path|
      ensures path[j] < s.nextId && path[j] in s.pages && s.pages[path[j]].Inner?
    {
      assert WalkStep(s, own, path, key, c, j);
    }
  }

  /** Where a cascade may start: it will not run past the top of `path` below the root. */
  predicate Anchored<V>(s: Store<V>, path: seq<PageId>, c: PageId) {
    if path == [] then c == s.root else path[0] == s.root || !Full(s.pages, path[0])
  }

  /** However far the splits cascade, the tree ends complete and holds the same map. */
  lemma {:induction false} CascadeOk<V>(s: Store<V>, own: Table, view: Table, m: map<int, V>, path: seq<PageId>,
                                        key: int,
                                        left: PageId, right: PageId, sep: U64) returns (own': Table)
    requires Pending(s, own, view, m, left, right, sep)
    requires Walk(s, own, path, key, left) && AllInner(s.pages, path) && Anchored(s, path, left)
    ensures Inv(Cascade(s, path, sep, right), own', own', m)
    decreases |path|
  {
    if path == [] {
      NewRootOk(s, own, view, m, right, sep);
      return own[s.nextId := Node(0, TOP, own[s.root].height + 1)];
    }
    var last := |path| - 1;
    var parent := path[last];
    assert WalkStep(s, own, path, key, left, last);
    var i := Upto(s.pages[parent].seps, key);
    if !Full(s.pages, parent) {
      AddSepOk(s, own, view, m, left, right, sep, parent, i);
      return own;
    }
    SplitParent(s, own, view, m, path, key, left, right, sep);
    var Split(s', added, up) := SplitInner(s, parent, sep, right);
    own' := CascadeOk(s', SplitTable(own, parent, added, up), own, m, path[..last], key, parent, added, up);
  }

  /** One level of the cascade: the full parent splits, and its own separator is pending on the walk above. */
  lemma SplitParent<V>(s: Store<V>, own: Table, view: Table, m: map<int, V>, path: seq<PageId>, key: int,
                       left: PageId, right: PageId, sep: U64)
    requires Pending(s, own, view, m, left, right, sep) && path != [] && Full(s.pages, path[|path| - 1])
    requires Walk(s, own, path, key, left) && AllInner(s.pages, path) && Anchored(s, path, left)
    ensures var last := |path| - 1;
      var Split(s', added, up) := SplitInner(s, path[last], sep, right);
      && path[last] in own
      && Pending(s', SplitTable(own, path[last], added, up), own, m, path[last], added, up)
      && Walk(s', SplitTable(own, path[last], added, up), path[..last], key, path[last])
      && AllInner(s'.pages, path[..last]) && Anchored(s', path[..last], path[last])
  {
    var last := |path| - 1;
    var parent := path[last];
    assert WalkStep(s, own, path, key, left, last);
    assert PageOk(s.pages, own, view, m, parent);
    SplitInnerOk(s, own, view, m, left, right, sep, parent, Upto(s.pages[parent].seps, key));
    var Split(s', added, up) := SplitInner(s, parent, sep, right);
    WalkAbove(s, s', own, SplitTable(own, parent, added, up), view, m, path, key, left, added);
  }

  /** The last page of the walk is the pending separator's parent: it has a place for it, and if there is room
      the insertion completes the tree. */
  lemma ParentReady<V>(s: Store<V>, own: Table, view: Table, m: map<int, V>, path: seq<PageId>, key: int,
                       left: PageId, right: PageId, sep: U64)
    requires Pending(s, own, view, m, left, right, sep) && path != []
    requires Walk(s, own, path, key, left) && AllInner(s.pages, path)
    ensures var parent := path[|path| - 1];
      && parent in own && !Found(s.pages[parent].seps, sep)
      && Sorted(s.pages[parent].seps) && |s.pages[parent].seps| <= INNER_MAX
      && (|s.pages[parent].seps| < INNER_MAX ==> Inv(AddSep(s, parent, sep, right), own, own, m))
  {
    var parent := path[|path| - 1];
    assert WalkStep(s, own, path, key, left, |path| - 1);
    var i := Upto(s.pages[parent].seps, key);
    PendingSlot(s, own, view, m, left, right, sep, parent, i);
    if |s.pages[parent].seps| < INNER_MAX {
      AddSepOk(s, own, view, m, left, right, sep, parent, i);
    }
  }

  /** Splitting the last page of a walk leaves the walk to it as it was. */
  lemma WalkAbove<V>(s: Store<V>, s': Store<V>, own: Table, own': Table, view: Table, m: map<int, V>, path: seq<PageId>,
                     key: int, c: PageId, added: PageId)
    requires Inv(s, own, view, m) && Walk(s, own, path, key, c) && path != []
    requires added == s.nextId
    requires forall id :: id in s.pages && id != path[|path| - 1] && id != added ==>
      id in s'.pages && s'.pages[id] == s.pages[id]
    requires forall id :: id in own ==> id in own' && own'[id].height == own[id].height
    ensures Walk(s', own', path[..|path| - 1], key, path[|path| - 1])
    ensures forall i :: 0 <= i < |path| - 1 ==>
      path[i] in s.pages && path[i] in s'.pages && s'.pages[path[i]] == s.pages[path[i]]
  {
    var last := |path| - 1;
    assert WalkStep(s, own, path, key, c, last);
    forall i | 0 <= i < last
      ensures WalkStep(s', own', path[..last], key, path[last], i)
      ensures path[i] in s.pages && path[i] in s'.pages && s'.pages[path[i]] == s.pages[path[i]]
    {
      assert WalkStep(s, own, path, key, c, i);
    }
  }

  // ---------------------------------------------------------------- whole insert

  /** Inserting with the whole path held: what the tree would be without early release. */
  function InsertHoldingAll<V>(s: Store<V>, path: seq<PageId>, leaf: PageId, e: Entry<V>): Store<V>
    requires Numbered(s) && AllInner(s.pages, path) && leaf in s.pages && s.pages[leaf].Leaf?
  {
    if |s.pages[leaf].entries| < LEAF_MAX then InsertLeaf(s, leaf, e)
    else
      var split := SplitLeaf(s, leaf, e);
      Cascade(split.store, path, split.sep, split.right)
  }

  /** After a leaf split the held pages are where the walk left them, and the cascade over them is
      the cascade over the whole path. */
  lemma HeldAfterSplit<V>(s: Store<V>, own: Table, m: map<int, V>, path: seq<PageId>, key: int, leaf: PageId,
                          e: Entry<V>)
    requires Inv(s, own, own, m) && LeafAt(s.pages, own, leaf) && Walk(s, own, path, key, leaf) &&
      AllInner(s.pages, path)
    requires if path == [] then leaf == s.root else path[0] == s.root
    ensures var split := SplitLeaf(s, leaf, e);
      var s', own', held := split.store, SplitTable(own, leaf, split.right, split.sep), Held(s.pages, path);
      && AllInner(s'.pages, held) && AllInner(s'.pages, path)
      && Walk(s', own', held, key, leaf) && Anchored(s', held, leaf)
      && Cascade(s', held, split.sep, split.right) == Cascade(s', path, split.sep, split.right)
  {
    var split := SplitLeaf(s, leaf, e);
    var s', own' := split.store, SplitTable(own, leaf, split.right, split.sep);
    WalkIsKnown(s, own, own, m, path, key, leaf);
    LeafSplitKeepsInner(s, path, leaf, e);
    SamePagesSameHold(s.pages, s'.pages, path);
    WalkSuffix(s, s', own, own', path, HeldFrom(s.pages, path), key, leaf);
    EarlyReleaseHarmless(s', path, split.sep, split.right);
  }

  lemma LeafSplitKeepsInner<V>(s: Store<V>, path: seq<PageId>, leaf: PageId, e: Entry<V>)
    requires Numbered(s) && AllInner(s.pages, path) && leaf in s.pages && s.pages[leaf].Leaf?
    ensures var s' := SplitLeaf(s, leaf, e).store;
      forall j :: 0 <= j < |path| ==> path[j] in s'.pages && s'.pages[path[j]] == s.pages[path[j]]
  {
  }

  lemma WalkSuffix<V>(s: Store<V>, s': Store<V>, own: Table, own': Table, path: seq<PageId>, i: nat, key: int,
                      c: PageId)
    requires Walk(s, own, path, key, c) && AllInner(s.pages, path) && i <= |path|
    requires forall j :: 0 <= j < |path| ==> path[j] in s'.pages && s'.pages[path[j]] == s.pages[path[j]]
    requires forall q :: q in own ==> q in own' && own'[q].height == own[q].height
    ensures Walk(s', own', path[i..], key, c)
  {
    forall j | 0 <= j < |path| - i
      ensures WalkStep(s', own', path[i..], key, c, j)
    {
      assert WalkStep(s, own, path, key, c, i + j);
    }
  }

  lemma {:induction false} SamePagesSameHold<V>(pages: map<PageId, Page<V>>, pages': map<PageId, Page<V>>,
                                                path: seq<PageId>)
    requires AllInner(pages, path) &&
      forall j :: 0 <= j < |path| ==> path[j] in pages' && pages'[path[j]] == pages[path[j]]
    ensures AllInner(pages', path) && HeldFrom(pages', path) == HeldFrom(pages, path)
  {
    if path != [] { SamePagesSameHold(pages, pages', path[..|path| - 1]); }
  }
}
