/** The index B+tree over its page store. */
module BTree {
  import opened Wrappers
  import opened SortedEntries
  import opened PageOps
  import opened BTreeTheory
  import opened BTreeSteps
  import opened BTreeInsert
  import opened BTreeMerge
  import opened BTreeDelete

  datatype Error = TupleNonExistent | PageCorruption(cause: OverlayError)

  class Index<V(==)> {
    var root: PageId
    var pages: map<PageId, Page<V>>
    var nextId: PageId

    /** The key range and height of every live page, and the map the tree stands for. */
    ghost var own: Table
    ghost var m: map<int, V>

    ghost function State(): Store<V>
      reads this
    {
      Store(root, pages, nextId)
    }

    ghost predicate Valid()
      reads this
    {
      Tree(State(), own, m)
    }

    /** An empty index. Page 0 means no page, so it is in order exactly if its page counter is past that id. */
    constructor (firstId: PageId)
      ensures State() == Store(0, map[], firstId) && own == map[] && m == map[]
      ensures Valid() <==> firstId > 0
    {
      root, pages, nextId := 0, map[], firstId;
      own, m := map[], map[];
    }

    // -------------------------------------------------------------- traversal

    method FindLeaf(key: U64) returns (leaf: PageId)
      requires Valid() && root != 0
      ensures LeafAt(pages, own, leaf) && own[leaf].lo <= key < own[leaf].hi
    {
      leaf := root;
      assert PageOk(pages, own, own, m, leaf);
      while pages[leaf].Inner?
        invariant leaf in own && leaf in pages && own[leaf].lo <= key < own[leaf].hi
        decreases own[leaf].height
      {
        RouteOk(State(), own, own, m, leaf, key);
        assert PageOk(pages, own, own, m, leaf);
        leaf := FindChild(pages[leaf], key);
      }
    }

    method FindLeafWithPath(key: U64) returns (leaf: PageId, path: seq<PageId>)
      requires Valid() && root != 0
      ensures Descent(State(), own, path, key, leaf)
    {
      leaf, path := root, [];
      assert PageOk(pages, own, own, m, leaf);
      while pages[leaf].Inner?
        invariant leaf in own && leaf in pages && own[leaf].lo <= key < own[leaf].hi
        invariant Walk(State(), own, path, key, leaf)
        invariant if path == [] then leaf == root else path[0] == root
        decreases own[leaf].height
      {
        RouteOk(State(), own, own, m, leaf, key);
        WalkDown(State(), own, own, m, path, key, leaf);
        path := path + [leaf];
        leaf := FindChild(pages[leaf], key);
      }
      WalkIsKnown(State(), own, own, m, path, key, leaf);
    }

    /** Latch crabbing: walk down, letting go of everything above each safe page: one that can take two separators more.
        A leaf that can take two entries more lets go of them all. */
    method FindLeafForWrite(key: U64) returns (leaf: PageId, locked: seq<PageId>, ghost path: seq<PageId>)
      requires Valid() && root != 0
      ensures Descent(State(), own, path, key, leaf)
      ensures locked == if |pages[leaf].entries| < LEAF_MAX - 1 then [] else Held(pages, path)
      ensures |pages[leaf].entries| < 252 ==> locked == []
      ensures |pages[leaf].entries| >= 252 ==> HeldFromLastBelow(pages, path, locked, 253)
    {
      leaf, locked, path := root, [], [];
      assert PageOk(pages, own, own, m, leaf);
      while pages[leaf].Inner?
        invariant leaf in own && leaf in pages && own[leaf].lo <= key < own[leaf].hi
        invariant Walk(State(), own, path, key, leaf) && AllInner(pages, path)
        invariant if path == [] then leaf == root else path[0] == root
        invariant locked == Held(pages, path)
        decreases own[leaf].height
      {
        RouteOk(State(), own, own, m, leaf, key);
        WalkDown(State(), own, own, m, path, key, leaf);
        HeldDown(pages, path, leaf);
        if SafeInner(pages[leaf]) {
          locked := [];
        }
        locked, path := locked + [leaf], path + [leaf];
        leaf := FindChild(pages[leaf], key);
      }
      HeldInNumbers(pages, path);
      if |pages[leaf].entries| < LEAF_MAX - 1 {
        locked := [];
      }
    }

    // -------------------------------------------------------------- splits

    method AllocPage() returns (id: PageId)
      modifies `nextId
      ensures id == old(nextId) && nextId == old(nextId) + 1
    {
      id := nextId;
      nextId := nextId + 1;
    }

    /** Split a leaf around a new entry; a duplicate key is refused before anything is written. */
    method SplitLeaf(leaf: PageId, e: Entry<V>) returns (r: Result<(PageId, U64), Error>)
      requires leaf in pages && pages[leaf].Leaf? && Sorted(pages[leaf].entries) &&
        1 <= |pages[leaf].entries| <= LEAF_MAX
      requires var next := pages[leaf].next; next in pages ==> next != 0
      requires var next := pages[leaf].next; next != 0 ==> next in pages && pages[next].Leaf? && next != leaf
      requires Numbered(State())
      modifies `pages, `nextId
      ensures Found(old(pages)[leaf].entries, e.key) ==>
        r == Err(PageCorruption(DuplicateKey)) && State() == old(State())
      ensures !Found(old(pages)[leaf].entries, e.key) ==>
        var split := BTreeSteps.SplitLeaf(old(State()), leaf, e);
        r == Ok((split.right, split.sep)) && State() == split.store
    {
      var p := pages[leaf];
      if Found(p.entries, e.key) {
        return Err(PageCorruption(DuplicateKey));
      }
      InsertSortedOk(p.entries, e);
      var entries := InsertSorted(p.entries, e);
      var mid := |entries| / 2;
      var separator := entries[mid].key;

      var newLeaf := AllocPage();
      var upper := Rebuild(entries[mid..], LEAF_MAX);
      pages := pages[newLeaf := Leaf(upper, p.next, leaf)];

      var lower := Rebuild(entries[..mid], LEAF_MAX);
      pages := pages[leaf := Leaf(lower, newLeaf, p.prev)];

      if p.next != 0 {
        var sibling := pages[p.next];
        pages := pages[p.next := sibling.(prev := newLeaf)];
      }
      r := Ok((newLeaf, separator));
    }

    /** Split a full inner page around a new separator and report the one pushed up. */
    method SplitInner(id: PageId, sep: U64, child: PageId) returns (right: PageId, up: U64)
      requires id in pages && pages[id].Inner? && Sorted(pages[id].seps) && |pages[id].seps| == INNER_MAX
      requires !Found(pages[id].seps, sep)
      modifies `pages, `nextId
      ensures BTreeSteps.Split(State(), right, up) == BTreeSteps.SplitInner(old(State()), id, sep, child)
    {
      var p := pages[id];
      InsertSortedOk(p.seps, Entry(sep, child));
      var entries := InsertSorted(p.seps, Entry(sep, child));
      var mid := |entries| / 2;
      up := entries[mid].key;

      right := AllocPage();
      var upper := Rebuild(entries[mid + 1..], INNER_MAX);
      pages := pages[right := Inner(entries[mid].value, upper)];

      var lower := Rebuild(entries[..mid], INNER_MAX);
      pages := pages[id := Inner(p.leftmost, lower)];
    }

    /** Hand the pending separator to the held ancestors, splitting full ones on the way up. */
    method InsertIntoAncestors(held: seq<PageId>, sep: U64, child: PageId,
                               ghost low: PageId, ghost key: int, ghost table: Table, ghost view: Table,
                                 ghost goal: map<int, V>)
      requires Pending(State(), table, view, goal, low, child, sep)
      requires Walk(State(), table, held, key, low) && AllInner(pages, held) && Anchored(State(), held, low)
      modifies this
      ensures State() == Cascade(old(State()), held, sep, child)
      ensures m == goal && Inv(State(), own, own, m)
    {
      m := goal;
      var locked, sepKey, newChild := held, sep, child;
      ghost var t: Table, v: Table, left: PageId := table, view, low;
      while locked != []
        invariant Pending(State(), t, v, goal, left, newChild, sepKey)
        invariant Walk(State(), t, locked, key, left) && AllInner(pages, locked) && Anchored(State(), locked, left)
        invariant Cascade(State(), locked, sepKey, newChild) == Cascade(old(State()), held, sep, child)
        invariant m == goal
        decreases |locked|
      {
        var parent := locked[|locked| - 1];
        ParentReady(State(), t, v, goal, locked, key, left, newChild, sepKey);
        if |pages[parent].seps| < INNER_MAX {
          var page := PageOps.Insert(pages[parent].seps, Entry(sepKey, newChild), INNER_MAX);
          assert page.Ok?;
          pages := pages[parent := pages[parent].(seps := page.value)];
          own := t;
          return;
        }
        SplitParent(State(), t, v, goal, locked, key, left, newChild, sepKey);
        locked := locked[..|locked| - 1];
        newChild, sepKey := SplitInner(parent, sepKey, newChild);
        t, v, left := SplitTable(t, parent, newChild, sepKey), t, parent;
      }
      AllocAndSetRoot(sepKey, newChild, t, v);
    }

    /** Put a new root above the two halves of the old one. */
    method AllocAndSetRoot(sep: U64, child: PageId, ghost table: Table, ghost view: Table)
      requires Pending(State(), table, view, m, root, child, sep)
      modifies this
      ensures State() == NewRoot(old(State()), sep, child)
      ensures m == old(m) && Inv(State(), own, own, m)
    {
      NewRootOk(State(), table, view, m, child, sep);
      own := table[nextId := Node(0, TOP, table[root].height + 1)];
      var newRoot := AllocPage();
      pages := pages[newRoot := Inner(root, [Entry(sep, child)])];
      root := newRoot;
    }

    // -------------------------------------------------------------- insert

    /** Insert a key. A fresh key adds exactly that pair; a key already there is refused and nothing changes.
        The resulting pages are those of an insert that held the whole path from the root to the key's leaf. */
    method Insert(key: U64, value: V) returns (r: Result<(), Error>, ghost leaf: PageId, ghost path: seq<PageId>)
      requires Valid()
      modifies this
      ensures Valid()
      ensures key in old(m) ==> r == Err(PageCorruption(DuplicateKey)) && State() == old(State()) && m == old(m)
      ensures key !in old(m) ==> r == Ok(()) && m == old(m)[key := value]
      ensures key !in old(m) && old(root) != 0 ==>
        Descent(old(State()), old(own), path, key, leaf) &&
          InsertedHoldingAll(old(State()), path, leaf, Entry(key, value), State())
    {
      leaf, path := 0, [];
      if root == 0 {
        CreateRootLeaf(key, value);
        return Ok(()), leaf, path;
      }
      var target, locked;
      target, locked, path := FindLeafForWrite(key);
      leaf := target;
      LeafReady(State(), own, m, target, key);
      if |pages[target].entries| >= LEAF_MAX {
        r := InsertSplitting(target, locked, key, value, path);
      } else {
        if key !in m { InsertLeafOk(State(), own, m, target, Entry(key, value)); }
        var page := PageOps.Insert(pages[target].entries, Entry(key, value), LEAF_MAX);
        if page.Err? {
          return Err(PageCorruption(page.error)), leaf, path;
        }
        pages := pages[target := pages[target].(entries := page.value)];
        m := m[key as int := value];
        r := Ok(());
      }
    }

    /** The empty tree becomes a single leaf. */
    method CreateRootLeaf(key: U64, value: V)
      requires Valid() && root == 0
      modifies this
      ensures Valid() && m == map[key as int := value]
      ensures State() == FirstLeaf(old(State()), Entry(key, value))
    {
      var id := AllocPage();
      pages := pages[id := Leaf([Entry(key, value)], 0, 0)];
      root := id;
      own, m := map[id := Node(0, TOP, 0)], map[key as int := value];
      FirstLeafOk(State(), id, Entry(key, value));
    }

    /** Split a full leaf around the new key and pass the separator up the held pages. */
    method InsertSplitting(leaf: PageId, locked: seq<PageId>, key: U64, value: V, ghost path: seq<PageId>)
      returns (r: Result<(), Error>)
      requires Valid() && root != 0 && Descent(State(), own, path, key, leaf)
      requires |pages[leaf].entries| >= LEAF_MAX && locked == Held(pages, path)
      modifies this
      ensures Valid()
      ensures key in old(m) ==> r == Err(PageCorruption(DuplicateKey)) && State() == old(State()) && m == old(m)
      ensures key !in old(m) ==> r == Ok(()) && m == old(m)[key := value]
      ensures key !in old(m) ==> InsertedHoldingAll(old(State()), path, leaf, Entry(key, value), State())
    {
      ghost var s, e := State(), Entry(key, value);
      LeafReady(s, own, m, leaf, key);
      HeldAfterSplit(s, own, m, path, key, leaf, e);
      if key !in m { SplitLeafOk(s, own, m, leaf, e); }
      var split := SplitLeaf(leaf, Entry(key, value));
      if split.Err? {
        return Err(split.error);
      }
      var (newLeaf, sep) := split.value;
      InsertIntoAncestors(locked, sep, newLeaf, leaf, key, SplitTable(own, leaf, newLeaf, sep), own,
        m[key as int := value]);
      r := Ok(());
    }

    // -------------------------------------------------------------- get

    method Get(key: U64) returns (r: Result<V, Error>)
      requires Valid()
      ensures r == if key in m then Ok(m[key]) else Err(TupleNonExistent)
    {
      if root == 0 {
        return Err(TupleNonExistent);
      }
      var leaf := FindLeaf(key);
      LeafReady(State(), own, m, leaf, key);
      var entries := pages[leaf].entries;
      if Found(entries, key) {
        r := Ok(entries[Below(entries, key)].value);
      } else {
        r := Err(TupleNonExistent);
      }
    }

    // -------------------------------------------------------------- delete and merge

    method FindMergeCandidate(parent: PageId, leaf: PageId) returns (r: Option<nat>)
      requires parent in pages && pages[parent].Inner?
      ensures r == MergeCandidate(pages[parent], leaf)
      ensures r.None? <==> pages[parent].seps == [] || forall i :: 0 <= i <= |pages[parent].seps| ==>
        Child(pages[parent], i) != leaf
      ensures r.Some? ==> r.value < |pages[parent].seps|
      ensures r.Some? ==> if leaf == pages[parent].leftmost then r.value == 0
        else Child(pages[parent], r.value + 1) == leaf
    {
      var p := pages[parent];
      CandidateBorders(p, leaf);
      if |p.seps| == 0 {
        return None;
      }
      if leaf == p.leftmost {
        return Some(0);
      }
      for i := 0 to |p.seps|
        invariant SlotOf(p.seps, leaf, i) == SlotOf(p.seps, leaf, 0)
      {
        if p.seps[i].value == leaf {
          return Some(i);
        }
      }
      r := None;
    }

    /** Move the removed leaf's entries over, relink its right sibling and drop the separator. */
    method MergePages(parent: PageId, j: nat)
      requires CanMerge(pages, parent, j) && 0 !in pages
      requires var survivor, removed := Child(pages[parent], j), Child(pages[parent], j + 1);
        && survivor != removed && Sorted(pages[survivor].entries + pages[removed].entries)
        && (var next := pages[removed].next; next != 0 ==> next in pages && pages[next].Leaf? && next != survivor)
      modifies `pages
      ensures State() == MergeLeaves(old(State()), parent, j)
    {
      var p := pages[parent];
      var survivor, removed := Child(p, j), Child(p, j + 1);
      var l, r := pages[survivor], pages[removed];
      var entries := Absorb(l.entries, r.entries, LEAF_MAX);
      pages := pages[survivor := Leaf(entries, r.next, l.prev)];
      if r.next != 0 {
        var sibling := pages[r.next];
        pages := pages[r.next := sibling.(prev := survivor)];
      }
      var seps := PageOps.Delete(p.seps, j);
      assert seps.Ok?;
      pages := pages[parent := p.(seps := seps.value)];
    }

    /** Merge an underfull leaf with a sibling if the parent has one and the two fit in one page. */
    method TryMergeLeaf(leaf: PageId, path: seq<PageId>, rootPage: PageId, ghost key: int)
      requires Valid() && root != 0 && rootPage == root && Descent(State(), own, path, key, leaf)
      modifies this
      ensures Valid() && root != 0 && m == old(m)
      ensures State() == TryMerge(old(State()), leaf, path) && own == MergedTable(old(State()), old(own), leaf, path)
    {
      hide Inv, Descent, MergeCandidate, Sorted;
      TryMergeOk(State(), own, m, path, key, leaf);
      MergeReady(State(), own, m, path, key, leaf);
      own := MergedTable(State(), own, leaf, path);
      if path == [] {
        return;
      }
      var parent := path[|path| - 1];
      var candidate := FindMergeCandidate(parent, leaf);
      if candidate.None? {
        return;
      }
      var j := candidate.value;
      if |pages[Child(pages[parent], j)].entries| + |pages[Child(pages[parent], j + 1)].entries| > LEAF_MAX {
        return;
      }
      MergePages(parent, j);
      if parent == rootPage && |pages[parent].seps| == 0 {
        root := pages[parent].leftmost;
      }
    }

    /** Delete a pair. Only the very pair asked for is removed; a leaf left less than half full is joined with a sibling
        if it has one and the two fit, which changes no other pair and takes one leaf out of the chain. */
    method Delete(key: U64, value: V) returns (r: Result<(), Error>, ghost leaf: PageId, ghost path: seq<PageId>)
      requires Valid()
      modifies this
      ensures Valid()
      ensures key in old(m) && old(m)[key] == value ==> r == Ok(()) && m == old(m) - {key as int}
      ensures !(key in old(m) && old(m)[key] == value) ==>
        r == Err(TupleNonExistent) && State() == old(State()) && m == old(m)
      ensures r.Ok? ==> DeletedAt(old(State()), old(own), old(m), key, leaf, path, State(), own, m)
    {
      leaf, path := 0, [];
      if root == 0 {
        return Err(TupleNonExistent), leaf, path;
      }
      var rootPage := root;
      var target, trail := FindLeafWithPath(key);
      leaf, path := target, trail;
      LeafReady(State(), own, m, target, key);
      var p := pages[target];
      var pos := Below(p.entries, key);
      if !Found(p.entries, key) {
        return Err(TupleNonExistent), leaf, path;
      }
      if p.entries[pos].value != value {
        return Err(TupleNonExistent), leaf, path;
      }
      DeleteLeafOk(State(), own, m, target, pos);
      DeleteEntryOk(State(), own, m, path, key, target);
      DeleteOutcome(State(), own, m, path, key, target);
      DescentKept(State(), own, path, key, target, pos);
      var entries := PageOps.Delete(p.entries, pos);
      assert entries.Ok?;
      pages := pages[target := p.(entries := entries.value)];
      m := m - {key as int};
      if |entries.value| < LEAF_MERGE_THRESHOLD {
        TryMergeLeaf(target, trail, rootPage, key);
      }
      r := Ok(());
    }
  }

  /** `s'` is `s` after deleting `key` from the leaf the descent leads to, merge included, and the chain lost no other
      leaf. */
  ghost predicate DeletedAt<V>(s: Store<V>, own: Table, m: map<int, V>, key: int, leaf: PageId, path: seq<PageId>,
                               s': Store<V>, own': Table, m': map<int, V>) {
    && Inv(s, own, own, m) && Descent(s, own, path, key, leaf) && Found(s.pages[leaf].entries, key)
    && var pos := Below(s.pages[leaf].entries, key);
      && s' == DeleteEntry(s, leaf, pos, path) && own' == TableAfterDelete(s, own, leaf, pos, path)
      && Inv(s', own', own', m') && ChainLoses(s, own, m, s', own', m', GoneAfterDelete(s, leaf, pos, path))
      && Outcome(s, s', path, key, leaf, pos, GoneAfterDelete(s, leaf, pos, path))
  }

  /** `s'` is what inserting `e` into `leaf` with every page of `path` held would make of `s`. */
  ghost predicate InsertedHoldingAll<V>(s: Store<V>, path: seq<PageId>, leaf: PageId, e: Entry<V>, s': Store<V>) {
    && Numbered(s) && AllInner(s.pages, path) && leaf in s.pages && s.pages[leaf].Leaf?
    && s' == InsertHoldingAll(s, path, leaf, e)
  }

  /** What a leaf whose range holds `key` knows about it. */
  lemma LeafReady<V>(s: Store<V>, own: Table, m: map<int, V>, leaf: PageId, key: int)
    requires Inv(s, own, own, m) && LeafAt(s.pages, own, leaf) && own[leaf].lo <= key < own[leaf].hi
    ensures var p := s.pages[leaf];
      && Sorted(p.entries) && |p.entries| <= LEAF_MAX && 0 !in s.pages
      && (key in m <==> Found(p.entries, key))
      && (key in m ==> m[key] == p.entries[Below(p.entries, key)].value)
      && (p.next != 0 ==> p.next in s.pages && s.pages[p.next].Leaf? && p.next != leaf)
  {
    assert PageOk(s.pages, own, own, m, leaf) && LinksOk(s.pages, own, leaf);
    FoundIsHasKey(s.pages[leaf].entries, key);
  }

  function FirstLeaf<V>(s: Store<V>, e: Entry<V>): Store<V> {
    Store(s.nextId, s.pages[s.nextId := Leaf([e], 0, 0)], s.nextId + 1)
  }

  ghost predicate Stands<V>(s: Store<V>, m: map<int, V>) {
    exists own: Table {:trigger Tree(s, own, m)} :: Tree(s, own, m)
  }

  /** The first insert yields a tree of its entry exactly if the page counter is past 0: a root leaf of id 0 reads as
      no tree. */
  lemma FirstInsertIff<V>(id: PageId, e: Entry<V>)
    ensures Stands(FirstLeaf(Store(0, map[], id), e), map[e.key as int := e.value]) <==> id > 0
  {
    var s, m := FirstLeaf(Store(0, map[], id), e), map[e.key as int := e.value];
    if id > 0 {
      FirstLeafOk(s, id, e);
      assert Tree(s, map[id := Node(0, TOP, 0)], m);
    } else {
      assert e.key as int in m;
    }
  }

  /** A single leaf over the whole key space is a tree. */
  lemma FirstLeafOk<V>(s: Store<V>, id: PageId, e: Entry<V>)
    requires Numbered(s) && s.root == id && id in s.pages && s.pages[id] == Leaf([e], 0, 0)
    ensures Inv(s, map[id := Node(0, TOP, 0)], map[id := Node(0, TOP, 0)], map[e.key as int := e.value])
  {
    assert [e][0] == e;
    assert HasKey([e], e.key);
  }
}
