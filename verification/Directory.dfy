/** The page directory, a second B+tree that maps logical pages to places on disk, and the allocation of new pages. */
module Directory {
  import opened Wrappers
  import opened SortedEntries
  import opened BTreeTheory
  import opened BTreeSteps
  import opened BTreeInsert
  import B = BTree
  import PageOps
  import opened Bytes
  import opened PoolTheory

  const U32_END := 0x1_0000_0000

  type PageKey = l: int | 0 <= l < 0x1_0000_0000

  // ---------------------------------------------------------------- places on disk

  /** What a leaf entry keeps of a place: the file and the page number within it. */
  datatype Slot = Slot(file: nat, number: nat)

  function FromPPageId(p: PPageId): Slot {
    Slot(p.file, p.offset / PAGE_SIZE % U32_END)
  }

  function ToPPageId(s: Slot): PPageId {
    PPageId(s.file, s.number * PAGE_SIZE)
  }

  /** Page aligned, and the page number fits 32 bits. */
  predicate Storable(p: PPageId) {
    p.offset % PAGE_SIZE == 0 && p.offset / PAGE_SIZE < U32_END
  }

  /** A place comes back as stored exactly when it is page aligned and its page number fits 32 bits. */
  lemma PlaceKeptIff(p: PPageId)
    ensures ToPPageId(FromPPageId(p)) == p <==> Storable(p)
  {
    var n := p.offset / PAGE_SIZE;
    assert p.offset == n * PAGE_SIZE + p.offset % PAGE_SIZE;
    if n >= U32_END { assert n % U32_END < n; }
  }

  function PlacesOf(m: map<int, Slot>): map<int, PPageId> {
    map l | l in m :: ToPPageId(m[l])
  }

  /** Storing a place makes the page live there, and nothing else move, if and only if the place is storable. */
  lemma StorePlaceIff(m: map<int, Slot>, l: int, p: PPageId)
    ensures PlacesOf(m[l := FromPPageId(p)]) == PlacesOf(m)[l := p] <==> Storable(p)
  {
    var stored := PlacesOf(m[l := FromPPageId(p)]);
    PlaceKeptIff(p);
    assert stored[l] == ToPPageId(FromPPageId(p));
    assert stored == PlacesOf(m)[l := ToPPageId(FromPPageId(p))];
    assert PlacesOf(m)[l := p][l] == p;
  }

  // ---------------------------------------------------------------- the tree

  datatype Error = PageNotFound(l: nat) | DuplicatePage(l: nat) | PageCorruption(cause: PageOps.OverlayError)

  function UpdateLeaf<V>(s: Store<V>, id: PageId, i: nat, v: V): Store<V>
    requires id in s.pages && s.pages[id].Leaf? && i < |s.pages[id].entries|
  {
    var p := s.pages[id];
    s.(pages := s.pages[id := p.(entries := p.entries[i := Entry(p.entries[i].key, v)])])
  }

  /** Rewriting an entry in place is deleting it and inserting it anew. */
  lemma UpdateIsReinsert<V>(es: seq<Entry<V>>, i: nat, v: V)
    requires Sorted(es) && i < |es|
    ensures InsertSorted(RemoveAt(es, i), Entry(es[i].key, v)) == es[i := Entry(es[i].key, v)]
  {
    var rest := RemoveAt(es, i);
    RemoveAtOk(es, i);
    BelowUnique(rest, es[i].key, i);
  }

  /** Rewriting an entry in place changes that key's value and nothing else. */
  lemma UpdateLeafOk<V>(s: Store<V>, own: Table, m: map<int, V>, id: PageId, i: nat, v: V)
    requires Inv(s, own, own, m) && id in own && s.pages[id].Leaf? && i < |s.pages[id].entries|
    ensures Inv(UpdateLeaf(s, id, i, v), own, own, m[s.pages[id].entries[i].key := v])
  {
    var es := s.pages[id].entries;
    var k := es[i].key;
    assert BTreeTheory.PageOk(s.pages, own, own, m, id);
    DeleteLeafOk(s, own, m, id, i);
    InsertLeafOk(DeleteLeaf(s, id, i), own, m - {k}, id, Entry(k, v));
    UpdateIsReinsert(es, i, v);
    assert (m - {k})[k as int := v] == m[k as int := v];
    assert InsertLeaf(DeleteLeaf(s, id, i), id, Entry(k, v)) == UpdateLeaf(s, id, i, v);
  }

  /** A whole walk survives the split of the leaf below it. */
  lemma WalkAfterSplit<V>(s: Store<V>, own: Table, m: map<int, V>, path: seq<PageId>, key: int, leaf: PageId,
                          e: Entry<V>)
    requires Inv(s, own, own, m) && LeafAt(s.pages, own, leaf) && Walk(s, own, path, key, leaf) &&
      AllInner(s.pages, path)
    requires if path == [] then leaf == s.root else path[0] == s.root
    ensures var split := BTreeSteps.SplitLeaf(s, leaf, e);
      var s', own' := split.store, SplitTable(own, leaf, split.right, split.sep);
      AllInner(s'.pages, path) && Walk(s', own', path, key, leaf) && Anchored(s', path, leaf)
  {
    var split := BTreeSteps.SplitLeaf(s, leaf, e);
    LeafSplitKeepsInner(s, path, leaf, e);
    WalkSuffix(s, split.store, own, SplitTable(own, leaf, split.right, split.sep), path, 0, key, leaf);
    assert path[0..] == path;
  }

  class PageDirectory {
    const tree: B.Index<Slot>

    ghost predicate Valid()
      reads this, tree
    {
      tree.Valid()
    }

    /** Where each logical page lives. */
    ghost function Places(): map<int, PPageId>
      reads this, tree
    {
      PlacesOf(tree.m)
    }

    constructor ()
      ensures Valid() && fresh(tree) && tree.m == map[]
    {
      tree := new B.Index<Slot>(1);
    }

    method Lookup(l: PageKey) returns (r: Result<PPageId, Error>)
      requires Valid()
      ensures r == if l in Places() then Ok(Places()[l]) else Err(PageNotFound(l))
    {
      var got := tree.Get(l);
      r := if got.Ok? then Ok(ToPPageId(got.value)) else Err(PageNotFound(l));
    }

    /** Add a page. A new id gains its place; an id already there is refused and nothing changes. */
    method AddPage(l: PageKey, p: PPageId) returns (r: Result<(), Error>)
      requires Valid()
      modifies tree
      ensures Valid()
      ensures l !in old(tree.m) ==> r == Ok(()) && tree.m == old(tree.m)[l := FromPPageId(p)]
      ensures l in old(tree.m) ==>
        (r == Err(DuplicatePage(l)) || r == Err(PageCorruption(PageOps.DuplicateKey))) &&
          tree.State() == old(tree.State()) && tree.m == old(tree.m)
      ensures l !in old(Places()) ==> (Places() == old(Places())[l as int := p] <==> Storable(p))
    {
      StorePlaceIff(tree.m, l, p);
      if tree.root == 0 {
        tree.CreateRootLeaf(l, FromPPageId(p));
        return Ok(());
      }
      var leaf, path := tree.FindLeafWithPath(l);
      B.LeafReady(tree.State(), tree.own, tree.m, leaf, l);
      if |tree.pages[leaf].entries| >= LEAF_MAX {
        r := AddSplitting(leaf, path, l, FromPPageId(p));
      } else {
        ghost var e := Entry(l, FromPPageId(p));
        if l !in tree.m { InsertLeafOk(tree.State(), tree.own, tree.m, leaf, e); }
        var page := PageOps.Insert(tree.pages[leaf].entries, Entry(l, FromPPageId(p)), LEAF_MAX);
        if page.Err? { return Err(PageCorruption(page.error)); }
        tree.pages := tree.pages[leaf := tree.pages[leaf].(entries := page.value)];
        tree.m := tree.m[l as int := FromPPageId(p)];
        r := Ok(());
      }
    }

    /** Split the full leaf and pass the separator up the whole path. */
    method AddSplitting(leaf: PageId, path: seq<PageId>, l: PageKey, slot: Slot) returns (r: Result<(), Error>)
      requires Valid() && tree.root != 0 && LeafAt(tree.pages, tree.own, leaf) &&
        tree.own[leaf].lo <= l < tree.own[leaf].hi
      requires |tree.pages[leaf].entries| >= LEAF_MAX
      requires Walk(tree.State(), tree.own, path, l, leaf)
      requires if path == [] then leaf == tree.root else path[0] == tree.root
      modifies tree
      ensures Valid()
      ensures l !in old(tree.m) ==> r == Ok(()) && tree.m == old(tree.m)[l := slot]
      ensures l in old(tree.m) ==>
        r == Err(DuplicatePage(l)) && tree.State() == old(tree.State()) && tree.m == old(tree.m)
    {
      ghost var s, e := tree.State(), Entry(l, slot);
      B.LeafReady(s, tree.own, tree.m, leaf, l);
      WalkIsKnown(s, tree.own, tree.own, tree.m, path, l, leaf);
      WalkAfterSplit(s, tree.own, tree.m, path, l, leaf, e);
      if l !in tree.m { SplitLeafOk(s, tree.own, tree.m, leaf, e); }
      var split := tree.SplitLeaf(leaf, Entry(l, slot));
      if split.Err? { return Err(DuplicatePage(l)); }
      var (newLeaf, sep) := split.value;
      tree.InsertIntoAncestors(path, sep, newLeaf, leaf, l, SplitTable(tree.own, leaf, newLeaf, sep), tree.own,
        tree.m[l as int := slot]);
      r := Ok(());
    }

    /** Give a page a new place; an unknown page is refused and nothing changes. */
    method UpdatePage(l: PageKey, p: PPageId) returns (r: Result<(), Error>)
      requires Valid()
      modifies tree
      ensures Valid()
      ensures l in old(tree.m) ==> r == Ok(()) && tree.m == old(tree.m)[l := FromPPageId(p)]
      ensures l !in old(tree.m) ==>
        r == Err(PageNotFound(l)) && tree.State() == old(tree.State()) && tree.m == old(tree.m)
      ensures l in old(Places()) ==> (Places() == old(Places())[l as int := p] <==> Storable(p))
    {
      StorePlaceIff(tree.m, l, p);
      if tree.root == 0 { return Err(PageNotFound(l)); }
      var leaf := tree.FindLeaf(l);
      B.LeafReady(tree.State(), tree.own, tree.m, leaf, l);
      var page := tree.pages[leaf];
      if !Found(page.entries, l) { return Err(PageNotFound(l)); }
      var pos := Below(page.entries, l);
      UpdateLeafOk(tree.State(), tree.own, tree.m, leaf, pos, FromPPageId(p));
      tree.pages := tree.pages[leaf := page.(entries := page.entries[pos := Entry(l, FromPPageId(p))])];
      tree.m := tree.m[l as int := FromPPageId(p)];
      r := Ok(());
    }

    /** Remove a page; leaves are never merged. */
    method DeletePage(l: PageKey) returns (r: Result<(), Error>)
      requires Valid()
      modifies tree
      ensures Valid()
      ensures l in old(tree.m) ==> r == Ok(()) && tree.m == old(tree.m) - {l as int}
      ensures l !in old(tree.m) ==>
        r == Err(PageNotFound(l)) && tree.State() == old(tree.State()) && tree.m == old(tree.m)
      ensures l in old(Places()) ==> Places() == old(Places()) - {l as int}
    {
      if tree.root == 0 { return Err(PageNotFound(l)); }
      var leaf := tree.FindLeaf(l);
      B.LeafReady(tree.State(), tree.own, tree.m, leaf, l);
      var page := tree.pages[leaf];
      if !Found(page.entries, l) { return Err(PageNotFound(l)); }
      var pos := Below(page.entries, l);
      DeleteLeafOk(tree.State(), tree.own, tree.m, leaf, pos);
      tree.pages := tree.pages[leaf := page.(entries := RemoveAt(page.entries, pos))];
      tree.m := tree.m - {l as int};
      r := Ok(());
    }
  }

  // ---------------------------------------------------------------- allocation

  /** Distinct pages at distinct places, every place a page number already handed out for its file. */
  ghost predicate Issued(issued: map<int, PPageId>, nextLpage: nat, nextPage: map<nat, nat>) {
    && (forall l {:trigger issued[l]} :: l in issued ==>
          0 <= l < nextLpage && issued[l].file in nextPage &&
            PAGE_SIZE <= issued[l].offset < PAGE_SIZE * nextPage[issued[l].file])
    && (forall l, k {:trigger issued[l], issued[k]} :: l in issued && k in issued && issued[l] == issued[k] ==> l == k)
  }

  lemma IssueOk(issued: map<int, PPageId>, nextLpage: nat, nextPage: map<nat, nat>, file: nat, n: nat)
    requires Issued(issued, nextLpage, nextPage) && n == (if file in nextPage then nextPage[file] else 1) && n >= 1
    ensures nextLpage !in issued && PPageId(file, n * PAGE_SIZE) !in issued.Values
    ensures Issued(issued[nextLpage := PPageId(file, n * PAGE_SIZE)], nextLpage + 1, nextPage[file := n + 1])
  {
    forall l | l in issued
      ensures issued[l] != PPageId(file, n * PAGE_SIZE) && l != nextLpage
    {
    }
  }

  /** The disk manager's counters: the next logical id, and per file the next page past its end. */
  class DiskManager {
    const directory: PageDirectory
    var nextLpage: nat
    var nextPage: map<nat, nat>

    /** Every page ever allocated and where it was put. */
    ghost var issued: map<int, PPageId>

    ghost predicate Valid()
      reads this, directory, directory.tree
    {
      && directory.Valid() && Issued(issued, nextLpage, nextPage)
      && (forall f :: f in nextPage ==> nextPage[f] >= 1)
      && (forall l :: l in directory.Places() ==> l in issued && issued[l] == directory.Places()[l])
    }

    constructor (firstId: nat)
      ensures Valid() && fresh(directory) && fresh(directory.tree) && issued == map[] && nextLpage == firstId
      ensures directory.Places() == map[]
    {
      directory := new PageDirectory();
      nextLpage, nextPage, issued := firstId, map[], map[];
    }

    /** A file's first page is its header, so counting starts at 1. */
    method Allocate(file: nat) returns (p: PPageId)
      modifies this`nextPage
      ensures var n := if file in old(nextPage) then old(nextPage)[file] else 1;
        p == PPageId(file, n * PAGE_SIZE) && nextPage == old(nextPage)[file := n + 1]
    {
      var next := if file in nextPage then nextPage[file] else 1;
      nextPage := nextPage[file := next + 1];
      p := PPageId(file, next * PAGE_SIZE);
    }

    /** Until a counter overflows, a new page gets an id and a place no page has ever had. */
    method NewPage(file: nat) returns (r: Result<(PageKey, PPageId), Error>)
      requires Valid() && nextLpage < U32_END && (file in nextPage ==> nextPage[file] < U32_END)
      modifies this, directory.tree
      ensures Valid() && r.Ok?
      ensures var (l, p) := r.value;
        && l !in old(issued) && p !in old(issued).Values && issued == old(issued)[l as int := p]
        && l !in old(directory.Places()) && directory.Places() == old(directory.Places())[l as int := p]
        && l == old(nextLpage) && nextLpage == l + 1 && p.offset >= PAGE_SIZE
    {
      hide Issued, FromPPageId, ToPPageId, Tree, PlacesOf;
      var l: PageKey := nextLpage;
      IssueOk(issued, nextLpage, nextPage, file, if file in nextPage then nextPage[file] else 1);
      nextLpage := nextLpage + 1;
      var p := Allocate(file);
      PlaceKeptIff(p);
      var added := directory.AddPage(l, p);
      assert added.Ok?;
      issued := issued[l as int := p];
      assert directory.Places() == old(directory.Places())[l as int := p];
      return Ok((l, p));
    }

    /** No page lies where a file's header does. */
    lemma HeadersApart(l: int)
      requires Valid() && l in directory.Places()
      ensures 0 <= l < nextLpage && directory.Places()[l].offset != 0
    {
      assert issued[l] == directory.Places()[l];
    }

    /** No two logical pages share a place on disk. */
    lemma OnePlaceEach(l: int, k: int)
      requires Valid() && l in directory.Places() && k in directory.Places() && l != k
      ensures directory.Places()[l] != directory.Places()[k]
    {
      assert issued[l] != issued[k];
    }
  }
}
