/** The pages of a B+tree, the page-level steps of its operations, and the
    invariant that makes them a finite map.

    The invariant is kept page by page. A ghost table gives every live page the
    key range [lo, hi) that routing sends to it and its height above the leaves.
    `own` is the table the pages themselves obey; `view` is the table their parents
    believe. In a complete tree the two agree. Between a split and the insertion of
    its separator they differ in one place: parents still see the two halves as one. */
module BTreeTheory {
  import opened SortedEntries

  type PageId = nat

  const LEAF_MAX := 253   // (4096 - 40) / 16
  const INNER_MAX := 254  // (4096 - 24) / 16

  datatype Page<+V> =
    | Leaf(entries: seq<Entry<V>>, next: PageId, prev: PageId)
    | Inner(leftmost: PageId, seps: seq<Entry<PageId>>)

  /** All pages by id, the root (0 = empty tree) and the page-id counter. */
  datatype Store<V> = Store(root: PageId, pages: map<PageId, Page<V>>, nextId: PageId)

  // ---------------------------------------------------------------- routing

  function Child<V>(p: Page<V>, i: nat): PageId
    requires p.Inner? && i <= |p.seps|
  {
    if i == 0 then p.leftmost else p.seps[i - 1].value
  }

  function FindChild<V>(p: Page<V>, key: int): PageId
    requires p.Inner?
  {
    Child(p, Upto(p.seps, key))
  }

  // ---------------------------------------------------------------- ghost tables

  datatype Node = Node(lo: int, hi: int, height: nat)

  type Table = map<PageId, Node>

  ghost function Bound<V>(p: Page<V>, n: Node, i: nat): int
    requires p.Inner? && i <= |p.seps| + 1
  {
    if i == 0 then n.lo else if i == |p.seps| + 1 then n.hi else p.seps[i - 1].key
  }

  /** The map `m` restricted to [lo, hi) is exactly these entries. */
  ghost predicate Agrees<V>(m: map<int, V>, n: Node, es: seq<Entry<V>>) {
    && (forall i :: 0 <= i < |es| ==> es[i].key in m && m[es[i].key] == es[i].value)
    && (forall k :: k in m && n.lo <= k < n.hi ==> HasKey(es, k))
  }

  ghost predicate LeafOk<V>(p: Page<V>, n: Node, m: map<int, V>) {
    && p.Leaf?
    && n.height == 0
    && |p.entries| <= LEAF_MAX
    && Sorted(p.entries)
    && (forall i :: 0 <= i < |p.entries| ==> n.lo <= p.entries[i].key < n.hi)
    && Agrees(m, n, p.entries)
  }

  ghost predicate InnerOk<V>(p: Page<V>, n: Node, view: Table) {
    p.Inner? && |p.seps| <= INNER_MAX && InnerFit(p, n, view)
  }

  ghost predicate InnerFit<V>(p: Page<V>, n: Node, view: Table)
    requires p.Inner?
  {
    && n.height > 0
    && Sorted(p.seps)
    && (forall i :: 0 <= i < |p.seps| ==> n.lo < p.seps[i].key < n.hi)
    && (forall i {:trigger ChildOk(p, n, view, i)} :: 0 <= i <= |p.seps| ==> ChildOk(p, n, view, i))
  }

  ghost predicate ChildOk<V>(p: Page<V>, n: Node, view: Table, i: nat)
    requires p.Inner? && i <= |p.seps| && n.height > 0
  {
    Child(p, i) in view && view[Child(p, i)] == Node(Bound(p, n, i), Bound(p, n, i + 1), n.height - 1)
  }

  ghost predicate PageOk<V>(pages: map<PageId, Page<V>>, own: Table, view: Table, m: map<int, V>, id: PageId)
    requires id in own
  {
    && id in pages && 0 <= own[id].lo < own[id].hi <= TOP
    && if pages[id].Leaf? then LeafOk(pages[id], own[id], m) else InnerOk(pages[id], own[id], view)
  }

  /** The sibling links of a live leaf name the leaves whose ranges touch its own. */
  ghost predicate LinksOk<V>(pages: map<PageId, Page<V>>, own: Table, id: PageId)
    requires id in own
  {
    id in pages && (pages[id].Leaf? ==>
      var p := pages[id];
      && (p.next == 0 <==> own[id].hi == TOP)
      && (p.prev == 0 <==> own[id].lo == 0)
      && (p.next != 0 ==> LeafAt(pages, own, p.next) && own[p.next].lo == own[id].hi && pages[p.next].prev == id)
      && (p.prev != 0 ==> LeafAt(pages, own, p.prev) && own[p.prev].hi == own[id].lo && pages[p.prev].next == id))
  }

  ghost predicate LeafAt<V>(pages: map<PageId, Page<V>>, own: Table, id: PageId) {
    id in own && id in pages && pages[id].Leaf?
  }

  ghost predicate Apart(a: Node, b: Node) {
    a.hi <= b.lo || b.hi <= a.lo
  }

  ghost predicate Separate(own: Table, p: PageId, q: PageId)
    requires p in own && q in own
  {
    p != q && own[p].height == own[q].height ==> Apart(own[p], own[q])
  }

  ghost predicate Disjoint(own: Table) {
    forall p, q {:trigger Separate(own, p, q)} :: p in own && q in own ==> Separate(own, p, q)
  }

  /** Page 0 is the null page, and the counter is ahead of every page handed out. */
  ghost predicate Numbered<V>(s: Store<V>) {
    0 < s.nextId && forall id :: id in s.pages ==> 0 < id < s.nextId
  }

  ghost predicate Inv<V>(s: Store<V>, own: Table, view: Table, m: map<int, V>) {
    && Numbered(s)
    && (forall id :: id in own ==> 0 < id < s.nextId && id in s.pages)
    && (forall id {:trigger PageOk(s.pages, own, view, m, id)} :: id in own ==> PageOk(s.pages, own, view, m, id))
    && (forall id {:trigger LinksOk(s.pages, own, id)} :: id in own ==> LinksOk(s.pages, own, id))
    && Disjoint(own)
    && s.root in view && s.root in own && view[s.root].lo == 0 && view[s.root].hi == TOP
    && view[s.root].height == own[s.root].height
    && (forall id :: id in own ==> own[id].height <= own[s.root].height)
    && (forall k :: k in m ==> 0 <= k < TOP)
  }

  /** A complete tree: parents and pages agree. An empty tree has root 0. */
  ghost predicate Tree<V>(s: Store<V>, own: Table, m: map<int, V>) {
    if s.root == 0 then Numbered(s) && own == map[] && m == map[] else Inv(s, own, own, m)
  }

  /** What parents see while the separator between `left` and `right` is still pending. */
  ghost function Fuse(own: Table, left: PageId, right: PageId): Table
    requires left in own && right in own
  {
    (own - {right})[left := Node(own[left].lo, own[right].hi, own[left].height)]
  }

  ghost predicate Pending<V>(s: Store<V>, own: Table, view: Table, m: map<int, V>, left: PageId, right: PageId,
                             sep: int) {
    && Inv(s, own, view, m)
    && left in own && right in own && left != right
    && own[left].height == own[right].height
    && own[left].hi == sep == own[right].lo
    && view == Fuse(own, left, right)
  }

  // ---------------------------------------------------------------- structure

  /** No sharing: a page hangs below one parent, in one place. */
  lemma OneParent<V>(s: Store<V>, own: Table, view: Table, m: map<int, V>, p: PageId, i: nat, q: PageId, j: nat)
    requires Inv(s, own, view, m) && p in own && q in own
    requires s.pages[p].Inner? && i <= |s.pages[p].seps|
    requires s.pages[q].Inner? && j <= |s.pages[q].seps|
    requires Child(s.pages[p], i) == Child(s.pages[q], j)
    ensures p == q && i == j
  {
    assert PageOk(s.pages, own, view, m, p) && PageOk(s.pages, own, view, m, q);
    assert ChildOk(s.pages[p], own[p], view, i) && ChildOk(s.pages[q], own[q], view, j);
    assert own[p].height == own[q].height;
    var lo := view[Child(s.pages[p], i)].lo;
    assert own[p].lo <= lo < own[p].hi && own[q].lo <= lo < own[q].hi;
    assert Separate(own, p, q);
    BoundsIncrease(s.pages[p], own[p], i, j);
    BoundsIncrease(s.pages[p], own[p], j, i);
  }

  lemma SlotsDiffer<V>(s: Store<V>, own: Table, view: Table, m: map<int, V>, p: PageId, i: nat, j: nat)
    requires Inv(s, own, view, m) && p in own && s.pages[p].Inner? && i <= |s.pages[p].seps| && j <= |s.pages[p].seps|
    ensures i != j ==> Child(s.pages[p], i) != Child(s.pages[p], j)
  {
    if Child(s.pages[p], i) == Child(s.pages[p], j) {
      OneParent(s, own, view, m, p, i, p, j);
    }
  }

  lemma BoundsIncrease<V>(p: Page<V>, n: Node, i: nat, j: nat)
    requires p.Inner? && Sorted(p.seps) && i <= |p.seps| && j <= |p.seps| + 1
    requires n.lo < n.hi && forall k :: 0 <= k < |p.seps| ==> n.lo < p.seps[k].key < n.hi
    ensures i < j ==> Bound(p, n, i) < Bound(p, n, j)
  {
  }

  /** Routing descends into a child whose range holds the key, one level down. */
  lemma RouteOk<V>(s: Store<V>, own: Table, view: Table, m: map<int, V>, p: PageId, key: int)
    requires Inv(s, own, view, m) && p in own && s.pages[p].Inner? && own[p].lo <= key < own[p].hi
    ensures var c := FindChild(s.pages[p], key);
      c in view && view[c].lo <= key < view[c].hi && view[c].height == own[p].height - 1
  {
    assert PageOk(s.pages, own, view, m, p);
    assert ChildOk(s.pages[p], own[p], view, Upto(s.pages[p].seps, key));
  }
}
