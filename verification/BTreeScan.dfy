/** The leaf chain in key order, and the range scan that follows it. */
module BTreeScan {
  import opened Wrappers
  import opened SortedEntries
  import opened BTreeTheory

  // ---------------------------------------------------------------- the chain

  /** The leaves reached from `id` along next-links. */
  ghost function Chain<V>(s: Store<V>, own: Table, m: map<int, V>, id: PageId): seq<PageId>
    requires Inv(s, own, own, m) && LeafAt(s.pages, own, id)
    decreases TOP - own[id].lo
  {
    assert LinksOk(s.pages, own, id) && PageOk(s.pages, own, own, m, id);
    var next := s.pages[id].next;
    if next == 0 then [id] else
      assert PageOk(s.pages, own, own, m, next);
      [id] + Chain(s, own, m, next)
  }

  /** From any leaf on, the chain lists exactly the leaves of larger or equal range, each once, in key order. */
  lemma {:induction false} ChainListsLeaves<V>(s: Store<V>, own: Table, m: map<int, V>, id: PageId)
    requires Inv(s, own, own, m) && LeafAt(s.pages, own, id)
    ensures var c := Chain(s, own, m, id);
      && (forall q :: q in c <==> LeafAt(s.pages, own, q) && own[id].lo <= own[q].lo)
      && (forall i, j :: 0 <= i < j < |c| ==> c[i] in own && c[j] in own && own[c[i]].lo < own[c[j]].lo)
    decreases TOP - own[id].lo
  {
    var c, next := Chain(s, own, m, id), s.pages[id].next;
    assert LinksOk(s.pages, own, id) && PageOk(s.pages, own, own, m, id);
    forall q | LeafAt(s.pages, own, q) && own[id].lo <= own[q].lo && q != id
      ensures own[id].hi <= own[q].lo < TOP
    {
      assert PageOk(s.pages, own, own, m, q) && Separate(own, q, id);
    }
    if next != 0 {
      assert PageOk(s.pages, own, own, m, next);
      ChainListsLeaves(s, own, m, next);
      assert c[1..] == Chain(s, own, m, next);
      assert forall q :: q in c <==> q == id || q in c[1..];
    }
  }

  /** Started at the leaf of key 0, the chain is all the leaves there are. */
  lemma WholeChain<V>(s: Store<V>, own: Table, m: map<int, V>, first: PageId, q: PageId)
    requires Inv(s, own, own, m) && LeafAt(s.pages, own, first) && own[first].lo == 0
    ensures q in Chain(s, own, m, first) <==> LeafAt(s.pages, own, q)
  {
    ChainListsLeaves(s, own, m, first);
    if LeafAt(s.pages, own, q) { assert PageOk(s.pages, own, own, m, q); }
  }

  // ---------------------------------------------------------------- the stream

  /** What loading a leaf buffers, and whether it met an entry beyond the end key. */
  function Load<V>(es: seq<Entry<V>>, start: Option<U64>, end: Option<U64>): (seq<Entry<V>>, bool) {
    if es == [] then ([], false)
    else if start.Some? && es[0].key < start.value then Load(es[1..], start, end)
    else if end.Some? && es[0].key > end.value then ([], true)
    else
      var rest := Load(es[1..], start, end);
      ([es[0]] + rest.0, rest.1)
  }

  predicate InRange(key: int, start: Option<U64>, end: Option<U64>) {
    (start.Some? ==> start.value <= key) && (end.Some? ==> key <= end.value)
  }

  /** Loading keeps exactly the entries in range. */
  lemma {:induction false} LoadKeeps<V>(es: seq<Entry<V>>, start: Option<U64>, end: Option<U64>, e: Entry<V>)
    requires Sorted(es)
    ensures e in Load(es, start, end).0 <==> e in es && InRange(e.key, start, end)
  {
    if es != [] {
      LoadKeeps(es[1..], start, end, e);
      assert es == [es[0]] + es[1..];
      if e in es[1..] {
        var i :| 0 <= i < |es[1..]| && es[1..][i] == e;
        assert es[0].key < es[i + 1].key;
      }
    }
  }

  /** It keeps them in order. */
  lemma {:induction false} LoadSorted<V>(es: seq<Entry<V>>, start: Option<U64>, end: Option<U64>)
    requires Sorted(es)
    ensures Sorted(Load(es, start, end).0)
  {
    if es != [] {
      LoadSorted(es[1..], start, end);
      var rest := Load(es[1..], start, end).0;
      forall i | 0 <= i < |rest|
        ensures es[0].key < rest[i].key
      {
        LoadKeeps(es[1..], start, end, rest[i]);
        var j :| 0 <= j < |es[1..]| && es[1..][j] == rest[i];
        assert es[j + 1] == rest[i];
      }
    }
  }

  ghost predicate Beyond<V>(es: seq<Entry<V>>, start: Option<U64>, end: Option<U64>) {
    exists i :: 0 <= i < |es| && end.Some? && end.value < es[i].key && (start.Some? ==> start.value <= es[i].key)
  }

  /** It reports a cut exactly when some entry it may look at lies beyond the end key. */
  lemma {:induction false} LoadCut<V>(es: seq<Entry<V>>, start: Option<U64>, end: Option<U64>)
    requires Sorted(es)
    ensures Load(es, start, end).1 <==> Beyond(es, start, end)
  {
    if es != [] {
      var rest := es[1..];
      LoadCut(rest, start, end);
      if Beyond(es, start, end) {
        var i :| 0 <= i < |es| && end.value < es[i].key && (start.Some? ==> start.value <= es[i].key);
        if i > 0 { assert rest[i - 1] == es[i]; }
      }
      if Beyond(rest, start, end) {
        var i :| 0 <= i < |rest| && end.value < rest[i].key && (start.Some? ==> start.value <= rest[i].key);
        assert es[i + 1] == rest[i];
      }
    }
  }

  ghost predicate LinkOk<V>(s: Store<V>, own: Table, c: PageId) {
    c == 0 || LeafAt(s.pages, own, c)
  }

  ghost function From(own: Table, c: PageId): int {
    if c in own then own[c].lo else TOP
  }

  lemma NextLeaf<V>(s: Store<V>, own: Table, m: map<int, V>, c: PageId)
    requires Inv(s, own, own, m) && LeafAt(s.pages, own, c)
    ensures LeafOk(s.pages[c], own[c], m) && 0 !in own
    ensures var next := s.pages[c].next;
      LinkOk(s, own, next) && From(own, next) == own[c].hi && own[c].lo < own[c].hi <= TOP
  {
    assert LinksOk(s.pages, own, c) && PageOk(s.pages, own, own, m, c);
  }

  /** Everything the stream yields once its buffer is empty and the next leaf is `c`. The end test
      comes before the buffer is drained, so a leaf cut short by the end key yields one entry at most. */
  ghost function Out<V>(s: Store<V>, own: Table, m: map<int, V>, c: PageId, start: Option<U64>,
                        end: Option<U64>): seq<Entry<V>>
    requires Inv(s, own, own, m) && LinkOk(s, own, c)
    decreases TOP - From(own, c)
  {
    if c == 0 then []
    else
      NextLeaf(s, own, m, c);
      var load := Load(s.pages[c].entries, start, end);
      if load.1 then load.0[..if load.0 == [] then 0 else 1]
      else load.0 + Out(s, own, m, s.pages[c].next, None, end)
  }

  /** Some leaf is cut short by the end key while two or more of its entries are still wanted. */
  ghost predicate CutShort<V>(s: Store<V>, own: Table, m: map<int, V>, c: PageId, start: Option<U64>, end: Option<U64>)
    requires Inv(s, own, own, m) && LinkOk(s, own, c)
    decreases TOP - From(own, c)
  {
    c != 0 && (
      NextLeaf(s, own, m, c);
      var load := Load(s.pages[c].entries, start, end);
      if load.1 then |load.0| >= 2 else CutShort(s, own, m, s.pages[c].next, None, end))
  }

  ghost predicate Wanted<V>(m: map<int, V>, e: Entry<V>, start: Option<U64>, end: Option<U64>) {
    e.key in m && m[e.key] == e.value && InRange(e.key, start, end)
  }

  lemma LeafHolds<V>(p: Page<V>, n: Node, m: map<int, V>, e: Entry<V>)
    requires LeafOk(p, n, m)
    ensures e in p.entries <==> e.key in m && m[e.key] == e.value && n.lo <= e.key < n.hi
  {
    if e.key in m && m[e.key] == e.value && n.lo <= e.key < n.hi {
      assert HasKey(p.entries, e.key);
    }
  }

  ghost predicate Slice<V>(m: map<int, V>, out: seq<Entry<V>>, lo: int, hi: int, start: Option<U64>, end: Option<U64>) {
    Sorted(out) && forall i :: 0 <= i < |out| ==> Wanted(m, out[i], start, end) && lo <= out[i].key < hi
  }

  lemma LoadedSlice<V>(p: Page<V>, n: Node, m: map<int, V>, start: Option<U64>, end: Option<U64>)
    requires LeafOk(p, n, m)
    ensures Slice(m, Load(p.entries, start, end).0, n.lo, n.hi, start, end)
  {
    var b := Load(p.entries, start, end).0;
    LoadSorted(p.entries, start, end);
    forall i | 0 <= i < |b|
      ensures Wanted(m, b[i], start, end) && n.lo <= b[i].key < n.hi
    {
      LoadKeeps(p.entries, start, end, b[i]);
      LeafHolds(p, n, m, b[i]);
    }
  }

  lemma JoinSlices<V>(m: map<int, V>, a: seq<Entry<V>>, b: seq<Entry<V>>, lo: int, mid: int, hi: int,
                      start: Option<U64>, end: Option<U64>)
    requires Slice(m, a, lo, mid, start, end) && Slice(m, b, mid, hi, None, end)
    requires lo <= mid <= hi && (start.Some? ==> start.value < mid)
    ensures Slice(m, a + b, lo, hi, start, end)
  {
  }

  /** The stream yields only wanted entries, in strictly ascending key order. */
  lemma {:induction false} OutSound<V>(s: Store<V>, own: Table, m: map<int, V>, c: PageId, start: Option<U64>,
                                       end: Option<U64>)
    requires Inv(s, own, own, m) && LinkOk(s, own, c)
    requires c != 0 && start.Some? ==> start.value < own[c].hi
    ensures Slice(m, Out(s, own, m, c, start, end), From(own, c), TOP, start, end)
    decreases TOP - From(own, c)
  {
    if c != 0 {
      NextLeaf(s, own, m, c);
      var load := Load(s.pages[c].entries, start, end);
      LoadedSlice(s.pages[c], own[c], m, start, end);
      if !load.1 {
        OutSound(s, own, m, s.pages[c].next, None, end);
        JoinSlices(m, load.0, Out(s, own, m, s.pages[c].next, None, end), own[c].lo, own[c].hi, TOP, start, end);
      }
    }
  }

  ghost predicate Complete<V(!new)>(m: map<int, V>, out: seq<Entry<V>>, from: int, start: Option<U64>,
                                    end: Option<U64>) {
    forall e {:trigger Wanted(m, e, start, end)} :: Wanted(m, e, start, end) && from <= e.key ==> e in out
  }

  /** A leaf the end key cuts short: the scan is complete exactly when it yields all it buffered. */
  lemma CutLeaf<V(!new)>(p: Page<V>, n: Node, m: map<int, V>, start: Option<U64>, end: Option<U64>)
    requires LeafOk(p, n, m) && Load(p.entries, start, end).1
    ensures var b := Load(p.entries, start, end).0;
      Complete(m, b[..if b == [] then 0 else 1], n.lo, start, end) <==> |b| < 2
  {
    var b := Load(p.entries, start, end).0;
    LoadCut(p.entries, start, end);
    LoadSorted(p.entries, start, end);
    forall e: Entry<V> | Wanted(m, e, start, end) && n.lo <= e.key
      ensures e in b
    {
      LeafHolds(p, n, m, e);
      LoadKeeps(p.entries, start, end, e);
    }
    if |b| >= 2 {
      LoadKeeps(p.entries, start, end, b[1]);
      LeafHolds(p, n, m, b[1]);
      assert Wanted(m, b[1], start, end) && b[1] !in b[..1];
    }
  }

  /** The scan yields every wanted entry if and only if no leaf is cut short with two or more wanted entries. */
  lemma {:induction false} OutComplete<V(!new)>(s: Store<V>, own: Table, m: map<int, V>, c: PageId, start: Option<U64>,
                                                end: Option<U64>)
    requires Inv(s, own, own, m) && LinkOk(s, own, c)
    requires c != 0 && start.Some? ==> start.value < own[c].hi
    ensures Complete(m, Out(s, own, m, c, start, end), From(own, c), start, end) <==>
      !CutShort(s, own, m, c, start, end)
    decreases TOP - From(own, c)
  {
    if c == 0 {
      assert From(own, c) == TOP;
    } else {
      NextLeaf(s, own, m, c);
      if Load(s.pages[c].entries, start, end).1 {
        CutLeaf(s.pages[c], own[c], m, start, end);
      } else {
        OutComplete(s, own, m, s.pages[c].next, None, end);
        UncutLeaf(s, own, m, c, start, end);
      }
    }
  }

  /** Two entries in range followed by one beyond the end key. */
  predicate CutAt<V>(es: seq<Entry<V>>, i: nat, start: Option<U64>, end: Option<U64>) {
    i + 2 < |es| && InRange(es[i].key, start, end) && InRange(es[i + 1].key, start, end) && end.Some? &&
      end.value < es[i + 2].key
  }

  /** Among the live leaves from `from` on, one holds two entries in range and one beyond the end key. */
  ghost predicate Straddled<V>(s: Store<V>, own: Table, from: int, start: Option<U64>, end: Option<U64>) {
    exists q, i {:trigger CutAt(s.pages[q].entries, i, start, end)} ::
      LeafAt(s.pages, own, q) && from <= own[q].lo && CutAt(s.pages[q].entries, i, start, end)
  }

  /** A leaf cut short buffered two entries or more exactly if two in range are followed by one beyond the end key. */
  lemma {:induction false} CutTwoIff<V>(es: seq<Entry<V>>, start: Option<U64>, end: Option<U64>)
    requires Sorted(es) && Load(es, start, end).1
    ensures |Load(es, start, end).0| >= 2 <==> exists i :: CutAt(es, i, start, end)
  {
    var rest := es[1..];
    if start.Some? && es[0].key < start.value {
      CutTwoIff(rest, start, end);
      CutLater(es, start, end);
    } else if !(end.Some? && es[0].key > end.value) {
      CutTwoIff(rest, start, end);
      CutLater(es, start, end);
      if |Load(rest, start, end).0| == 1 {
        assert es[1] == rest[0] && es[2] == rest[1] == rest[1..][0];
        assert CutAt(es, 0, start, end);
      }
    }
  }

  lemma CutLater<V>(es: seq<Entry<V>>, start: Option<U64>, end: Option<U64>)
    requires es != []
    ensures (exists i :: CutAt(es, i, start, end)) <==>
      CutAt(es, 0, start, end) || exists i :: CutAt(es[1..], i, start, end)
  {
    forall i: nat
      ensures CutAt(es, i + 1, start, end) <==> CutAt(es[1..], i, start, end)
    {
    }
    if i: nat :| CutAt(es, i, start, end) && i > 0 { assert CutAt(es[1..], i - 1, start, end); }
    if i: nat :| CutAt(es[1..], i, start, end) { assert CutAt(es, i + 1, start, end); }
  }

  /** The leaves from `c` on are `c` and those behind it, which hold larger keys. */
  lemma StraddledFrom<V>(s: Store<V>, own: Table, m: map<int, V>, c: PageId, start: Option<U64>, end: Option<U64>)
    requires Inv(s, own, own, m) && LeafAt(s.pages, own, c) && (start.Some? ==> start.value < own[c].hi)
    ensures Straddled(s, own, own[c].lo, start, end) <==>
      (exists i :: CutAt(s.pages[c].entries, i, start, end)) || Straddled(s, own, own[c].hi, None, end)
    ensures Load(s.pages[c].entries, start, end).1 ==> !Straddled(s, own, own[c].hi, None, end)
    ensures !Load(s.pages[c].entries, start, end).1 ==> !exists i :: CutAt(s.pages[c].entries, i, start, end)
  {
    NextLeaf(s, own, m, c);
    var es := s.pages[c].entries;
    LoadCut(es, start, end);
    forall q | LeafAt(s.pages, own, q) && own[c].lo <= own[q].lo
      ensures LeafOk(s.pages[q], own[q], m) && (q != c ==> own[c].hi <= own[q].lo)
    {
      assert PageOk(s.pages, own, own, m, q) && Separate(own, q, c);
    }
    forall q, i: nat | LeafAt(s.pages, own, q) && own[c].hi <= own[q].lo && i + 2 < |s.pages[q].entries|
      ensures CutAt(s.pages[q].entries, i, start, end) <==> CutAt(s.pages[q].entries, i, None, end)
      ensures Load(es, start, end).1 ==> !CutAt(s.pages[q].entries, i, None, end)
    {
      assert own[q].lo <= s.pages[q].entries[i].key && own[q].lo <= s.pages[q].entries[i + 1].key;
    }
  }

  /** The leaf where the scan is cut short needs no replay to find: it is one that holds two entries in range and one
      beyond the end key. */
  lemma {:induction false} CutShortIff<V>(s: Store<V>, own: Table, m: map<int, V>, c: PageId, start: Option<U64>,
                                          end: Option<U64>)
    requires Inv(s, own, own, m) && LinkOk(s, own, c)
    requires c != 0 && start.Some? ==> start.value < own[c].hi
    ensures CutShort(s, own, m, c, start, end) <==> Straddled(s, own, From(own, c), start, end)
    decreases TOP - From(own, c)
  {
    hide Inv, Straddled, LeafOk;
    if c == 0 {
      NoLeafAbove(s, own, m, start, end);
    } else {
      NextLeaf(s, own, m, c);
      StraddledFrom(s, own, m, c, start, end);
      if Load(s.pages[c].entries, start, end).1 {
        LeafIsSorted(s.pages[c], own[c], m);
        CutTwoIff(s.pages[c].entries, start, end);
      } else {
        CutShortIff(s, own, m, s.pages[c].next, None, end);
      }
    }
  }

  lemma NoLeafAbove<V>(s: Store<V>, own: Table, m: map<int, V>, start: Option<U64>, end: Option<U64>)
    requires Inv(s, own, own, m)
    ensures 0 !in own && !Straddled(s, own, TOP, start, end)
  {
    forall q | LeafAt(s.pages, own, q)
      ensures own[q].lo < TOP
    {
      assert PageOk(s.pages, own, own, m, q);
    }
  }

  lemma LeafIsSorted<V>(p: Page<V>, n: Node, m: map<int, V>)
    requires LeafOk(p, n, m)
    ensures Sorted(p.entries)
  {
  }

  ghost function ThreeKeys(): Store<int> {
    Store(1, map[1 := Leaf([Entry(1, 7), Entry(2, 8), Entry(3, 9)], 0, 0)], 2)
  }

  lemma ThreeKeysOk()
    ensures Inv(ThreeKeys(), map[1 := Node(0, TOP, 0)], map[1 := Node(0, TOP, 0)], map[1 := 7, 2 := 8, 3 := 9])
  {
    hide LeafOk;
    var own: Table, m: map<int, int> := map[1 := Node(0, TOP, 0)], map[1 := 7, 2 := 8, 3 := 9];
    ThreeKeysLeaf();
    assert PageOk(ThreeKeys().pages, own, own, m, 1);
    assert LinksOk(ThreeKeys().pages, own, 1);
  }

  lemma ThreeKeysLeaf()
    ensures LeafOk(ThreeKeys().pages[1], Node(0, TOP, 0), map[1 := 7, 2 := 8, 3 := 9])
  {
    var m: map<int, int> := map[1 := 7, 2 := 8, 3 := 9];
    var es := ThreeKeys().pages[1].entries;
    assert es[0].key == 1 && es[1].key == 2 && es[2].key == 3;
    assert HasKey(es, 1) && HasKey(es, 2) && HasKey(es, 3);
    assert Agrees(m, Node(0, TOP, 0), es);
  }

  lemma ThreeKeysLoad()
    ensures var load := Load(ThreeKeys().pages[1].entries, None, Some(2));
      load.0 == [Entry(1, 7), Entry(2, 8)] && load.1
  {
    var es := ThreeKeys().pages[1].entries;
    var none: Option<U64>, two: Option<U64> := None, Some(2);
    var tail: seq<Entry<int>>, last: seq<Entry<int>> := [Entry(2, 8), Entry(3, 9)], [Entry(3, 9)];
    assert es[0] == Entry(1, 7) && es[1] == Entry(2, 8) && es[2] == Entry(3, 9);
    assert tail[1..] == last && es[1..] == tail;
    assert Load(last, none, two).0 == [] && Load(last, none, two).1;
    assert Load(tail, none, two).0 == [Entry(2, 8)] && Load(tail, none, two).1;
  }

  /** One leaf with keys 1, 2 and 3: a scan up to key 2 yields key 1 and stops. */
  lemma EndKeyDropsEntry()
    ensures var own: Table, m: map<int, int> := map[1 := Node(0, TOP, 0)], map[1 := 7, 2 := 8, 3 := 9];
      && Inv(ThreeKeys(), own, own, m) && LinkOk(ThreeKeys(), own, 1)
      && Wanted(m, Entry(2, 8), None, Some(2))
      && Out(ThreeKeys(), own, m, 1, None, Some(2)) == [Entry(1, 7)]
  {
    hide Inv, Load;
    ThreeKeysOk();
    ThreeKeysLoad();
  }

  lemma UncutLeaf<V(!new)>(s: Store<V>, own: Table, m: map<int, V>, c: PageId, start: Option<U64>, end: Option<U64>)
    requires Inv(s, own, own, m) && LeafAt(s.pages, own, c)
    requires start.Some? ==> start.value < own[c].hi
    requires !Load(s.pages[c].entries, start, end).1
    ensures LinkOk(s, own, s.pages[c].next)
    ensures Complete(m, Out(s, own, m, c, start, end), own[c].lo, start, end)
       <==> Complete(m, Out(s, own, m, s.pages[c].next, None, end), own[c].hi, None, end)
  {
    NextLeaf(s, own, m, c);
    var p, next := s.pages[c], s.pages[c].next;
    var b, rest := Load(p.entries, start, end).0, Out(s, own, m, next, None, end);
    assert Out(s, own, m, c, start, end) == b + rest;
    forall e | Wanted(m, e, start, end) && own[c].lo <= e.key < own[c].hi
      ensures e in b
    {
      LeafHolds(p, own[c], m, e);
      LoadKeeps(p.entries, start, end, e);
    }
    forall e | e in b
      ensures e.key < own[c].hi
    {
      LoadKeeps(p.entries, start, end, e);
    }
    forall e: Entry<V> | own[c].hi <= e.key
      ensures Wanted(m, e, start, end) <==> Wanted(m, e, None, end)
    {
    }
  }

  /** Without an end key, or with one no stored key exceeds, no leaf is ever cut short. */
  lemma {:induction false} NeverCut<V>(s: Store<V>, own: Table, m: map<int, V>, c: PageId, start: Option<U64>,
                                       end: Option<U64>)
    requires Inv(s, own, own, m) && LinkOk(s, own, c)
    requires end.Some? ==> forall k :: k in m ==> k <= end.value
    ensures !CutShort(s, own, m, c, start, end)
    decreases TOP - From(own, c)
  {
    if c != 0 {
      NextLeaf(s, own, m, c);
      LoadCut(s.pages[c].entries, start, end);
      NeverCut(s, own, m, s.pages[c].next, None, end);
    }
  }
}
