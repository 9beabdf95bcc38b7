/** The steps the B+tree operations are made of, and that each keeps the invariant. */
module BTreeSteps {
  import opened SortedEntries
  import opened BTreeTheory

  // ---------------------------------------------------------------- leaf steps

  function InsertLeaf<V>(s: Store<V>, id: PageId, e: Entry<V>): Store<V>
    requires id in s.pages && s.pages[id].Leaf?
  {
    var p := s.pages[id];
    s.(pages := s.pages[id := p.(entries := InsertSorted(p.entries, e))])
  }

  function DeleteLeaf<V>(s: Store<V>, id: PageId, i: nat): Store<V>
    requires id in s.pages && s.pages[id].Leaf? && i < |s.pages[id].entries|
  {
    var p := s.pages[id];
    s.(pages := s.pages[id := p.(entries := RemoveAt(p.entries, i))])
  }

  /** A page split: the store afterwards, the fresh page and the separator between the two. */
  datatype Split<V> = Split(store: Store<V>, right: PageId, sep: U64)

  function SetPrev<V>(pages: map<PageId, Page<V>>, id: PageId, prev: PageId): map<PageId, Page<V>> {
    if id in pages && pages[id].Leaf? then pages[id := pages[id].(prev := prev)] else pages
  }

  /** Split a leaf around its midpoint with `e` merged in; the upper half moves to a fresh page. */
  function SplitLeaf<V>(s: Store<V>, id: PageId, e: Entry<V>): Split<V>
    requires id in s.pages && s.pages[id].Leaf?
  {
    var p := s.pages[id];
    var es := InsertSorted(p.entries, e);
    var mid := |es| / 2;
    var right := s.nextId;
    var pages := s.pages[right := Leaf(es[mid..], p.next, id)][id := Leaf(es[..mid], right, p.prev)];
    Split(Store(s.root, SetPrev(pages, p.next, right), s.nextId + 1), right, es[mid].key)
  }

  ghost function SplitTable(own: Table, left: PageId, right: PageId, sep: int): Table
    requires left in own
  {
    own[left := own[left].(hi := sep)][right := own[left].(lo := sep)]
  }

  /** Two maps that differ at most inside the key range of `n`. */
  ghost predicate SameOutside<V>(m: map<int, V>, m': map<int, V>, n: Node) {
    && (forall k :: k in m && !(n.lo <= k < n.hi) ==> k in m' && m'[k] == m[k])
    && (forall k :: k in m' && !(n.lo <= k < n.hi) ==> k in m && m'[k] == m[k])
  }

  /** A leaf whose range lies outside the changed one is untouched by the change. */
  lemma LeafOkElsewhere<V>(p: Page<V>, q: Page<V>, n: Node, m: map<int, V>, m': map<int, V>, changed: Node)
    requires LeafOk(p, n, m) && SameOutside(m, m', changed) && Apart(n, changed)
    requires q.Leaf? && q.entries == p.entries
    ensures LeafOk(q, n, m')
  {
  }

  lemma AgreesInsert<V>(m: map<int, V>, n: Node, es: seq<Entry<V>>, e: Entry<V>)
    requires Agrees(m, n, es) && Sorted(es) && e.key !in m
    ensures !Found(es, e.key)
    ensures Agrees(m[e.key := e.value], n, InsertSorted(es, e))
  {
    FoundIsHasKey(es, e.key);
    assert !HasKey(es, e.key);
    InsertSortedOk(es, e);
    var r := InsertSorted(es, e);
    var pos := Below(es, e.key);
    forall i | 0 <= i < |r|
      ensures r[i].key in m[e.key := e.value] && m[e.key := e.value][r[i].key] == r[i].value
    {
      assert r[i] == if i < pos then es[i] else if i == pos then e else es[i - 1];
    }
  }

  lemma AgreesDelete<V>(m: map<int, V>, n: Node, es: seq<Entry<V>>, i: nat)
    requires Agrees(m, n, es) && Sorted(es) && i < |es|
    ensures Agrees(m - {es[i].key}, n, RemoveAt(es, i))
  {
    RemoveAtOk(es, i);
    var r := RemoveAt(es, i);
    forall j | 0 <= j < |r|
      ensures r[j].key in m - {es[i].key} && (m - {es[i].key})[r[j].key] == r[j].value
    {
      assert r[j] == es[if j < i then j else j + 1];
    }
  }

  /** Rewriting the entries of one leaf, with the map changed only inside its range. */
  lemma RewriteLeafOk<V>(s: Store<V>, s': Store<V>, own: Table, m: map<int, V>, m': map<int, V>, id: PageId)
    requires Inv(s, own, own, m) && id in own && s.pages[id].Leaf? && id in s'.pages && s'.pages[id].Leaf?
    requires s' == s.(pages := s.pages[id := s.pages[id].(entries := s'.pages[id].entries)])
    requires LeafOk(s'.pages[id], own[id], m') && SameOutside(m, m', own[id])
    ensures Inv(s', own, own, m')
  {
    forall q | q in own
      ensures PageOk(s'.pages, own, own, m', q)
    {
      assert PageOk(s.pages, own, own, m, q);
      if q != id && s.pages[q].Leaf? {
        assert Separate(own, q, id) && PageOk(s.pages, own, own, m, id);
        LeafOkElsewhere(s.pages[q], s'.pages[q], own[q], m, m', own[id]);
      }
    }
    forall q | q in own
      ensures LinksOk(s'.pages, own, q)
    {
      assert LinksOk(s.pages, own, q);
    }
    forall k | k in m'
      ensures 0 <= k < TOP
    {
      assert PageOk(s.pages, own, own, m, id);
    }
  }

  /** A leaf with room takes a fresh key: the tree gains exactly that pair. */
  lemma InsertLeafOk<V>(s: Store<V>, own: Table, m: map<int, V>, id: PageId, e: Entry<V>)
    requires Inv(s, own, own, m) && id in own && s.pages[id].Leaf?
    requires own[id].lo <= e.key < own[id].hi && e.key !in m && |s.pages[id].entries| < LEAF_MAX
    ensures Inv(InsertLeaf(s, id, e), own, own, m[e.key := e.value])
  {
    assert PageOk(s.pages, own, own, m, id);
    InsertEntryOk(s.pages[id].entries, own[id], m, e);
    RewriteLeafOk(s, InsertLeaf(s, id, e), own, m, m[e.key := e.value], id);
  }

  lemma InsertEntryOk<V>(es: seq<Entry<V>>, n: Node, m: map<int, V>, e: Entry<V>)
    requires Sorted(es) && Agrees(m, n, es) && n.lo <= e.key < n.hi && e.key !in m
    requires forall i :: 0 <= i < |es| ==> n.lo <= es[i].key < n.hi
    ensures var r := InsertSorted(es, e);
      && Sorted(r) && Agrees(m[e.key := e.value], n, r) && |r| == |es| + 1
      && forall i :: 0 <= i < |r| ==> n.lo <= r[i].key < n.hi
  {
    AgreesInsert(m, n, es, e);
    InsertSortedOk(es, e);
    var r, pos := InsertSorted(es, e), Below(es, e.key);
    forall i | 0 <= i < |r|
      ensures n.lo <= r[i].key < n.hi
    {
      assert r[i] == if i < pos then es[i] else if i == pos then e else es[i - 1];
    }
  }

  /** Deleting a slot removes exactly that pair. */
  lemma DeleteLeafOk<V>(s: Store<V>, own: Table, m: map<int, V>, id: PageId, i: nat)
    requires Inv(s, own, own, m) && id in own && s.pages[id].Leaf? && i < |s.pages[id].entries|
    ensures Inv(DeleteLeaf(s, id, i), own, own, m - {s.pages[id].entries[i].key})
  {
    assert PageOk(s.pages, own, own, m, id);
    var es := s.pages[id].entries;
    AgreesDelete(m, own[id], es, i);
    RemoveAtOk(es, i);
    RewriteLeafOk(s, DeleteLeaf(s, id, i), own, m, m - {es[i].key}, id);
  }

  // ---------------------------------------------------------------- leaf split

  lemma HalvesOk<V>(r: seq<Entry<V>>, n: Node, m: map<int, V>, mid: nat)
    requires Sorted(r) && Agrees(m, n, r) && 0 < mid < |r|
    requires forall i :: 0 <= i < |r| ==> n.lo <= r[i].key < n.hi
    ensures n.lo < r[mid].key < n.hi
    ensures Agrees(m, n.(hi := r[mid].key), r[..mid]) && Agrees(m, n.(lo := r[mid].key), r[mid..])
    ensures Sorted(r[..mid]) && Sorted(r[mid..])
  {
    assert r[0].key < r[mid].key;
    LowerHalf(r, n, m, mid);
    UpperHalf(r, n, m, mid);
  }

  lemma LowerHalf<V>(r: seq<Entry<V>>, n: Node, m: map<int, V>, mid: nat)
    requires Sorted(r) && Agrees(m, n, r) && 0 < mid < |r| && r[mid].key < n.hi
    ensures Agrees(m, n.(hi := r[mid].key), r[..mid])
  {
    forall k | k in m && n.lo <= k < r[mid].key
      ensures HasKey(r[..mid], k)
    {
      assert HasKey(r, k);
      var i :| 0 <= i < |r| && r[i].key == k;
      assert r[..mid][i].key == k;
    }
  }

  lemma UpperHalf<V>(r: seq<Entry<V>>, n: Node, m: map<int, V>, mid: nat)
    requires Sorted(r) && Agrees(m, n, r) && 0 < mid < |r| && n.lo <= r[mid].key
    ensures Agrees(m, n.(lo := r[mid].key), r[mid..])
  {
    forall k | k in m && r[mid].key <= k < n.hi
      ensures HasKey(r[mid..], k)
    {
      assert HasKey(r, k);
      var i :| 0 <= i < |r| && r[i].key == k;
      assert r[mid..][i - mid].key == k;
    }
  }

  /** Both halves of a full leaf with one entry more are leaves of their part of the range. */
  lemma LeafHalves<V>(p: Page<V>, n: Node, m: map<int, V>, e: Entry<V>, right: PageId, left: PageId)
    requires LeafOk(p, n, m) && |p.entries| == LEAF_MAX && n.lo <= e.key < n.hi && e.key !in m
    ensures var es := InsertSorted(p.entries, e);
      && |es| == LEAF_MAX + 1 && n.lo < es[|es| / 2].key < n.hi
      && LeafOk(Leaf(es[..|es| / 2], right, p.prev), n.(hi := es[|es| / 2].key), m[e.key := e.value])
      && LeafOk(Leaf(es[|es| / 2..], p.next, left), n.(lo := es[|es| / 2].key), m[e.key := e.value])
  {
    var es := InsertSorted(p.entries, e);
    InsertEntryOk(p.entries, n, m, e);
    HalvesOk(es, n, m[e.key := e.value], |es| / 2);
  }

  /** What splitting a live leaf rests on. */
  lemma SplitLeafReady<V>(s: Store<V>, own: Table, m: map<int, V>, id: PageId)
    requires Inv(s, own, own, m) && id in own && s.pages[id].Leaf?
    ensures LeafOk(s.pages[id], own[id], m) && LeafAt(s.pages, own, id) && Numbered(s)
    ensures s.nextId !in own && s.pages[id].next != id && s.pages[id].next != s.nextId
    ensures forall q :: q in own ==> q in s.pages
  {
    assert PageOk(s.pages, own, own, m, id) && LinksOk(s.pages, own, id);
  }

  /** Splitting a full leaf around a fresh key adds that pair and leaves one separator pending;
      the parents' view is still the old table. */
  lemma SplitLeafOk<V>(s: Store<V>, own: Table, m: map<int, V>, id: PageId, e: Entry<V>)
    requires Inv(s, own, own, m) && id in own && s.pages[id].Leaf?
    requires own[id].lo <= e.key < own[id].hi && e.key !in m && |s.pages[id].entries| == LEAF_MAX
    ensures var Split(s', right, sep) := SplitLeaf(s, id, e);
      && right == s.nextId && own[id].lo < sep < own[id].hi
      && Pending(s', SplitTable(own, id, right, sep), own, m[e.key := e.value], id, right, sep)
  {
    hide Inv, LeafOk, SplicedElsewhere, Numbered, InsertSorted, Fuse;
    SplitLeafReady(s, own, m, id);
    var m' := m[e.key := e.value];
    var Split(s', right, sep) := SplitLeaf(s, id, e);
    LeafHalves(s.pages[id], own[id], m, e, right, id);
    SplitLeafShape(s, own, id, e);
    SpliceOk(s, s', own, m, m', id, right, sep);
    FuseSplit(own, id, right, sep);
  }

  lemma InsertSame<T>(es: seq<Entry<T>>, e: Entry<T>)
    ensures |InsertSorted(es, e)| == |es| + 1 && multiset(InsertSorted(es, e)) == multiset(es) + multiset{e}
  {
    var pos := Below(es, e.key);
    assert es == es[..pos] + es[pos..];
  }

  /** A full leaf and one entry more split evenly: 127 entries stay, 127 move behind the separator, none is lost. */
  lemma SplitLeafEven<V>(s: Store<V>, own: Table, m: map<int, V>, id: PageId, e: Entry<V>)
    requires Inv(s, own, own, m) && id in own && s.pages[id].Leaf? && |s.pages[id].entries| == LEAF_MAX
    ensures var Split(s', right, sep) := SplitLeaf(s, id, e);
      && id in s'.pages && right in s'.pages && s'.pages[id].Leaf? && s'.pages[right].Leaf?
      && var stay, move := s'.pages[id].entries, s'.pages[right].entries;
        && |stay| == 127 && |move| == 127 && sep == move[0].key
        && multiset(stay) + multiset(move) == multiset(s.pages[id].entries) + multiset{e}
  {
    hide Inv, LeafOk, SplicedElsewhere, InsertSorted;
    SplitLeafReady(s, own, m, id);
    SplitLeafShape(s, own, id, e);
    var es := InsertSorted(s.pages[id].entries, e);
    InsertSame(s.pages[id].entries, e);
    assert es == es[..127] + es[127..];
  }

  /** Parents that see the two halves as one see the page as it was. */
  lemma FuseSplit(own: Table, id: PageId, right: PageId, sep: int)
    requires id in own && right !in own
    ensures Fuse(SplitTable(own, id, right, sep), id, right) == own
  {
  }

  lemma SplitLeafShape<V>(s: Store<V>, own: Table, id: PageId, e: Entry<V>)
    requires LeafAt(s.pages, own, id) && s.nextId !in own && s.pages[id].next != id && s.pages[id].next != s.nextId
    requires Numbered(s) && forall q :: q in own ==> q in s.pages
    ensures var Split(s', right, sep) := SplitLeaf(s, id, e);
      var p, es := s.pages[id], InsertSorted(s.pages[id].entries, e);
      && s'.root == s.root && s'.nextId == s.nextId + 1 && Numbered(s')
      && id in s'.pages && s'.pages[id] == Leaf(es[..|es| / 2], right, p.prev)
      && right in s'.pages && s'.pages[right] == Leaf(es[|es| / 2..], p.next, id)
      && SplicedElsewhere(s.pages, s'.pages, own, id, right)
  {
  }

  /** Away from `id` and the fresh page only one link changes: the old right sibling now points back at `right`. */
  ghost predicate SplicedElsewhere<V>(pages: map<PageId, Page<V>>, pages': map<PageId, Page<V>>, own: Table, id: PageId,
                                      right: PageId)
    requires LeafAt(pages, own, id) && forall q :: q in own ==> q in pages
  {
    forall q :: q in own && q != id ==>
      (q in pages' && pages'[q] == if q == pages[id].next then SetPrev(pages, q, right)[q] else pages[q])
  }

  /** Any splice of a fresh leaf after `id` that divides its range at `sep` leaves that separator pending. */
  lemma SpliceOk<V>(s: Store<V>, s': Store<V>, own: Table, m: map<int, V>, m': map<int, V>, id: PageId, right: PageId,
                    sep: int)
    requires Inv(s, own, own, m) && id in own && s.pages[id].Leaf? && own[id].lo < sep < own[id].hi
    requires right == s.nextId && s'.nextId == s.nextId + 1 && s'.root == s.root && Numbered(s')
    requires id in s'.pages && right in s'.pages && SameOutside(m, m', own[id])
    requires LeafOk(s'.pages[id], own[id].(hi := sep), m') && LeafOk(s'.pages[right], own[id].(lo := sep), m')
    requires s'.pages[id].next == right && s'.pages[id].prev == s.pages[id].prev
    requires s'.pages[right].next == s.pages[id].next && s'.pages[right].prev == id
    requires SplicedElsewhere(s.pages, s'.pages, own, id, right)
    ensures Inv(s', SplitTable(own, id, right, sep), own, m')
  {
    hide LeafOk, InnerOk, Disjoint, SplicedElsewhere;
    var own' := SplitTable(own, id, right, sep);
    LeafSpan(s, own, m, id);
    IsLeaf(s'.pages[id], own[id].(hi := sep), m');
    IsLeaf(s'.pages[right], own[id].(lo := sep), m');
    forall q | q in own'
      ensures PageOk(s'.pages, own', own, m', q)
    {
      SplicedPage(s, s', own, m, m', id, right, sep, q);
    }
    forall q | q in own
      ensures 0 <= own[q].lo < own[q].hi <= TOP
    {
      assert PageOk(s.pages, own, own, m, q);
    }
    SplitLinksOk(s.pages, s'.pages, own, own', id, right, sep);
    SplitDisjoint(own, id, right, sep);
    forall k | k in m'
      ensures 0 <= k < TOP
    {
      if !(own[id].lo <= k < own[id].hi) { assert k in m; }
    }
  }

  lemma IsLeaf<V>(p: Page<V>, n: Node, m: map<int, V>)
    requires LeafOk(p, n, m)
    ensures p.Leaf?
  {
  }

  lemma IsInner<V>(p: Page<V>, n: Node, view: Table)
    requires InnerOk(p, n, view)
    ensures p.Inner? && n.height > 0
  {
  }

  lemma LeafSpan<V>(s: Store<V>, own: Table, m: map<int, V>, id: PageId)
    requires Inv(s, own, own, m) && id in own && s.pages[id].Leaf?
    ensures 0 <= own[id].lo < own[id].hi <= TOP && own[id].height == 0 && LinksOk(s.pages, own, id)
  {
    assert PageOk(s.pages, own, own, m, id);
  }

  lemma SplicedPage<V>(s: Store<V>, s': Store<V>, own: Table, m: map<int, V>, m': map<int, V>, id: PageId,
                       right: PageId,
                       sep: int, q: PageId)
    requires Inv(s, own, own, m) && id in own && s.pages[id].Leaf? && own[id].lo < sep < own[id].hi
    requires right == s.nextId && s'.nextId == s.nextId + 1 && s'.root == s.root && Numbered(s')
    requires id in s'.pages && right in s'.pages && SameOutside(m, m', own[id])
    requires LeafOk(s'.pages[id], own[id].(hi := sep), m') && LeafOk(s'.pages[right], own[id].(lo := sep), m')
    requires s'.pages[id].next == right && s'.pages[id].prev == s.pages[id].prev
    requires s'.pages[right].next == s.pages[id].next && s'.pages[right].prev == id
    requires SplicedElsewhere(s.pages, s'.pages, own, id, right)
    requires q in SplitTable(own, id, right, sep)
    ensures PageOk(s'.pages, SplitTable(own, id, right, sep), own, m', q)
  {
    LeafSpan(s, own, m, id);
    if q != id && q != right {
      assert PageOk(s.pages, own, own, m, q);
      if s.pages[q].Leaf? {
        assert Separate(own, q, id);
        LeafOkElsewhere(s.pages[q], s'.pages[q], own[q], m, m', own[id]);
      }
    }
  }

  lemma SplitDisjoint(own: Table, id: PageId, right: PageId, sep: int)
    requires Disjoint(own) && id in own && right !in own && own[id].lo < sep < own[id].hi
    ensures Disjoint(SplitTable(own, id, right, sep))
  {
    var own' := SplitTable(own, id, right, sep);
    forall p, q | p in own' && q in own'
      ensures Separate(own', p, q)
    {
      assert Separate(own, if p == right then id else p, if q == right then id else q);
    }
  }

  /** Splicing a fresh page in after `id` keeps the sibling chain. */
  lemma SplitLinksOk<V>(pages: map<PageId, Page<V>>, pages': map<PageId, Page<V>>, own: Table, own': Table, id: PageId,
                        right: PageId, sep: int)
    requires LeafAt(pages, own, id) && own[id].lo < sep < own[id].hi && right !in own && 0 !in own && right != 0
    requires forall q {:trigger LinksOk(pages, own, q)} :: q in own ==> LinksOk(pages, own, q)
    requires forall q :: q in own ==> q in pages && 0 <= own[q].lo < own[q].hi <= TOP
    requires own' == SplitTable(own, id, right, sep)
    requires id in pages' && right in pages' && pages'[id].Leaf? && pages'[right].Leaf?
    requires pages'[id].next == right && pages'[id].prev == pages[id].prev
    requires pages'[right].next == pages[id].next && pages'[right].prev == id
    requires SplicedElsewhere(pages, pages', own, id, right)
    ensures forall q {:trigger LinksOk(pages', own', q)} :: q in own' ==> LinksOk(pages', own', q)
  {
    var next := pages[id].next;
    assert LinksOk(pages, own, id);
    assert next != 0 ==> LinksOk(pages, own, next);
    forall q | q in own'
      ensures LinksOk(pages', own', q)
    {
      if q != id && q != right && pages[q].Leaf? {
        assert LinksOk(pages, own, q);
        if q == next {
          assert own'[right].hi == own'[q].lo && pages'[right].next == q;
        }
      }
    }
  }

  // ---------------------------------------------------------------- separators

  function AddSep<V>(s: Store<V>, parent: PageId, sep: U64, child: PageId): Store<V>
    requires parent in s.pages && s.pages[parent].Inner?
  {
    var p := s.pages[parent];
    s.(pages := s.pages[parent := p.(seps := InsertSorted(p.seps, Entry(sep, child)))])
  }

  /** Split an inner page with a separator merged in: the middle one is pushed up. */
  function SplitInner<V>(s: Store<V>, id: PageId, sep: U64, child: PageId): Split<V>
    requires id in s.pages && s.pages[id].Inner?
  {
    var p := s.pages[id];
    var es := InsertSorted(p.seps, Entry(sep, child));
    var mid := |es| / 2;
    var right := s.nextId;
    Split(Store(s.root, s.pages[right := Inner(es[mid].value, es[mid + 1..])][id := Inner(p.leftmost, es[..mid])],
      s.nextId + 1),
          right, es[mid].key)
  }

  function NewRoot<V>(s: Store<V>, sep: U64, child: PageId): Store<V> {
    Store(s.nextId, s.pages[s.nextId := Inner(s.root, [Entry(sep, child)])], s.nextId + 1)
  }

  ghost predicate IsChild<V>(pages: map<PageId, Page<V>>, parent: PageId, i: nat, c: PageId) {
    parent in pages && pages[parent].Inner? && i <= |pages[parent].seps| && Child(pages[parent], i) == c
  }

  /** Every page but the split one's parent already sees both halves as they are. */
  lemma OthersSee<V>(s: Store<V>, own: Table, view: Table, m: map<int, V>, left: PageId, right: PageId, sep: int,
                     q: PageId)
    requires Pending(s, own, view, m, left, right, sep) && q in own && s.pages[q].Inner?
    requires forall i :: 0 <= i <= |s.pages[q].seps| ==> Child(s.pages[q], i) != left
    ensures InnerFit(s.pages[q], own[q], own)
  {
    assert PageOk(s.pages, own, view, m, q);
    forall i | 0 <= i <= |s.pages[q].seps|
      ensures ChildOk(s.pages[q], own[q], own, i)
    {
      assert ChildOk(s.pages[q], own[q], view, i);
    }
  }

  /** The pending separator belongs right after the slot of the page that split. */
  lemma PendingSlot<V>(s: Store<V>, own: Table, view: Table, m: map<int, V>, left: PageId, right: PageId, sep: U64,
                       parent: PageId, i: nat)
    requires Pending(s, own, view, m, left, right, sep) && parent in own && IsChild(s.pages, parent, i, left)
    ensures var p, n := s.pages[parent], own[parent];
      && InnerOk(p, n, view) && ChildOk(p, n, view, i)
      && !Found(p.seps, sep) && Below(p.seps, sep) == i
      && n.lo < sep < n.hi && Bound(p, n, i) < sep < Bound(p, n, i + 1)
      && left != s.root && view[s.root] == own[s.root]
  {
    var p, n := s.pages[parent], own[parent];
    assert PageOk(s.pages, own, view, m, parent) && ChildOk(p, n, view, i);
    assert PageOk(s.pages, own, view, m, left) && PageOk(s.pages, own, view, m, right);
    BelowUnique(p.seps, sep, i);
  }

  /** A child slot of the parent with the separator merged in. */
  lemma MergedChild<V>(p: Page<V>, n: Node, own: Table, view: Table, left: PageId, right: PageId, sep: U64, i: nat,
                       j: nat)
    requires p.Inner? && n.height > 0 && i <= |p.seps| && j <= |p.seps| + 1 && Below(p.seps, sep) == i
    requires left in own && right in own && own[left].hi == sep == own[right].lo && view == Fuse(own, left, right)
    requires left != right && own[left].height == own[right].height && Child(p, i) == left
    requires ChildOk(p, n, view, i)
    requires j < i ==> ChildOk(p, n, view, j) && Child(p, j) != left
    requires j > i + 1 ==> ChildOk(p, n, view, j - 1) && Child(p, j - 1) != left
    ensures ChildOk(p.(seps := InsertSorted(p.seps, Entry(sep, right))), n, own, j)
  {
    var es := InsertSorted(p.seps, Entry(sep, right));
    if j > 0 { InsertSortedAt(p.seps, Entry(sep, right), j - 1); }
    if j <= |p.seps| { InsertSortedAt(p.seps, Entry(sep, right), j); }
  }

  /** With the pending separator merged in, the parent describes both halves exactly. */
  lemma MergedSepFits<V>(s: Store<V>, own: Table, view: Table, m: map<int, V>, left: PageId, right: PageId, sep: U64,
                         parent: PageId, i: nat)
    requires Pending(s, own, view, m, left, right, sep) && parent in own && IsChild(s.pages, parent, i, left)
    ensures var p := s.pages[parent];
      InnerFit(p.(seps := InsertSorted(p.seps, Entry(sep, right))), own[parent], own)
  {
    var p, n, e := s.pages[parent], own[parent], Entry(sep, right);
    PendingSlot(s, own, view, m, left, right, sep, parent, i);
    InsertSortedOk(p.seps, e);
    var p' := p.(seps := InsertSorted(p.seps, e));
    forall j | 0 <= j < |p'.seps|
      ensures n.lo < p'.seps[j].key < n.hi
    {
      InsertSortedAt(p.seps, e, j);
    }
    forall j | 0 <= j <= |p'.seps|
      ensures ChildOk(p', n, own, j)
    {
      if j < i || j > i + 1 {
        var k := if j < i then j else j - 1;
        assert ChildOk(p, n, view, k);
        SlotsDiffer(s, own, view, m, parent, k, i);
      }
      MergedChild(p, n, own, view, left, right, sep, i, j);
    }
  }

  lemma OnlyParent<V>(s: Store<V>, own: Table, view: Table, m: map<int, V>, parent: PageId, i: nat, c: PageId,
                      q: PageId)
    requires Inv(s, own, view, m) && parent in own && IsChild(s.pages, parent, i, c) && q in own && s.pages[q].Inner? &&
      q != parent
    ensures forall j :: 0 <= j <= |s.pages[q].seps| ==> Child(s.pages[q], j) != c
  {
    forall j | 0 <= j <= |s.pages[q].seps|
      ensures Child(s.pages[q], j) != c
    {
      if Child(s.pages[q], j) == c { OneParent(s, own, view, m, parent, i, q, j); }
    }
  }

  /** Inserting the pending separator into a parent with room completes the tree. */
  lemma AddSepOk<V>(s: Store<V>, own: Table, view: Table, m: map<int, V>, left: PageId, right: PageId, sep: U64,
                    parent: PageId, i: nat)
    requires Pending(s, own, view, m, left, right, sep) && parent in own && IsChild(s.pages, parent, i, left)
    requires |s.pages[parent].seps| < INNER_MAX
    ensures !Found(s.pages[parent].seps, sep)
    ensures Inv(AddSep(s, parent, sep, right), own, own, m)
  {
    var s' := AddSep(s, parent, sep, right);
    PendingSlot(s, own, view, m, left, right, sep, parent, i);
    MergedSepFits(s, own, view, m, left, right, sep, parent, i);
    forall q | q in own
      ensures PageOk(s'.pages, own, own, m, q)
    {
      assert PageOk(s.pages, own, view, m, q);
      if q != parent && s.pages[q].Inner? {
        OnlyParent(s, own, view, m, parent, i, left, q);
        OthersSee(s, own, view, m, left, right, sep, q);
      }
    }
    InnerRewriteKeepsLinks(s.pages, s'.pages, own, own, parent, parent);
  }

  /** Links speak of leaves only, so rewriting or adding inner pages keeps them. */
  lemma InnerRewriteKeepsLinks<V>(pages: map<PageId, Page<V>>, pages': map<PageId, Page<V>>, own: Table, own': Table,
                                  id: PageId, added: PageId)
    requires forall q :: q in own ==> q in pages
    requires forall q {:trigger LinksOk(pages, own, q)} :: q in own ==> LinksOk(pages, own, q)
    requires own'.Keys == own.Keys + {id, added} && forall q :: q in own && q != id && q != added ==> own'[q] == own[q]
    requires forall q :: q in own && q != id && q != added ==> q in pages' && pages'[q] == pages[q]
    requires id in pages' && pages'[id].Inner? && added in pages' && pages'[added].Inner?
    requires forall q {:trigger LeafAt(pages, own, q)} :: LeafAt(pages, own, q) ==> q != id && q != added
    ensures forall q {:trigger LinksOk(pages', own', q)} :: q in own' ==> LinksOk(pages', own', q)
  {
    forall q | q in own'
      ensures LinksOk(pages', own', q)
    {
      if q != id && q != added && pages[q].Leaf? {
        assert LinksOk(pages, own, q);
      }
    }
  }

  lemma InnerHalvesFit<V>(p: Page<V>, n: Node, view: Table, mid: nat)
    requires p.Inner? && InnerFit(p, n, view) && mid < |p.seps|
    ensures InnerFit(Page<V>.Inner(p.leftmost, p.seps[..mid]), n.(hi := p.seps[mid].key), view)
    ensures InnerFit(Page<V>.Inner(p.seps[mid].value, p.seps[mid + 1..]), n.(lo := p.seps[mid].key), view)
  {
    var l, r := Page<V>.Inner(p.leftmost, p.seps[..mid]), Page<V>.Inner(p.seps[mid].value, p.seps[mid + 1..]);
    forall i | 0 <= i <= mid
      ensures ChildOk(l, n.(hi := p.seps[mid].key), view, i)
    {
      assert ChildOk(p, n, view, i);
    }
    forall i | 0 <= i <= |r.seps|
      ensures ChildOk(r, n.(lo := p.seps[mid].key), view, i)
    {
      assert ChildOk(p, n, view, mid + 1 + i);
    }
  }

  /** Splitting a full parent resolves the pending separator and leaves its own, one level up. */
  lemma SplitInnerOk<V>(s: Store<V>, own: Table, view: Table, m: map<int, V>, left: PageId, right: PageId, sep: U64,
                        parent: PageId, i: nat)
    requires Pending(s, own, view, m, left, right, sep) && parent in own && IsChild(s.pages, parent, i, left)
    requires |s.pages[parent].seps| == INNER_MAX
    ensures !Found(s.pages[parent].seps, sep)
    ensures var Split(s', added, up) := SplitInner(s, parent, sep, right);
      && added == s.nextId && own[parent].lo < up < own[parent].hi
      && Pending(s', SplitTable(own, parent, added, up), own, m, parent, added, up)
  {
    hide Inv, InnerOk, InnerFit, Fuse, ChildOk, InsertSorted;
    var whole := s.pages[parent].(seps := InsertSorted(s.pages[parent].seps, Entry(sep, right)));
    PendingSlot(s, own, view, m, left, right, sep, parent, i);
    MergedSepFits(s, own, view, m, left, right, sep, parent, i);
    InnerHalves(s.pages[parent], own[parent], own, Entry(sep, right));
    var Split(s', added, up) := SplitInner(s, parent, sep, right);
    SplitInnerShape(s, own, view, m, parent, sep, right);
    InnerSpliceOk(s, s', own, view, m, left, right, sep, parent, i, added, up);
    FuseSplit(own, parent, added, up);
  }

  /** A full inner page and one separator more split evenly: 127 separators stay, 127 move, and the one between them
      is pushed up; its child becomes the leftmost child of the fresh page. */
  lemma SplitInnerEven<V>(s: Store<V>, id: PageId, sep: U64, child: PageId)
    requires id in s.pages && s.pages[id].Inner? && |s.pages[id].seps| == INNER_MAX && s.nextId != id
    ensures var Split(s', added, up) := SplitInner(s, id, sep, child);
      && id in s'.pages && added in s'.pages && s'.pages[id].Inner? && s'.pages[added].Inner?
      && s'.pages[id].leftmost == s.pages[id].leftmost
      && var stay, move := s'.pages[id].seps, s'.pages[added].seps;
        && |stay| == 127 && |move| == 127
        && multiset(stay) + multiset{Entry(up, s'.pages[added].leftmost)} + multiset(move) ==
           multiset(s.pages[id].seps) + multiset{Entry(sep, child)}
  {
    hide InsertSorted;
    var es := InsertSorted(s.pages[id].seps, Entry(sep, child));
    InsertSame(s.pages[id].seps, Entry(sep, child));
    assert es == es[..127] + [es[127]] + es[128..];
  }

  /** Both halves of a full inner page with one separator more are inner pages of their part of the range. */
  lemma InnerHalves<V>(p: Page<V>, n: Node, table: Table, e: Entry<PageId>)
    requires p.Inner? && |p.seps| == INNER_MAX && InnerFit(p.(seps := InsertSorted(p.seps, e)), n, table)
    ensures var es := InsertSorted(p.seps, e);
      && |es| == INNER_MAX + 1 && n.lo < es[|es| / 2].key < n.hi
      && InnerOk(Page<V>.Inner(p.leftmost, es[..|es| / 2]), n.(hi := es[|es| / 2].key), table)
      && InnerOk(Page<V>.Inner(es[|es| / 2].value, es[|es| / 2 + 1..]), n.(lo := es[|es| / 2].key), table)
  {
    var whole := p.(seps := InsertSorted(p.seps, e));
    InnerHalvesFit(whole, n, table, |whole.seps| / 2);
  }

  lemma SplitInnerShape<V>(s: Store<V>, own: Table, view: Table, m: map<int, V>, parent: PageId, sep: U64,
                           child: PageId)
    requires Inv(s, own, view, m) && parent in own && s.pages[parent].Inner? && |s.pages[parent].seps| == INNER_MAX
    requires |InsertSorted(s.pages[parent].seps, Entry(sep, child))| == INNER_MAX + 1
    ensures var Split(s', added, up) := SplitInner(s, parent, sep, child);
      var p, es := s.pages[parent], InsertSorted(s.pages[parent].seps, Entry(sep, child));
      && added == s.nextId && added !in own && up == es[|es| / 2].key
      && s' == Store(s.root, s'.pages, s.nextId + 1) && Numbered(s')
      && parent in s'.pages && s'.pages[parent] == Inner(p.leftmost, es[..|es| / 2])
      && added in s'.pages && s'.pages[added] == Inner(es[|es| / 2].value, es[|es| / 2 + 1..])
      && forall q :: q in own && q != parent ==> q in s'.pages && s'.pages[q] == s.pages[q]
  {
  }

  /** Dividing the parent at `up` into two pages that both see the halves below leaves `up` pending. */
  lemma InnerSpliceOk<V>(s: Store<V>, s': Store<V>, own: Table, view: Table, m: map<int, V>, left: PageId,
                         right: PageId, sep: U64,
                         parent: PageId, i: nat, added: PageId, up: U64)
    requires Pending(s, own, view, m, left, right, sep) && parent in own && IsChild(s.pages, parent, i, left)
    requires added == s.nextId && s' == Store(s.root, s'.pages, s.nextId + 1) && Numbered(s') &&
      own[parent].lo < up < own[parent].hi
    requires parent in s'.pages && InnerOk(s'.pages[parent], own[parent].(hi := up), own)
    requires added in s'.pages && InnerOk(s'.pages[added], own[parent].(lo := up), own)
    requires forall q :: q in own && q != parent ==> q in s'.pages && s'.pages[q] == s.pages[q]
    ensures Inv(s', SplitTable(own, parent, added, up), own, m)
  {
    hide LeafOk, InnerOk, InnerFit, ChildOk, Disjoint;
    var own' := SplitTable(own, parent, added, up);
    IsInner(s'.pages[parent], own[parent].(hi := up), own);
    IsInner(s'.pages[added], own[parent].(lo := up), own);
    PendingSlot(s, own, view, m, left, right, sep, parent, i);
    assert PageOk(s.pages, own, view, m, parent);
    forall q | q in own'
      ensures PageOk(s'.pages, own', own, m, q)
    {
      InnerSplicedPage(s, s', own, view, m, left, right, sep, parent, i, added, up, q);
    }
    SplitDisjoint(own, parent, added, up);
    InnerRewriteKeepsLinks(s.pages, s'.pages, own, own', parent, added);
  }

  lemma InnerSplicedPage<V>(s: Store<V>, s': Store<V>, own: Table, view: Table, m: map<int, V>, left: PageId,
                            right: PageId, sep: U64, parent: PageId, i: nat, added: PageId, up: U64, q: PageId)
    requires Pending(s, own, view, m, left, right, sep) && parent in own && IsChild(s.pages, parent, i, left)
    requires added == s.nextId && s' == Store(s.root, s'.pages, s.nextId + 1) && Numbered(s') &&
      own[parent].lo < up < own[parent].hi
    requires parent in s'.pages && InnerOk(s'.pages[parent], own[parent].(hi := up), own)
    requires added in s'.pages && InnerOk(s'.pages[added], own[parent].(lo := up), own)
    requires forall q :: q in own && q != parent ==> q in s'.pages && s'.pages[q] == s.pages[q]
    requires q in SplitTable(own, parent, added, up)
    ensures PageOk(s'.pages, SplitTable(own, parent, added, up), own, m, q)
  {
    hide InnerFit, LeafOk;
    PendingSlot(s, own, view, m, left, right, sep, parent, i);
    assert PageOk(s.pages, own, view, m, parent);
    if q != parent && q != added {
      assert PageOk(s.pages, own, view, m, q);
      if s.pages[q].Inner? {
        OnlyParent(s, own, view, m, parent, i, left, q);
        OthersSee(s, own, view, m, left, right, sep, q);
      }
    }
  }

  /** When the root itself has split, a new root above both halves completes the tree. */
  lemma NewRootOk<V>(s: Store<V>, own: Table, view: Table, m: map<int, V>, right: PageId, sep: U64)
    requires Pending(s, own, view, m, s.root, right, sep)
    ensures var s' := NewRoot(s, sep, right);
      Inv(s', own[s.nextId := Node(0, TOP, own[s.root].height + 1)],
        own[s.nextId := Node(0, TOP, own[s.root].height + 1)], m)
  {
    var s', n := NewRoot(s, sep, right), s.nextId;
    var own' := own[n := Node(0, TOP, own[s.root].height + 1)];
    hide LeafOk, InnerOk, Disjoint;
    assert PageOk(s.pages, own, view, m, s.root);
    forall q | q in own'
      ensures PageOk(s'.pages, own', own', m, q)
    {
      NewRootPage(s, own, view, m, right, sep, q);
    }
    NewRootApart(s, own, view, m, right, sep);
    InnerRewriteKeepsLinks(s.pages, s'.pages, own, own', n, n);
  }

  lemma NewRootApart<V>(s: Store<V>, own: Table, view: Table, m: map<int, V>, right: PageId, sep: U64)
    requires Pending(s, own, view, m, s.root, right, sep)
    ensures Disjoint(own[s.nextId := Node(0, TOP, own[s.root].height + 1)])
  {
    hide LeafOk, InnerOk;
    var own' := own[s.nextId := Node(0, TOP, own[s.root].height + 1)];
    assert PageOk(s.pages, own, view, m, s.root);
    forall p, q | p in own' && q in own'
      ensures Separate(own', p, q)
    {
      if p != s.nextId && q != s.nextId { assert Separate(own, p, q); }
    }
  }

  lemma NewRootPage<V>(s: Store<V>, own: Table, view: Table, m: map<int, V>, right: PageId, sep: U64, q: PageId)
    requires Pending(s, own, view, m, s.root, right, sep)
    requires q in own || q == s.nextId
    ensures var own' := own[s.nextId := Node(0, TOP, own[s.root].height + 1)];
      PageOk(NewRoot(s, sep, right).pages, own', own', m, q)
  {
    hide LeafOk;
    var s', n := NewRoot(s, sep, right), s.nextId;
    var own' := own[n := Node(0, TOP, own[s.root].height + 1)];
    assert PageOk(s.pages, own, view, m, s.root) && PageOk(s.pages, own, view, m, right);
    if q == n {
      var p := s'.pages[n];
      assert ChildOk(p, own'[n], own', 0) && ChildOk(p, own'[n], own', 1);
    } else {
      assert PageOk(s.pages, own, view, m, q);
      if s.pages[q].Inner? {
        forall i | 0 <= i <= |s.pages[q].seps|
          ensures ChildOk(s.pages[q], own[q], own', i)
        {
          assert ChildOk(s.pages[q], own[q], view, i);
        }
      }
    }
  }
}
