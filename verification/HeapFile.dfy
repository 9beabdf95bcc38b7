/** The linked list of heap pages, seen through page contents. */
module HeapList {
  import opened Visibility
  import opened HeapRows

  /** A heap page: its tuples and the id of the next page, 0 at the end of the list. */
  datatype Node = Node(tuples: seq<Tuple>, next: PageId)

  type Store = map<PageId, Node>

  ghost function At(order: seq<PageId>, i: nat): PageId {
    if i < |order| then order[i] else 0
  }

  ghost predicate Stored(store: Store, order: seq<PageId>) {
    forall i {:trigger order[i]} :: 0 <= i < |order| ==> order[i] in store
  }

  ghost predicate LinkOk(store: Store, order: seq<PageId>, i: nat)
    requires Stored(store, order) && i < |order|
  {
    order[i] != 0 && store[order[i]].next == At(order, i + 1)
  }

  ghost predicate Linked(first: PageId, store: Store, order: seq<PageId>)
    requires Stored(store, order)
  {
    && first == At(order, 0)
    && (forall i, j :: 0 <= i < j < |order| ==> order[i] != order[j])
    && (forall i {:trigger LinkOk(store, order, i)} :: 0 <= i < |order| ==> LinkOk(store, order, i))
  }

  ghost function View(store: Store, order: seq<PageId>): (h: Heap)
    requires Stored(store, order)
    ensures |h| == |order|
  {
    seq(|order|, i requires 0 <= i < |order| => Listed(order[i], store[order[i]].tuples))
  }

  /** The list is linked through the pages, pages off the list are empty, and ids from `nextId` on are unused. */
  ghost predicate FileOk(first: PageId, store: Store, order: seq<PageId>, nextId: PageId) {
    && 0 < nextId
    && Stored(store, order) && Linked(first, store, order)
    && (forall p {:trigger store[p]} :: p in store ==> p < nextId && (p in order || store[p].tuples == []))
    && HeapRows.Valid(View(store, order))
  }

  lemma UpdateOk(first: PageId, store: Store, order: seq<PageId>, nextId: PageId, i: nat, tuples: seq<Tuple>)
    requires FileOk(first, store, order, nextId) && i < |order|
    requires HeapRows.Valid(View(store, order)[i := Listed(order[i], tuples)])
    ensures var store' := store[order[i] := Node(tuples, store[order[i]].next)];
      FileOk(first, store', order, nextId) && View(store', order) == View(store, order)[i := Listed(order[i], tuples)]
  {
    var store' := store[order[i] := Node(tuples, store[order[i]].next)];
    assert forall k {:trigger LinkOk(store', order, k)} :: 0 <= k < |order| ==>
      LinkOk(store, order, k) && LinkOk(store', order, k);
    assert View(store', order) == View(store, order)[i := Listed(order[i], tuples)];
  }

  lemma PrependOk(first: PageId, store: Store, order: seq<PageId>, id: PageId, tuples: seq<Tuple>)
    requires FileOk(first, store, order, id)
    requires HeapRows.Valid([Listed(id, tuples)] + View(store, order))
    ensures FileOk(id, store[id := Node(tuples, first)], [id] + order, id + 1)
    ensures View(store[id := Node(tuples, first)], [id] + order) == [Listed(id, tuples)] + View(store, order)
  {
    var store': Store := store[id := Node(tuples, first)];
    var order': seq<PageId> := [id] + order;
    forall k {:trigger order'[k]} | 0 <= k < |order'|
      ensures order'[k] in store' && order'[k] == if k == 0 then id else order[k - 1]
      ensures k > 0 ==> order'[k] < id
    {
      if k > 0 { assert store[order[k - 1]] == store[order'[k]]; }
    }
    PrependLinked(first, store, order, id, tuples);
    forall p | p in order
      ensures p in order'
    {
      var k :| 0 <= k < |order| && order[k] == p;
      assert order'[k + 1] == p;
    }
    assert order'[0] == id;
    assert View(store', order') == [Listed(id, tuples)] + View(store, order);
  }

  lemma PrependLinked(first: PageId, store: Store, order: seq<PageId>, id: PageId, tuples: seq<Tuple>)
    requires Stored(store, order) && Linked(first, store, order) && 0 < id
    requires forall k {:trigger order[k]} :: 0 <= k < |order| ==> order[k] < id
    ensures Stored(store[id := Node(tuples, first)], [id] + order) &&
      Linked(id, store[id := Node(tuples, first)], [id] + order)
  {
    var store': Store := store[id := Node(tuples, first)];
    var order': seq<PageId> := [id] + order;
    assert forall k {:trigger order'[k]} :: 0 < k < |order'| ==> order'[k] == order[k - 1];
    forall k {:trigger LinkOk(store', order', k)} | 0 <= k < |order'|
      ensures LinkOk(store', order', k)
    {
      assert At(order', k + 1) == At(order, k);
      if k > 0 { assert LinkOk(store, order, k - 1); }
    }
  }

  lemma OrphanOk(first: PageId, store: Store, order: seq<PageId>, id: PageId, next: PageId)
    requires FileOk(first, store, order, id)
    ensures FileOk(first, store[id := Node([], next)], order, id + 1)
    ensures View(store[id := Node([], next)], order) == View(store, order)
  {
    forall k {:trigger order[k]} | 0 <= k < |order|
      ensures order[k] < id
    {
      assert store[order[k]] == store[order[k]];
    }
    var store' := store[id := Node([], next)];
    assert forall k {:trigger LinkOk(store', order, k)} :: 0 <= k < |order| ==>
      LinkOk(store, order, k) && LinkOk(store', order, k);
    assert View(store[id := Node([], next)], order) == View(store, order);
  }
}

/** A heap file over page buffers: a linked list of slotted pages, newest first. */
module HeapFile {
  import opened Wrappers
  import opened Bytes
  import opened Visibility
  import opened HeapRows
  import opened HeapList
  import S = SlottedPage

  // ---------------------------------------------------------------- one page

  /** The bytes are a page with these tuples and this link, and nothing but tuples lies above the data offset. */
  ghost predicate Encodes(b: seq<Byte>, node: Node) {
    && |b| == PAGE_SIZE && S.PageOk(b) && S.DataOffset(b) == PAGE_SIZE - TotalLength(node.tuples)
    && S.Tuples(b) == node.tuples && S.NextPage(b) == node.next
  }

  method NewPage(next: PageId) returns (page: array<Byte>)
    requires next < 0x1_0000_0000
    ensures fresh(page) && Encodes(page[..], Node([], next))
  {
    page := new Byte[PAGE_SIZE](i => 0);
    S.Init(page);
    S.SetNextPage(page, next);
  }

  method ReadSlot(page: array<Byte>, ghost node: Node, slot: nat) returns (r: Option<Tuple>)
    requires Encodes(page[..], node)
    ensures r == if slot < |node.tuples| then Some(node.tuples[slot]) else None
  {
    var got := S.GetData(page, slot);
    r := if got.Ok? then Some(got.value) else None;
  }

  method ReadLink(page: array<Byte>, ghost node: Node) returns (next: PageId, slots: nat)
    requires Encodes(page[..], node)
    ensures next == node.next && slots == |node.tuples|
  {
    next := Read32(page, S.NEXT_PAGE_AT);
    slots := Read16(page, S.NUM_SLOTS_AT);
  }

  method InsertInto(page: array<Byte>, ghost node: Node, t: Tuple) returns (r: Option<nat>)
    requires Encodes(page[..], node)
    modifies page
    ensures r == if Fits(node.tuples, t) then Some(|node.tuples|) else None
    ensures Encodes(page[..], if r.Some? then Node(node.tuples + [t], node.next) else node)
  {
    TotalLengthSnoc(node.tuples, t);
    var got := S.Insert(page, t);
    r := if got.Ok? then Some(got.value) else None;
  }

  method Stamp(page: array<Byte>, ghost node: Node, slot: nat, xmax: TxnId)
    requires Encodes(page[..], node) && slot < |node.tuples| && |node.tuples[slot]| >= TUPLE_HEADER_SIZE
    modifies page
    ensures Encodes(page[..], Node(node.tuples[slot := WriteXmax(node.tuples[slot], xmax)], node.next))
  {
    TotalLengthUpdate(node.tuples, slot, WriteXmax(node.tuples[slot], xmax));
    S.Overwrite(page, slot, 8, ToLE(8, xmax));
  }

  // ---------------------------------------------------------------- the file

  class HeapFile {
    var firstPage: PageId
    var pages: map<PageId, array<Byte>>
    var nextId: PageId
    ghost var order: seq<PageId>
    ghost var nodes: Store

    ghost predicate Buffers()
      reads this, pages.Values
    {
      && pages.Keys == nodes.Keys
      && (forall p {:trigger nodes[p]} :: p in nodes ==> Encodes(pages[p][..], nodes[p]))
      && (forall p, q {:trigger pages[p], pages[q]} :: p in pages && q in pages && p != q ==> pages[p] != pages[q])
    }

    ghost predicate Valid()
      reads this, pages.Values
    {
      Buffers() && FileOk(firstPage, nodes, order, nextId)
    }

    /** The file as the list of its pages' tuples. */
    ghost function Rows(): Heap
      requires Stored(nodes, order)
      reads this
    {
      View(nodes, order)
    }

    constructor ()
      ensures Valid() && Rows() == [] && pages == map[]
    {
      firstPage, pages, nextId, order, nodes := 0, map[], 1, [], map[];
    }

    lemma Listing()
      requires FileOk(firstPage, nodes, order, nextId)
      ensures Stored(nodes, order) && HeapRows.Valid(Rows()) && firstPage == At(order, 0) && firstPage < nextId &&
        nextId !in nodes
    {
      forall p {:trigger p in nodes} | p in nodes
        ensures p < nextId
      {
        assert nodes[p] == nodes[p];
      }
      if |order| > 0 { assert nodes[order[0]] == nodes[order[0]]; }
    }

    /** The page at position `i` of the list, found by its id. */
    lemma PageAt(i: nat)
      requires FileOk(firstPage, nodes, order, nextId) && i < |order|
      ensures order[i] != 0 && order[i] in nodes && nodes[order[i]].next == At(order, i + 1)
      ensures Rows()[i] == Listed(order[i], nodes[order[i]].tuples) && IndexOf(Rows(), order[i]) == i
    {
      assert LinkOk(nodes, order, i);
      IndexOfAt(Rows(), i);
    }

    /** Fetch the page and read the slot. */
    method Read(rid: RecordId) returns (r: Result<Tuple, Error>)
      requires Valid()
      ensures rid.page in order || rid.page !in pages ==> r == Named(Rows(), rid)
      ensures rid.page in pages && rid.page !in order ==> r == Err(TupleNonExistent)
      ensures r.Ok? ==> rid.page in order && |r.value| >= TUPLE_HEADER_SIZE
    {
      if rid.page !in pages {
        assert IndexOf(Rows(), rid.page) == |Rows()|;
        return Err(NoSuchPage);
      }
      var got := ReadSlot(pages[rid.page], nodes[rid.page], rid.slot);
      if rid.page in order {
        ghost var i :| 0 <= i < |order| && order[i] == rid.page;
        PageAt(i);
      }
      if got.None? || |got.value| < TUPLE_HEADER_SIZE { return Err(TupleNonExistent); }
      return Ok(got.value);
    }

    method Get(txn: Txn, rid: RecordId) returns (r: Result<seq<Byte>, Error>)
      requires Valid()
      ensures rid.page in order || rid.page !in pages ==> r == GetTuple(Rows(), txn, rid)
      ensures rid.page in pages && rid.page !in order ==> r == Err(TupleNonExistent)
    {
      var t := Read(rid);
      if t.Err? { return Err(t.error); }
      var data := t.value;
      if !IsVisible(data, txn) { return Err(TupleNotVisible(txn.id, ReadXmin(data), ReadXmax(data))); }
      return Ok(data[TUPLE_HEADER_SIZE..]);
    }

    method Delete(txn: Txn, rid: RecordId) returns (r: Result<(), Error>)
      requires Valid()
      modifies this, pages.Values
      ensures Valid() && pages == old(pages) && order == old(order)
      ensures rid.page in order || rid.page !in pages ==> Deleted(Rows(), r) == DeleteTuple(old(Rows()), txn, rid)
      ensures rid.page in pages && rid.page !in order ==> r == Err(TupleNonExistent) && Rows() == old(Rows())
    {
      hide Buffers, FileOk, IsVisible, ReadXmin, ReadXmax, View, StampRow, Named;
      var t := Read(rid);
      if t.Err? { return Err(t.error); }
      var data := t.value;
      if !IsVisible(data, txn) { return Err(TupleNotVisible(txn.id, ReadXmin(data), ReadXmax(data))); }
      var xmax := ReadXmax(data);
      if xmax != 0 { return Err(AlreadyDeleted(xmax)); }
      StampTuple(rid, txn.id);
      return Ok(());
    }

    /** Stamp XMAX on a tuple of a listed page. */
    method StampTuple(rid: RecordId, xmax: TxnId)
      requires Valid() && Named(Rows(), rid).Ok?
      modifies pages.Values, this`nodes
      ensures Valid() && Rows() == StampRow(old(Rows()), rid, xmax)
    {
      hide HeapRows.Valid, FileOk, Encodes, WriteXmax, IndexOf, View;
      Listing();
      ghost var i := IndexOf(Rows(), rid.page);
      PageAt(i);
      ghost var node := nodes[rid.page];
      ghost var tuples := node.tuples[rid.slot := WriteXmax(node.tuples[rid.slot], xmax)];
      StampOk(Rows(), rid, xmax, rid);
      UpdateOk(firstPage, nodes, order, nextId, i, tuples);
      Stamp(pages[rid.page], node, rid.slot, xmax);
      nodes := nodes[rid.page := Node(tuples, node.next)];
    }

    // ---------------------------------------------------------------- insert

    /** One step of the walk: insert on the page at position `i`, or learn where to go next. */
    method TryPage(ghost i: nat, current: PageId, t: Tuple) returns (slot: Option<nat>, next: PageId)
      requires Valid() && i < |order| && current == order[i] && |t| >= TUPLE_HEADER_SIZE
      modifies pages.Values, this`nodes
      ensures Valid()
      ensures slot == if Fits(old(Rows())[i].tuples, t) then Some(|old(Rows())[i].tuples|) else None
      ensures slot.Some? ==> Rows() == old(Rows())[i := Listed(current, old(Rows())[i].tuples + [t])]
      ensures slot.None? ==> nodes == old(nodes) && next == At(order, i + 1)
    {
      hide HeapRows.Valid, FileOk, Encodes, Fits, View;
      Listing();
      PageAt(i);
      ghost var node := nodes[current];
      slot := InsertInto(pages[current], node, t);
      next := 0;
      if slot.Some? {
        AppendValid(Rows(), i, t);
        UpdateOk(firstPage, nodes, order, nextId, i, node.tuples + [t]);
        nodes := nodes[current := Node(node.tuples + [t], node.next)];
      } else {
        var slots;
        next, slots := ReadLink(pages[current], node);
      }
    }

    lemma IdsUsed()
      requires FileOk(firstPage, nodes, order, nextId)
      ensures forall i :: 0 <= i < |Rows()| ==> 0 < Rows()[i].id < nextId
    {
      forall i | 0 <= i < |Rows()|
        ensures 0 < Rows()[i].id < nextId
      {
        PageAt(i);
        assert nodes[order[i]] == nodes[order[i]];
        assert LinkOk(nodes, order, i);
      }
    }

    /** Allocate a page, link it to the old first page, insert, and make it the first page. */
    method InsertFresh(t: Tuple) returns (r: Result<RecordId, Error>)
      requires Valid() && firstPage < nextId < 0x1_0000_0000 && |t| >= TUPLE_HEADER_SIZE
      modifies this
      ensures Valid() && nextId == old(nextId) + 1
      ensures forall p :: p in pages ==> (p in old(pages) && pages[p] == old(pages)[p]) || fresh(pages[p])
      ensures r == if Fits([], t) then Ok(RecordId(old(nextId), 0)) else Err(PageCorruption)
      ensures Rows() == if r.Ok? then [Listed(old(nextId), [t])] + old(Rows()) else old(Rows())
    {
      hide HeapRows.Valid, FileOk, Encodes, Fits, View;
      Listing();
      var id := nextId;
      IdsUsed();
      ghost var h := Rows();
      var page := NewPage(firstPage);
      var slot := InsertInto(page, Node([], firstPage), t);
      assert [] + [t] == [t];
      if slot.Some? {
        FreshValid(h, id, t);
        PrependOk(firstPage, nodes, order, id, [t]);
        Install(page, Node([t], firstPage));
        firstPage, order := id, [id] + order;
        return Ok(RecordId(id, 0));
      }
      OrphanOk(firstPage, nodes, order, id, firstPage);
      Install(page, Node([], firstPage));
      return Err(PageCorruption);
    }

    /** Give a new page buffer the next id. */
    method Install(page: array<Byte>, ghost node: Node)
      requires Buffers() && nextId !in nodes && Encodes(page[..], node) && page !in pages.Values
      modifies this`pages, this`nodes, this`nextId
      ensures Buffers() && nodes == old(nodes)[old(nextId) := node] && nextId == old(nextId) + 1
      ensures pages == old(pages)[old(nextId) := page]
    {
      hide Encodes;
      assert forall p {:trigger nodes[p]} :: p in nodes ==> pages[p] != page;
      pages, nodes, nextId := pages[nextId := page], nodes[nextId := node], nextId + 1;
    }

    /** Walk the list for room; failing that, put a fresh page in front. */
    method Insert(txn: Txn, data: seq<Byte>) returns (r: Result<RecordId, Error>)
      requires Valid() && nextId < 0x1_0000_0000
      modifies this, pages.Values
      ensures Valid()
      ensures forall p :: p in pages ==> (p in old(pages) && pages[p] == old(pages)[p]) || fresh(pages[p])
      ensures var s := InsertTuple(old(Rows()), MakeHeader(txn.id) + data, old(nextId));
        Rows() == s.heap && r == if s.rid.Some? then Ok(s.rid.value) else Err(PageCorruption)
      ensures State(Rows(), nextId) == Apply(State(old(Rows()), old(nextId)), InsertOp(txn, data))
    {
      hide HeapRows.Valid, Buffers, FileOk, Encodes, Fits, MakeHeader, View;
      Listing();
      var t := MakeHeader(txn.id) + data;
      ghost var h := Rows();
      ghost var i := 0;
      var current := firstPage;
      while current != 0
        invariant Valid() && unchanged(this)
        invariant i <= |order| && current == At(order, i)
        invariant forall j :: 0 <= j < i ==> !Fits(h[j].tuples, t)
        decreases |order| - i
      {
        PageAt(i);
        var slot, next := TryPage(i, current, t);
        if slot.Some? {
          assert FirstFit(h, t) == i;
          return Ok(RecordId(current, slot.value));
        }
        current, i := next, i + 1;
      }
      Listing();
      assert i == |order| by {
        if i < |order| { PageAt(i); }
      }
      assert FirstFit(h, t) == |h|;
      r := InsertFresh(t);
    }
  }
}
