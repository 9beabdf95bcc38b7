/** A table scan: one page's visible tuples are buffered at a time. */
module HeapScan {
  import opened Wrappers
  import opened Bytes
  import opened Visibility
  import opened HeapRows
  import opened HeapList
  import F = HeapFile

  class HeapScan {
    const file: F.HeapFile
    const txn: Txn
    var currentPage: PageId
    var buffered: seq<Found>
    var bufIdx: nat
    ghost var at: nat

    ghost predicate Valid()
      reads this, file, file.pages.Values
    {
      && file.Valid() && bufIdx <= |buffered|
      && at <= |file.order| && currentPage == At(file.order, at)
    }

    /** What the scan has still to yield, the file staying as it is. */
    ghost function Remaining(): seq<Found>
      requires Valid()
      reads this, file, file.pages.Values
    {
      buffered[bufIdx..] + ScanRows(file.Rows()[at..], txn)
    }

    constructor (file: F.HeapFile, txn: Txn)
      requires file.Valid()
      ensures Valid() && this.file == file && this.txn == txn && Remaining() == ScanRows(file.Rows(), txn)
    {
      hide FileOk, View, F.HeapFile.Buffers;
      this.file, this.txn := file, txn;
      currentPage, buffered, bufIdx, at := file.firstPage, [], 0, 0;
      new;
      file.Listing();
      assert file.Rows()[0..] == file.Rows();
    }

    /** Yield the next record, or nothing when none remains. */
    method Next() returns (r: Option<Found>)
      requires Valid()
      modifies this
      ensures Valid()
      ensures old(Remaining()) == [] ==> r == None && Remaining() == []
      ensures old(Remaining()) != [] ==> r == Some(old(Remaining())[0]) && Remaining() == old(Remaining())[1..]
    {
      hide F.HeapFile.Valid, FileOk, View;
      while bufIdx == |buffered|
        invariant Valid() && Remaining() == old(Remaining())
        decreases |file.order| - at
      {
        if currentPage == 0 {
          AtEnd();
          return None;
        }
        LoadPage();
      }
      r := Some(buffered[bufIdx]);
      assert buffered[bufIdx..][1..] == buffered[bufIdx + 1..];
      bufIdx := bufIdx + 1;
    }

    lemma AtEnd()
      requires Valid() && currentPage == 0
      ensures at == |file.order| && |file.Rows()| == at && ScanRows(file.Rows()[at..], txn) == []
    {
      hide FileOk, F.HeapFile.Buffers;
      file.Listing();
      if at < |file.order| { file.PageAt(at); }
    }

    /** Buffer the visible tuples of the current page and step to the next one. */
    method LoadPage()
      requires Valid() && currentPage != 0 && bufIdx == |buffered|
      modifies this
      ensures Valid() && at == old(at) + 1 && Remaining() == old(Remaining())
    {
      hide FileOk, View, F.Encodes, IsVisible, HeapRows.Valid;
      file.Listing();
      file.PageAt(at);
      ghost var node := file.nodes[currentPage];
      var page, rows := file.pages[currentPage], [];
      var next, slots := F.ReadLink(page, node);
      for slot := 0 to slots
        invariant rows == PageRows(currentPage, node.tuples[..slot], txn)
        invariant unchanged(this)
        invariant F.Encodes(page[..], node)
      {
        assert node.tuples[..slot + 1][..slot] == node.tuples[..slot];
        var t := F.ReadSlot(page, node, slot);
        if t.Some? && |t.value| > 0 && IsVisible(t.value, txn) {
          VisibleLong(t.value, txn);
          rows := rows + [Found(t.value[TUPLE_HEADER_SIZE..], RecordId(currentPage, slot))];
        }
      }
      assert node.tuples[..slots] == node.tuples;
      ghost var rest := file.Rows()[at..];
      assert rest[1..] == file.Rows()[at + 1..];
      buffered, bufIdx := rows, 0;
      currentPage, at := next, at + 1;
    }

    lemma VisibleLong(t: Tuple, txn: Txn)
      requires IsVisible(t, txn)
      ensures |t| >= TUPLE_HEADER_SIZE
    {
    }
  }
}
