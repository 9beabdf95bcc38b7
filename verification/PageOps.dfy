/** What inserting into and deleting from one page of a B+tree means, errors included. */
module PageOps {
  import opened Wrappers
  import opened SortedEntries

  datatype OverlayError = PageFull | DuplicateKey | IndexOutOfBounds

  /** Insert in key order into a run of at most `cap` entries. The capacity is tested first. */
  function Insert<V>(es: seq<Entry<V>>, e: Entry<V>, cap: nat): Result<seq<Entry<V>>, OverlayError> {
    if |es| >= cap then Err(PageFull)
    else if Found(es, e.key) then Err(DuplicateKey)
    else Ok(InsertSorted(es, e))
  }

  function Delete<V>(es: seq<Entry<V>>, i: nat): Result<seq<Entry<V>>, OverlayError> {
    if i >= |es| then Err(IndexOutOfBounds) else Ok(RemoveAt(es, i))
  }

  /** Rebuild a page entry by entry, as the splits do. */
  method Rebuild<V>(es: seq<Entry<V>>, cap: nat) returns (run: seq<Entry<V>>)
    requires Sorted(es) && |es| <= cap
    ensures run == es
  {
    run := [];
    for i := 0 to |es|
      invariant run == es[..i]
    {
      InsertAboveAppends(run, es[i]);
      var r := Insert(run, es[i], cap);
      assert r.Ok?;
      run := r.value;
    }
  }

  /** Add a second page's entries one by one behind those of the first, as a merge does. */
  method Absorb<V>(es: seq<Entry<V>>, more: seq<Entry<V>>, cap: nat) returns (run: seq<Entry<V>>)
    requires Sorted(es + more) && |es| + |more| <= cap
    ensures run == es + more
  {
    run := es;
    for i := 0 to |more|
      invariant run == es + more[..i]
    {
      assert forall j :: 0 <= j < |run| ==> run[j] == (es + more)[j];
      assert (es + more)[|es| + i] == more[i];
      InsertAboveAppends(run, more[i]);
      var r := Insert(run, more[i], cap);
      assert r.Ok?;
      run := r.value;
    }
  }
}
