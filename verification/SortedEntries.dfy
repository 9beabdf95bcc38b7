/** Sorted runs of key/value entries: what the leaf and inner pages of both
    B+trees hold, and what their binary searches, inserts and deletes mean. */
module SortedEntries {

  const TOP: int := 0x1_0000_0000_0000_0000

  type U64 = k: int | 0 <= k < 0x1_0000_0000_0000_0000

  datatype Entry<+V> = Entry(key: U64, value: V)

  ghost predicate Sorted<V>(es: seq<Entry<V>>) {
    forall i, j :: 0 <= i < j < |es| ==> es[i].key < es[j].key
  }

  ghost predicate HasKey<V>(es: seq<Entry<V>>, key: int) {
    exists i :: 0 <= i < |es| && es[i].key == key
  }

  /** How many leading entries lie strictly below `key`: the slot a binary search reports. */
  function Below<V>(es: seq<Entry<V>>, key: int): (r: nat)
    ensures r <= |es|
    ensures forall i :: 0 <= i < r ==> es[i].key < key
    ensures r < |es| ==> key <= es[r].key
  {
    if es == [] || key <= es[0].key then 0 else 1 + Below(es[1..], key)
  }

  /** How many leading entries are at most `key`: the index of the child a search descends into. */
  function Upto<V>(es: seq<Entry<V>>, key: int): (r: nat)
    ensures r <= |es|
    ensures forall i :: 0 <= i < r ==> es[i].key <= key
    ensures r < |es| ==> key < es[r].key
  {
    if es == [] || key < es[0].key then 0 else 1 + Upto(es[1..], key)
  }

  predicate Found<V>(es: seq<Entry<V>>, key: int) {
    var pos := Below(es, key);
    pos < |es| && es[pos].key == key
  }

  function InsertSorted<V>(es: seq<Entry<V>>, e: Entry<V>): seq<Entry<V>> {
    var pos := Below(es, e.key);
    es[..pos] + [e] + es[pos..]
  }

  function RemoveAt<V>(es: seq<Entry<V>>, i: nat): seq<Entry<V>>
    requires i < |es|
  {
    es[..i] + es[i + 1..]
  }

  /** The search finds a key exactly when some entry carries it. */
  lemma FoundIsHasKey<V>(es: seq<Entry<V>>, key: int)
    requires Sorted(es)
    ensures Found(es, key) <==> HasKey(es, key)
  {
    if HasKey(es, key) {
      var i :| 0 <= i < |es| && es[i].key == key;
      assert i == Below(es, key);
    }
  }

  /** On sorted entries any slot with smaller keys to its left and no smaller key at it is the reported slot. */
  lemma BelowUnique<V>(es: seq<Entry<V>>, key: int, r: nat)
    requires Sorted(es) && r <= |es|
    requires forall i :: 0 <= i < r ==> es[i].key < key
    requires r < |es| ==> key <= es[r].key
    ensures r == Below(es, key)
  {
  }

  lemma UptoUnique<V>(es: seq<Entry<V>>, key: int, r: nat)
    requires Sorted(es) && r <= |es|
    requires forall i :: 0 <= i < r ==> es[i].key <= key
    requires r < |es| ==> key < es[r].key
    ensures r == Upto(es, key)
  {
  }

  /** On sorted entries the two neighbours of a slot decide it. */
  lemma UptoBetween<V>(es: seq<Entry<V>>, key: int, r: nat)
    requires Sorted(es) && r <= |es|
    requires r > 0 ==> es[r - 1].key <= key
    requires r < |es| ==> key < es[r].key
    ensures r == Upto(es, key)
  {
    UptoUnique(es, key, r);
  }

  /** Entry by entry: the new entry sits at its slot and the ones from there on move one place right. */
  lemma InsertSortedAt<V>(es: seq<Entry<V>>, e: Entry<V>, i: nat)
    requires i <= |es|
    ensures var r, pos := InsertSorted(es, e), Below(es, e.key);
      |r| == |es| + 1 && r[i] == if i < pos then es[i] else if i == pos then e else es[i - 1]
  {
  }

  /** Inserting a new key keeps the run sorted and adds exactly that key. */
  lemma InsertSortedOk<V>(es: seq<Entry<V>>, e: Entry<V>)
    requires Sorted(es) && !Found(es, e.key)
    ensures Sorted(InsertSorted(es, e)) && |InsertSorted(es, e)| == |es| + 1
    ensures forall k :: HasKey(InsertSorted(es, e), k) <==> k == e.key || HasKey(es, k)
  {
    var r, pos := InsertSorted(es, e), Below(es, e.key);
    forall i, j | 0 <= i < j < |r|
      ensures r[i].key < r[j].key
    {
      InsertSortedAt(es, e, i);
      InsertSortedAt(es, e, j);
    }
    forall k
      ensures HasKey(r, k) <==> k == e.key || HasKey(es, k)
    {
      InsertSortedHas(es, e, k);
    }
  }

  lemma InsertSortedHas<V>(es: seq<Entry<V>>, e: Entry<V>, k: int)
    ensures HasKey(InsertSorted(es, e), k) <==> k == e.key || HasKey(es, k)
  {
    var r, pos := InsertSorted(es, e), Below(es, e.key);
    if HasKey(es, k) {
      var i :| 0 <= i < |es| && es[i].key == k;
      assert r[if i < pos then i else i + 1].key == k;
    }
    if HasKey(r, k) {
      var i :| 0 <= i < |r| && r[i].key == k;
      InsertSortedAt(es, e, i);
    }
    assert r[pos] == e;
  }

  /** Appending is what inserting a key above all others does. */
  lemma InsertAboveAppends<V>(es: seq<Entry<V>>, e: Entry<V>)
    requires forall i :: 0 <= i < |es| ==> es[i].key < e.key
    ensures !Found(es, e.key) && InsertSorted(es, e) == es + [e]
  {
    assert Below(es, e.key) == |es|;
  }

  /** Deleting a slot drops that key and no other. */
  lemma RemoveAtOk<V>(es: seq<Entry<V>>, i: nat)
    requires Sorted(es) && i < |es|
    ensures Sorted(RemoveAt(es, i))
    ensures forall k :: HasKey(RemoveAt(es, i), k) <==> k != es[i].key && HasKey(es, k)
  {
    var r := RemoveAt(es, i);
    forall k ensures HasKey(r, k) <==> k != es[i].key && HasKey(es, k) {
      if k != es[i].key && HasKey(es, k) {
        var j :| 0 <= j < |es| && es[j].key == k;
        assert r[if j < i then j else j - 1].key == k;
      }
    }
  }
}
