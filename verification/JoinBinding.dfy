/** How the binder turns USING and NATURAL into equalities of columns, and what becomes of the join. */
module JoinBinding {
  import opened Wrappers
  import opened Expressions
  import opened RowOps
  import opened Plans
  import opened Optimizer
  import opened OptimizerGaps
  import opened JoinKeyGaps

  datatype BindError = UnknownColumn(name: string) | AmbiguousColumn(name: string)

  /** The columns in scope, by position; a join binds its condition with both tables in scope. */
  type Scope = names: seq<string> | |names| < USIZE

  /** The positions of the columns with this name, in order. */
  function Matching(scope: Scope, name: string): (ms: seq<Usize>)
    ensures forall a :: 0 <= a < |ms| ==> ms[a] < |scope| && scope[ms[a]] == name
    ensures forall m: Usize :: m < |scope| && scope[m] == name ==> m in ms
    ensures forall a, b :: 0 <= a < b < |ms| ==> ms[a] < ms[b]
  {
    if scope == [] then []
    else
      var last := |scope| - 1;
      var front := Matching(scope[..last], name);
      if scope[last] == name then front + [last] else front
  }

  /** An unqualified name resolves if exactly one column in scope carries it. */
  function Resolve(scope: Scope, name: string): Result<Usize, BindError> {
    var ms := Matching(scope, name);
    if |ms| == 1 then Ok(ms[0]) else if ms == [] then Err(UnknownColumn(name)) else Err(AmbiguousColumn(name))
  }

  /** The resolved column on the left, the last column of that name on the right. */
  function BindName(scope: Scope, name: string): Result<Expr, BindError> {
    var r, ms := Resolve(scope, name), Matching(scope, name);
    if r.Err? then Err(r.error) else Ok(ColumnEquality(r.value, ms[|ms| - 1]))
  }

  function BindUsing(scope: Scope, names: seq<string>): Result<seq<Expr>, BindError> {
    if names == [] then Ok([])
    else
      var front, e := BindUsing(scope, names[..|names| - 1]), BindName(scope, names[|names| - 1]);
      if front.Err? then front else if e.Err? then Err(e.error) else Ok(front.value + [e.value])
  }

  function BindNatural(scope: Scope, right: seq<string>): seq<Expr> {
    if right == [] then []
    else
      var front, e := BindNatural(scope, right[..|right| - 1]), BindName(scope, right[|right| - 1]);
      if e.Err? then front else front + [e.value]
  }

  // ---------------------------------------------------------------- the binder's loops

  method BindUsingAll(scope: Scope, names: seq<string>) returns (r: Result<seq<Expr>, BindError>)
    ensures r == BindUsing(scope, names)
  {
    var es: seq<Expr> := [];
    for k := 0 to |names|
      invariant BindUsing(scope, names[..k]) == Ok(es)
    {
      assert names[..k + 1][..k] == names[..k];
      var e := BindName(scope, names[k]);
      if e.Err? {
        UsingStops(scope, names, k + 1);
        return Err(e.error);
      }
      es := es + [e.value];
    }
    assert names[..|names|] == names;
    r := Ok(es);
  }

  lemma {:induction false} UsingStops(scope: Scope, names: seq<string>, k: nat)
    requires k <= |names| && BindUsing(scope, names[..k]).Err?
    ensures BindUsing(scope, names) == BindUsing(scope, names[..k])
    decreases |names|
  {
    if k == |names| {
      assert names[..k] == names;
    } else {
      assert names[..|names| - 1][..k] == names[..k];
      UsingStops(scope, names[..|names| - 1], k);
    }
  }

  method BindNaturalAll(scope: Scope, right: seq<string>) returns (es: seq<Expr>)
    ensures es == BindNatural(scope, right)
  {
    es := [];
    for k := 0 to |right|
      invariant es == BindNatural(scope, right[..k])
    {
      assert right[..k + 1][..k] == right[..k];
      var e := BindName(scope, right[k]);
      if e.Ok? {
        es := es + [e.value];
      }
    }
    assert right[..|right|] == right;
  }

  // ---------------------------------------------------------------- what they bind

  /** Exactly one column in scope carries this name. */
  predicate Unique(scope: Scope, name: string) {
    |Matching(scope, name)| == 1
  }

  /** A column compared with itself. */
  predicate SelfEquality(e: Expr, lo: nat, hi: nat) {
    e.Binary? && e.left.ColumnRef? && lo <= e.left.index < hi && e == ColumnEquality(e.left.index, e.left.index)
  }

  lemma BoundName(scope: Scope, name: string)
    ensures BindName(scope, name).Ok? <==> Unique(scope, name)
    ensures BindName(scope, name).Ok? ==>
      SelfEquality(BindName(scope, name).value, 0, |scope|) && scope[BindName(scope, name).value.left.index] == name
  {
    var ms := Matching(scope, name);
  }

  /** A name both tables have never resolves. */
  lemma SharedIsAmbiguous(left: seq<string>, right: seq<string>, name: string)
    requires |left + right| < USIZE && name in left && name in right
    ensures Resolve(left + right, name) == Err(AmbiguousColumn(name))
  {
    var scope := left + right;
    var ms := Matching(scope, name);
    var i :| 0 <= i < |left| && left[i] == name;
    var j :| 0 <= j < |right| && right[j] == name;
    assert scope[i] == name && scope[|left| + j] == name;
    assert i in ms && |left| + j in ms;
  }

  /** USING over columns both tables have, which is what it is for, never binds. */
  lemma {:induction false} UsingSharedFails(left: seq<string>, right: seq<string>, names: seq<string>, k: nat)
    requires |left + right| < USIZE && k < |names| && names[k] in left && names[k] in right
    ensures BindUsing(left + right, names).Err?
    decreases |names|
  {
    SharedIsAmbiguous(left, right, names[k]);
    if k < |names| - 1 { UsingSharedFails(left, right, names[..|names| - 1], k); }
  }

  lemma {:induction false} BoundUsing(scope: Scope, names: seq<string>)
    ensures BindUsing(scope, names).Ok? ==>
      |BindUsing(scope, names).value| == |names| &&
      forall k :: 0 <= k < |names| ==> SelfEquality(BindUsing(scope, names).value[k], 0, |scope|)
  {
    if names != [] {
      BoundUsing(scope, names[..|names| - 1]);
      BoundName(scope, names[|names| - 1]);
    }
  }

  lemma UniqueIsRight(left: seq<string>, right: seq<string>, name: string)
    requires |left + right| < USIZE && name in right && Unique(left + right, name)
    ensures BindName(left + right, name).Ok? && SelfEquality(BindName(left + right, name).value, |left|, |left + right|)
  {
    var scope := left + right;
    var ms := Matching(scope, name);
    var j :| 0 <= j < |right| && right[j] == name;
    assert scope[|left| + j] == name;
    assert |left| + j in ms && ms == [ms[0]];
  }

  /** NATURAL binds one equality for each right column whose name occurs nowhere else: the column with itself. */
  lemma {:induction false} BoundNatural(left: seq<string>, right: seq<string>, names: seq<string>)
    requires |left + right| < USIZE && forall k :: 0 <= k < |names| ==> names[k] in right
    ensures var es := BindNatural(left + right, names);
      && (forall k :: 0 <= k < |es| ==> SelfEquality(es[k], |left|, |left + right|))
      && (es == [] <==> forall k :: 0 <= k < |names| ==> !Unique(left + right, names[k]))
    decreases |names|
  {
    hide SelfEquality, Unique, BindName;
    if names != [] {
      var scope, name, front := left + right, names[|names| - 1], names[..|names| - 1];
      BoundNatural(left, right, front);
      BoundName(scope, name);
      if Unique(scope, name) { UniqueIsRight(left, right, name); }
      assert forall k :: 0 <= k < |front| ==> names[k] == front[k];
    }
  }

  // ---------------------------------------------------------------- what becomes of the join

  lemma {:induction false} SelfKeys(es: seq<Expr>, w: nat)
    requires forall k :: 0 <= k < |es| ==> SelfEquality(es[k], 0, w)
    ensures var keys := SiftColumns(es);
      && |keys.left| == |es| && keys.left == keys.right && keys.residual == [] && DroppedColumns(es) == []
      && KeyColumns(keys, w)
    decreases |es|
  {
    if es != [] { SelfKeys(es[..|es| - 1], w); }
  }

  /** The hash join of columns compared with themselves is exact only if there are none. */
  lemma SelfJoinIff(ops: Operators, c: JoinCondition, es: seq<Expr>, wl: nat, wr: nat)
    requires (c == Using(es) || c == Natural(es)) && wl + wr < USIZE
    requires forall k :: 0 <= k < |es| ==> SelfEquality(es[k], 0, wl + wr)
    ensures HashExact(ops, c, wl, wr) <==> es == []
  {
    hide HashExact;
    SelfKeys(es, wl + wr);
    var keys := SiftColumns(es);
    if es == [] {
      NoKeysExact(ops, c, wl, wr);
    } else {
      EqualitiesIff(ops, c, wl, wr);
      assert !AcrossAt(keys, wl, 0);
    }
  }

  lemma NoKeysExact(ops: Operators, c: JoinCondition, wl: nat, wr: nat)
    requires ExtractEquiKeys(c).None?
    ensures HashExact(ops, c, wl, wr)
  {
  }

  /** A USING condition that binds is planned as it should be only if it names no column. */
  lemma UsingJoinIff(ops: Operators, left: seq<string>, right: seq<string>, names: seq<string>)
    requires |left + right| < USIZE && BindUsing(left + right, names).Ok?
    ensures HashExact(ops, Using(BindUsing(left + right, names).value), |left|, |right|) <==> names == []
  {
    BoundUsing(left + right, names);
    SelfJoinIff(ops, Using(BindUsing(left + right, names).value), BindUsing(left + right, names).value, |left|,
      |right|);
  }

  /** A NATURAL join is planned as it was bound exactly if every right column's name occurs elsewhere in scope. */
  lemma NaturalJoinIff(ops: Operators, left: seq<string>, right: seq<string>)
    requires |left + right| < USIZE
    ensures HashExact(ops, Natural(BindNatural(left + right, right)), |left|, |right|) <==>
      forall k :: 0 <= k < |right| ==> !Unique(left + right, right[k])
  {
    BoundNatural(left, right, right);
    SelfJoinIff(ops, Natural(BindNatural(left + right, right)), BindNatural(left + right, right), |left|, |right|);
  }

  /** And as it was bound it compares nothing across the tables: which left row it meets makes no difference. */
  lemma NaturalIgnoresLeft(ops: Operators, left: seq<string>, right: seq<string>, l: Row, l': Row, r: Row)
    requires |left + right| < USIZE && |l| == |l'| == |left| && |r| == |right|
    ensures var c := Natural(BindNatural(left + right, right)); Accepts(ops, c, l + r) == Accepts(ops, c, l' + r)
  {
    hide Eval, SelfEquality, BindNatural, ColumnEquality;
    var es := BindNatural(left + right, right);
    BoundNatural(left, right, right);
    forall k | 0 <= k < |es|
      ensures IsTrue(ops, es[k], l + r) == IsTrue(ops, es[k], l' + r)
    {
      SelfEqualityIgnores(ops, es[k], l, l', r);
    }
  }

  lemma SelfEqualityIgnores(ops: Operators, e: Expr, l: Row, l': Row, r: Row)
    requires |l| == |l'| && SelfEquality(e, |l|, |l| + |r|)
    ensures Eval(ops, e, l + r) == Eval(ops, e, l' + r)
  {
    var i := e.left.index;
    ReadColumn(ops, i, l + r);
    ReadColumn(ops, i, l' + r);
    assert (l + r)[i] == r[i - |l|] == (l' + r)[i];
  }

  /** NATURAL over a table with column a and one with column b is bound as b = b; the row all of whose columns are 1
      satisfies that, and the hash join loses it. */
  lemma NaturalLosesRows()
    ensures BindNatural(["a", "b"], ["b"]) == [ColumnEquality(1, 1)]
    ensures HashBreaks(Sample(SampleOps(), [[Int(1)]], [[Int(1)]]),
      JoinAB(InnerJoin, Natural([ColumnEquality(1, 1)]), 1, 1))
  {
    hide HashBreaks, Matching, BindName;
    var e := ColumnEquality(1, 1);
    NameB();
    assert ["b"][..0] == [] && BindNatural(["a", "b"], []) == [];
    SelfKeys([e], 2);
    assert SiftColumns([e]).left == [ColumnRef(1)] by { assert [e][..0] == []; }
    MismatchLosesRow(Natural([e]), SiftColumns([e]));
  }

  lemma NameB()
    ensures BindName(["a", "b"], "b") == Ok(ColumnEquality(1, 1))
  {
    var scope: Scope, front: Scope, empty: Scope := ["a", "b"], ["a"], [];
    assert "a"[0] != "b"[0];
    assert scope[..1] == front && front[..0] == empty;
    assert Matching(empty, "b") == [] && Matching(front, "b") == [];
    assert Matching(scope, "b") == [1];
  }
}
