/** Join conditions on columns: exactly when the hash join built for them accepts the row pairs they accept. */
module JoinKeyGaps {
  import opened Wrappers
  import opened Expressions
  import opened RowOps
  import opened Plans
  import opened Optimizer
  import opened OptimizerGaps

  function ColumnEquality(i: Usize, j: Usize): Expr {
    Binary(ColumnRef(i), Eq, ColumnRef(j))
  }

  // ---------------------------------------------------------------- what the keys leave out

  /** The conjuncts of a USING or NATURAL condition that do not become keys. */
  function DroppedColumns(es: seq<Expr>): seq<Expr> {
    if es == [] then []
    else
      var front, e := DroppedColumns(es[..|es| - 1]), es[|es| - 1];
      if e.Binary? && e.op == Eq then front else front + [e]
  }

  function Dropped(c: JoinCondition): seq<Expr> {
    if c.Using? || c.Natural? then DroppedColumns(c.es) else []
  }

  lemma {:induction false} SiftColumnsSplit(ops: Operators, es: seq<Expr>, row: Row)
    ensures var keys := SiftColumns(es);
      keys.residual == [] && |keys.left| == |keys.right| &&
      (AllTrue(ops, es, row) <==>
        KeysMatch(ops, keys.left, row, keys.right, row) && AllTrue(ops, DroppedColumns(es), row))
    decreases |es|
  {
    if es != [] {
      var front, e := es[..|es| - 1], es[|es| - 1];
      SiftColumnsSplit(ops, front, row);
      assert es == front + [e];
      AllTrueSnoc(ops, front, e, row);
      var keys := SiftColumns(front);
      if e.Binary? && e.op == Eq {
        KeysMatchSnoc(ops, keys.left, e.left, row, keys.right, e.right, row);
      } else {
        AllTrueSnoc(ops, DroppedColumns(front), e, row);
      }
    }
  }

  /** A condition is its keys, its residual and what was dropped. */
  lemma ConditionSplit(ops: Operators, c: JoinCondition, row: Row)
    ensures var keys := SiftCondition(c);
      |keys.left| == |keys.right| &&
      (Accepts(ops, c, row) <==>
       KeysMatch(ops, keys.left, row, keys.right, row) && AllTrue(ops, keys.residual, row) &&
         AllTrue(ops, Dropped(c), row))
  {
    match c
    case On(e) =>
      SiftLengths(SplitConjunctions(e));
      SiftOk(ops, SplitConjunctions(e), row);
      SplitAllTrue(ops, e, row);
    case Using(es) => SiftColumnsSplit(ops, es, row);
    case Natural(es) => SiftColumnsSplit(ops, es, row);
    case NoCondition =>
  }

  // ---------------------------------------------------------------- column keys

  /** Every key is a column of a joined row of `w` columns. */
  predicate KeyColumns(keys: EquiKeys, w: nat) {
    && |keys.left| == |keys.right|
    && forall i :: 0 <= i < |keys.left| ==>
         keys.left[i].ColumnRef? && keys.left[i].index < w && keys.right[i].ColumnRef? && keys.right[i].index < w
  }

  /** Every pair names a left column first and a right column second. */
  predicate Across(keys: EquiKeys, wl: nat) {
    |keys.left| == |keys.right| && forall i :: 0 <= i < |keys.left| ==> AcrossAt(keys, wl, i)
  }

  predicate AcrossAt(keys: EquiKeys, wl: nat, i: nat)
    requires i < |keys.left| == |keys.right|
  {
    keys.left[i].ColumnRef? && keys.left[i].index < wl && keys.right[i].ColumnRef? && wl <= keys.right[i].index
  }

  lemma ReadColumn(ops: Operators, i: Usize, row: Row)
    ensures Eval(ops, ColumnRef(i), row) == if i < |row| then row[i] else Null
    ensures Columns(ColumnRef(i)) == [i]
  {
  }

  /** A key read on the wrong side is NULL there and matches nothing. */
  lemma MisreadKey(ops: Operators, keys: EquiKeys, l: Row, r: Row, i: nat)
    requires KeyColumns(keys, |l| + |r|) && |l| + |r| < USIZE && i < |keys.left| && !AcrossAt(keys, |l|, i)
    ensures !KeysMatch(ops, keys.left, l, ShiftAll(keys.right, -|l|), r)
  {
    var a, b, n := keys.left[i].index, keys.right[i].index, |l|;
    ReadColumn(ops, a, l);
    var b' := (b - n) % USIZE;
    assert b < n ==> b' == b - n + USIZE;
    ReadColumn(ops, b', r);
    assert ShiftAll(keys.right, -n)[i] == ColumnRef(b');
    assert a >= n || b' >= |r|;
    assert Eval(ops, keys.left[i], l) == Null || Eval(ops, ShiftAll(keys.right, -n)[i], r) == Null;
  }

  lemma HashKeysOf(c: JoinCondition, n: nat)
    requires ExtractEquiKeys(c).Some?
    ensures var keys := SiftCondition(c);
      ShiftRight(ExtractEquiKeys(c).value, n) ==
        HashKeys(keys.left, ShiftAll(keys.right, -(n as int)), if keys.residual == [] then None
          else Some(Conjoin(keys.residual)))
  {
  }

  /** With column keys the hash join accepts a pair exactly if every key pair reads across and the keys and the
      residual hold. */
  lemma HashOfColumns(ops: Operators, c: JoinCondition, l: Row, r: Row)
    requires ExtractEquiKeys(c).Some? && KeyColumns(SiftCondition(c), |l| + |r|) && |l| + |r| < USIZE
    ensures var keys := SiftCondition(c);
      HashAccept(ops, ShiftRight(ExtractEquiKeys(c).value, |l|))(l, r) <==>
        Across(keys, |l|) && KeysMatch(ops, keys.left, l + r, keys.right, l + r) && AllTrue(ops, keys.residual, l + r)
  {
    hide KeysMatch, AllTrue, SiftCondition, ShiftAll, Eval;
    var keys := SiftCondition(c);
    HashKeysOf(c, |l|);
    ResidualTrue(ops, keys.residual, l + r);
    if Across(keys, |l|) {
      forall i | 0 <= i < |keys.left|
        ensures AllBelow(Columns(keys.left[i]), |l|) && Plain(keys.right[i]) && AllFrom(Columns(keys.right[i]), |l|)
      {
        assert AcrossAt(keys, |l|, i);
      }
      KeysApart(ops, keys.left, keys.right, l, r);
    } else {
      var i :| 0 <= i < |keys.left| && !AcrossAt(keys, |l|, i);
      MisreadKey(ops, keys, l, r, i);
    }
  }

  lemma ResidualTrue(ops: Operators, es: seq<Expr>, row: Row)
    ensures es != [] ==> (IsTrue(ops, Conjoin(es), row) <==> AllTrue(ops, es, row))
    ensures AllTrue(ops, [], row)
  {
    if es != [] {
      ConjoinTruth(ops, es, row);
      AllTruthIsAllTrue(ops, es, row);
    }
  }

  /** No pair of rows of these widths satisfies the condition. */
  ghost predicate AcceptsNone(ops: Operators, c: JoinCondition, wl: nat, wr: nat) {
    forall l: Row, r: Row {:trigger l + r} :: |l| == wl && |r| == wr ==> !Accepts(ops, c, l + r)
  }

  /** On all pairs of rows of these widths the dropped conjuncts follow from the keys and the residual. */
  ghost predicate DroppedFollow(ops: Operators, c: JoinCondition, wl: nat, wr: nat) {
    var keys := SiftCondition(c);
    forall l: Row, r: Row {:trigger l + r} :: |l| == wl && |r| == wr ==>
      KeysMatch(ops, keys.left, l + r, keys.right, l + r) && AllTrue(ops, keys.residual, l + r) ==>
        AllTrue(ops, Dropped(c), l + r)
  }

  /** A hash join on columns is exact if every pair names a left column first and a right one second and nothing that
      matters was dropped; otherwise only if there is nothing to accept. */
  lemma ColumnKeysIff(ops: Operators, c: JoinCondition, wl: nat, wr: nat)
    requires ExtractEquiKeys(c).Some? && KeyColumns(SiftCondition(c), wl + wr) && wl + wr < USIZE
    ensures HashExact(ops, c, wl, wr) <==>
      if Across(SiftCondition(c), wl) then DroppedFollow(ops, c, wl, wr) else AcceptsNone(ops, c, wl, wr)
  {
    hide HashAccept, Accepts, ShiftRight, ExtractEquiKeys, SiftCondition, KeysMatch, AllTrue, KeyColumns, Across,
      Dropped;
    forall l: Row, r: Row | |l| == wl && |r| == wr
      ensures var keys := SiftCondition(c);
        && (HashAccept(ops, ShiftRight(ExtractEquiKeys(c).value, wl))(l, r) <==>
            Across(keys, wl) && KeysMatch(ops, keys.left, l + r, keys.right, l + r) &&
              AllTrue(ops, keys.residual, l + r))
        && (Accepts(ops, c, l + r) <==>
            KeysMatch(ops, keys.left, l + r, keys.right, l + r) && AllTrue(ops, keys.residual, l + r) &&
            AllTrue(ops, Dropped(c), l + r))
    {
      HashOfColumns(ops, c, l, r);
      ConditionSplit(ops, c, l + r);
    }
  }

  /** For a condition that is nothing but equalities of columns, ON, USING or NATURAL, the hash join is exact exactly
      if each names a left column first and a right one second. */
  lemma EqualitiesIff(ops: Operators, c: JoinCondition, wl: nat, wr: nat)
    requires ExtractEquiKeys(c).Some? && KeyColumns(SiftCondition(c), wl + wr) && wl + wr < USIZE
    requires SiftCondition(c).residual == [] && Dropped(c) == []
    ensures HashExact(ops, c, wl, wr) <==> Across(SiftCondition(c), wl)
  {
    hide ExtractEquiKeys, HashExact, Across, Accepts, Eval;
    var keys, l, r := SiftCondition(c), seq(wl, _ => Int(0)), seq(wr, _ => Int(0));
    ColumnKeysIff(ops, c, wl, wr);
    ConditionSplit(ops, c, l + r);
    assert KeysMatch(ops, keys.left, l + r, keys.right, l + r) by {
      forall i | 0 <= i < |keys.left|
        ensures Eval(ops, keys.left[i], l + r) == Eval(ops, keys.right[i], l + r) == Int(0)
      {
        ReadColumn(ops, keys.left[i].index, l + r);
        ReadColumn(ops, keys.right[i].index, l + r);
      }
    }
    assert Accepts(ops, c, l + r);
  }

  lemma ColumnPairKeys(i: Usize, j: Usize)
    requires i != j
    ensures ExtractEquiKeys(On(ColumnEquality(i, j))) == Some(HashKeys([ColumnRef(i)], [ColumnRef(j)], None))
    ensures SiftCondition(On(ColumnEquality(i, j))) == EquiKeys([ColumnRef(i)], [ColumnRef(j)], [])
  {
    var e := ColumnEquality(i, j);
    assert SplitConjunctions(e) == [e] && [e][..0] == [];
    assert CollectScopeIndices(ColumnRef(i)) == [i] && CollectScopeIndices(ColumnRef(j)) == [j];
    assert IsKeyPair(e);
    assert Sift([e]) == EquiKeys([e.left], [e.right], []);
  }

  /** For an equality of two columns the hash join is right exactly when the first is a left column and the second a
      right one. */
  lemma ColumnEqualityIff(ops: Operators, i: Usize, j: Usize, wl: nat, wr: nat)
    requires i != j && i < wl + wr && j < wl + wr < USIZE
    ensures ExtractEquiKeys(On(ColumnEquality(i, j))).Some?
    ensures HashExact(ops, On(ColumnEquality(i, j)), wl, wr) <==> i < wl <= j
  {
    hide HashExact, ExtractEquiKeys, SiftCondition;
    ColumnPairKeys(i, j);
    EqualitiesIff(ops, On(ColumnEquality(i, j)), wl, wr);
    assert AcrossAt(EquiKeys([ColumnRef(i)], [ColumnRef(j)], []), wl, 0) <==> i < wl <= j;
  }

  // ---------------------------------------------------------------- what an inexact join does to a plan

  ghost predicate HashBreaks(env: Env, plan: Plan) {
    Lawful(env) && WellFormed(env, plan) && PhysRun(env, ToPhysical(plan)) != Run(env, plan)
  }

  lemma HashRunAB(env: Env, kind: JoinKind, c: JoinCondition, keys: HashKeys, wl: nat, wr: nat)
    requires ExtractEquiKeys(c) == Some(keys)
    ensures PhysRun(env, ToPhysical(JoinAB(kind, c, wl, wr))) ==
      JoinBy(kind, env.tables(0), env.tables(1), wl, wr, HashAccept(env.ops, ShiftRight(keys, wl)))
  {
    hide ExtractEquiKeys, HashAccept, JoinBy, ShiftRight, PhysRun;
    var left, right := PSeqScan(0, wl), PSeqScan(1, wr);
    RunPhysScan(env, 0, wl);
    RunPhysScan(env, 1, wr);
    assert ToPhysical(SeqScan(0, wl)) == left && ToPhysical(SeqScan(1, wr)) == right;
    assert ToPhysical(JoinAB(kind, c, wl, wr)) == JoinPlan(kind, left, right, c, wl + wr, Some(keys), wl);
    RunHash(env, kind, left, right, ShiftRight(keys, wl), wl + wr);
  }

  lemma RunPhysScan(env: Env, t: nat, w: nat)
    ensures PhysRun(env, PSeqScan(t, w)) == env.tables(t) && PhysWidth(PSeqScan(t, w)) == w
  {
  }

  /** One row pair the condition and its hash join disagree on. */
  lemma DisagreementBreaks(ops: Operators, c: JoinCondition, l: Row, r: Row)
    requires ExtractEquiKeys(c).Some? && |l| + |r| < USIZE
    requires HashAccept(ops, ShiftRight(ExtractEquiKeys(c).value, |l|))(l, r) != Accepts(ops, c, l + r)
    ensures HashBreaks(Sample(ops, [l], [r]), JoinAB(InnerJoin, c, |l|, |r|))
  {
    hide ExtractEquiKeys, HashAccept, JoinBy, ShiftRight, Accepts, Run, PhysRun, ToPhysical;
    var env, keys := Sample(ops, [l], [r]), ExtractEquiKeys(c).value;
    SampleLawful(ops, [l], [r]);
    FilteredJoinWellFormed(env, Literal(Null), InnerJoin, c, |l|, |r|);
    RunJoinAB(env, InnerJoin, c, |l|, |r|);
    HashRunAB(env, InnerJoin, c, keys, |l|, |r|);
    PairJoin(InnerJoin, l, r, |l|, |r|, Accept(ops, c));
    PairJoin(InnerJoin, l, r, |l|, |r|, HashAccept(ops, ShiftRight(keys, |l|)));
  }

  /** The physical plan of an inner join yields its rows, whatever the tables hold, exactly if its hash join is
      exact. */
  lemma InnerJoinIff(ops: Operators, c: JoinCondition, wl: nat, wr: nat)
    requires wl + wr < USIZE
    ensures HashExact(ops, c, wl, wr) <==>
      forall env: Env {:trigger Lawful(env)} ::
        env.ops == ops && Lawful(env) && WellFormed(env, JoinAB(InnerJoin, c, wl, wr)) ==>
        PhysRun(env, ToPhysical(JoinAB(InnerJoin, c, wl, wr))) == Run(env, JoinAB(InnerJoin, c, wl, wr))
  {
    hide ExtractEquiKeys, HashAccept, ShiftRight, Accepts, Run, PhysRun, ToPhysical;
    var plan := JoinAB(InnerJoin, c, wl, wr);
    if HashExact(ops, c, wl, wr) {
      forall env: Env | env.ops == ops && Lawful(env) && WellFormed(env, plan)
        ensures PhysRun(env, ToPhysical(plan)) == Run(env, plan)
      {
        assert EquiSafe(ops, plan) by { assert EquiSafe(ops, SeqScan(0, wl)) && EquiSafe(ops, SeqScan(1, wr)); }
        ToPhysicalKeepsRows(env, plan);
      }
    } else {
      var l: Row, r: Row :| |l| == wl && |r| == wr &&
        HashAccept(ops, ShiftRight(ExtractEquiKeys(c).value, wl))(l, r) != Accepts(ops, c, l + r);
      DisagreementBreaks(ops, c, l, r);
      assert Lawful(Sample(ops, [l], [r]));
    }
  }

  /** An equality naming the right table first is taken as keys the other way round: the matching row is lost. */
  lemma ReversedEqualityLosesRows()
    ensures HashBreaks(Sample(SampleOps(), [[Int(1)]], [[Int(1)]]), JoinAB(InnerJoin, On(ColumnEquality(1, 0)), 1, 1))
  {
    ColumnPairKeys(1, 0);
    MismatchLosesRow(On(ColumnEquality(1, 0)), EquiKeys([ColumnRef(1)], [ColumnRef(0)], []));
  }

  lemma MismatchLosesRow(c: JoinCondition, keys: EquiKeys)
    requires SiftCondition(c) == keys && KeyColumns(keys, 2) && |keys.left| == 1 && keys.residual == []
    requires Dropped(c) == [] && !AcrossAt(keys, 1, 0)
    ensures HashBreaks(Sample(SampleOps(), [[Int(1)]], [[Int(1)]]), JoinAB(InnerJoin, c, 1, 1))
  {
    hide HashAccept, Accepts, ShiftRight, Eval, HashBreaks;
    var ops, l, r := SampleOps(), [Int(1)], [Int(1)];
    HashOfColumns(ops, c, l, r);
    ConditionSplit(ops, c, l + r);
    ReadColumn(ops, keys.left[0].index, l + r);
    ReadColumn(ops, keys.right[0].index, l + r);
    assert KeysMatch(ops, keys.left, l + r, keys.right, l + r);
    DisagreementBreaks(ops, c, l, r);
  }
}
