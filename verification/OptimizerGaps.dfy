/** Plans outside the fragment where the optimizer changes the rows, and how tight the fragment is. */
module OptimizerGaps {
  import opened Wrappers
  import opened Expressions
  import opened RowOps
  import opened Plans
  import opened Optimizer

  function Compare(op: BinaryOp, a: Value, b: Value): Value {
    if !a.Int? || !b.Int? then Null
    else if op == GtEq then Bool(a.i >= b.i) else if op == LtEq then Bool(a.i <= b.i) else Null
  }

  /** Integer comparison, and a LIKE that matches everything. */
  function SampleOps(): Operators {
    Operators(Compare, v => v, (v, p) => Bool(true))
  }

  /** Every operator answers TRUE on non-null values. */
  function LaxOps(): Operators {
    Operators((op, a, b) => Bool(true), v => Bool(true), (v, p) => Bool(true))
  }

  /** Two tables, 0 and 1. */
  function Sample(ops: Operators, a: Rows, b: Rows): Env {
    Env(ops, t => if t == 0 then a else b, keys => (x, y) => true, (spec, rows) => [], (c, rows) => [])
  }

  lemma SampleLawful(ops: Operators, a: Rows, b: Rows)
    ensures Lawful(Sample(ops, a, b))
  {
    forall keys
      ensures Preorder(Sample(ops, a, b).order(keys))
    {
      assert Sample(ops, a, b).order(keys) == Sample(ops, a, b).order(keys);
    }
  }

  // ---------------------------------------------------------------- one row in each table

  /** One row on each side: what each join makes of them when it accepts the pair, and when a side is filtered away. */
  lemma PairJoin(kind: JoinKind, l: Row, r: Row, wl: nat, wr: nat, acc: (Row, Row) -> bool)
    ensures acc(l, r) ==> JoinBy(kind, [l], [r], wl, wr, acc) == [l + r]
    ensures !acc(l, r) && !KeepsLeft(kind) && !KeepsRight(kind) ==> JoinBy(kind, [l], [r], wl, wr, acc) == []
    ensures JoinBy(kind, [l], [], wl, wr, acc) == if KeepsLeft(kind) then [l + Nulls(wr)] else []
    ensures JoinBy(kind, [], [r], wl, wr, acc) == if KeepsRight(kind) then [Nulls(wl) + r] else []
  {
    assert [r][1..] == [] && [l][1..] == [] && [l][0] == l && [r][0] == r;
    assert Matches(l, [], acc) == [] && LeftPart(kind, [], [r], wr, acc) == [] && LeftPart(kind, [], [], wr, acc) == [];
    assert Matches(l, [r], acc) == if acc(l, r) then [l + r] else [];
    assert LeftPart(kind, [l], [r], wr, acc) == LeftRow(kind, l, [r], wr, acc);
    assert LeftPart(kind, [l], [], wr, acc) == LeftRow(kind, l, [], wr, acc);
    assert RightPart([l], [], wl, acc) == [] && RightPart([], [], wl, acc) == [];
    assert RightPart([], [r], wl, acc) == [Nulls(wl) + r];
    assert acc(l, r) ==> RightPart([l], [r], wl, acc) == [];
  }

  lemma PassOne(ops: Operators, e: Expr, row: Row)
    ensures Keep(Pass(ops, [e]), [row]) == if IsTrue(ops, e, row) then [row] else []
  {
    KeepCons(Pass(ops, [e]), row, []);
    assert AllTrue(ops, [e], row) <==> IsTrue(ops, [e][0], row);
  }

  function JoinAB(kind: JoinKind, c: JoinCondition, wl: nat, wr: nat): Plan {
    Join(kind, SeqScan(0, wl), SeqScan(1, wr), c, wl + wr)
  }

  lemma WrapFew(e: Expr, plan: Plan)
    ensures WrapFilters([], plan) == plan && WrapFilters([e], plan) == Filter(e, plan)
  {
    assert [e][1..] == [];
  }

  lemma RouteOne(e: Expr, n: nat)
    ensures Route([e], n) ==
      if GoesLeft(e, n) then Routed([e], [], [])
      else if GoesRight(e, n) then Routed([], [ShiftScopeIndices(e, -(n as int))], []) else Routed([], [], [e])
  {
    assert [e][..0] == [];
  }

  /** A predicate that is no conjunction, pushed into a join of the two tables. */
  lemma PushJoinAB(e: Expr, kind: JoinKind, c: JoinCondition, wl: nat, wr: nat)
    requires SingleConjunct(e)
    ensures Push(Filter(e, JoinAB(kind, c, wl, wr)), []) ==
      if GoesLeft(e, wl) then Join(kind, Filter(e, SeqScan(0, wl)), SeqScan(1, wr), c, wl + wr)
      else if GoesRight(e, wl) then Join(kind, SeqScan(0, wl),
        Filter(ShiftScopeIndices(e, -(wl as int)), SeqScan(1, wr)), c, wl + wr)
      else Filter(e, JoinAB(kind, c, wl, wr))
  {
    hide GoesLeft, GoesRight, ShiftScopeIndices, Route;
    var join, shifted := JoinAB(kind, c, wl, wr), ShiftScopeIndices(e, -(wl as int));
    assert [] + SplitConjunctions(e) == [e];
    RouteOne(e, wl);
    PushOnScan(e, 0, wl);
    PushOnScan(shifted, 1, wr);
    var pushed := Join(kind, Push(SeqScan(0, wl), Route([e], wl).left), Push(SeqScan(1, wr), Route([e], wl).right), c,
      wl + wr);
    assert Push(join, [e]) == WrapFilters(Route([e], wl).joint, pushed);
    WrapFew(e, pushed);
  }

  lemma PushOnScan(e: Expr, t: nat, w: nat)
    ensures Push(SeqScan(t, w), []) == SeqScan(t, w) && Push(SeqScan(t, w), [e]) == Filter(e, SeqScan(t, w))
  {
    WrapFew(e, SeqScan(t, w));
  }

  lemma RunScan(env: Env, t: nat, w: nat)
    ensures Run(env, SeqScan(t, w)) == env.tables(t) && Width(SeqScan(t, w)) == w
  {
  }

  lemma RunFilter(env: Env, e: Expr, input: Plan)
    ensures Run(env, Filter(e, input)) == Keep(Pass(env.ops, [e]), Run(env, input)) &&
      Width(Filter(e, input)) == Width(input)
  {
  }

  lemma RunJoined(env: Env, kind: JoinKind, l: Plan, r: Plan, c: JoinCondition, w: nat)
    ensures Run(env, Join(kind, l, r, c, w)) ==
      JoinBy(kind, Run(env, l), Run(env, r), Width(l), Width(r), Accept(env.ops, c))
  {
  }

  lemma RunJoinAB(env: Env, kind: JoinKind, c: JoinCondition, wl: nat, wr: nat)
    ensures Run(env, JoinAB(kind, c, wl, wr)) == JoinBy(kind, env.tables(0), env.tables(1), wl, wr, Accept(env.ops, c))
  {
    RunScan(env, 0, wl);
    RunScan(env, 1, wr);
    RunJoined(env, kind, SeqScan(0, wl), SeqScan(1, wr), c, wl + wr);
  }

  lemma RunFiltered(env: Env, e: Expr, kind: JoinKind, c: JoinCondition, wl: nat, wr: nat)
    ensures Run(env, Join(kind, Filter(e, SeqScan(0, wl)), SeqScan(1, wr), c, wl + wr)) ==
      JoinBy(kind, Keep(Pass(env.ops, [e]), env.tables(0)), env.tables(1), wl, wr, Accept(env.ops, c))
    ensures Run(env, Join(kind, SeqScan(0, wl), Filter(e, SeqScan(1, wr)), c, wl + wr)) ==
      JoinBy(kind, env.tables(0), Keep(Pass(env.ops, [e]), env.tables(1)), wl, wr, Accept(env.ops, c))
  {
    RunScan(env, 0, wl);
    RunScan(env, 1, wr);
    RunFilter(env, e, SeqScan(0, wl));
    RunFilter(env, e, SeqScan(1, wr));
    RunJoined(env, kind, Filter(e, SeqScan(0, wl)), SeqScan(1, wr), c, wl + wr);
    RunJoined(env, kind, SeqScan(0, wl), Filter(e, SeqScan(1, wr)), c, wl + wr);
  }

  lemma FilteredJoinWellFormed(env: Env, e: Expr, kind: JoinKind, c: JoinCondition, wl: nat, wr: nat)
    requires Wide(env.tables(0), wl) && Wide(env.tables(1), wr) && wl + wr < USIZE
    ensures WellFormed(env, JoinAB(kind, c, wl, wr)) && WellFormed(env, Filter(e, JoinAB(kind, c, wl, wr)))
  {
    assert WellFormed(env, SeqScan(0, wl)) && WellFormed(env, SeqScan(1, wr));
  }

  // ---------------------------------------------------------------- pushdown

  ghost predicate PushdownBreaks(env: Env, plan: Plan) {
    Lawful(env) && WellFormed(env, plan) && Run(env, Push(plan, [])) != Run(env, plan)
  }

  /** Pushdown keeps this plan's rows, whatever the data, the operators and the executor. */
  ghost predicate PushdownSafe(plan: Plan) {
    forall env: Env {:trigger Lawful(env)} :: Lawful(env) && WellFormed(env, plan) ==>
      Run(env, Push(plan, [])) == Run(env, plan)
  }

  lemma MovableIsSafe(plan: Plan)
    requires Movable(plan, [])
    ensures PushdownSafe(plan)
  {
    forall env: Env | Lawful(env) && WellFormed(env, plan)
      ensures Run(env, Push(plan, [])) == Run(env, plan)
    {
      PushKeepsRows(env, plan, []);
      KeepAll(Pass(env.ops, []), Run(env, plan));
    }
  }

  /** The filter above keeps the only row of a join, or drops it. */
  lemma FilterAbove(env: Env, e: Expr, kind: JoinKind, l: Row, r: Row)
    requires env.tables(0) == [l] && env.tables(1) == [r]
    ensures Run(env, Filter(e, JoinAB(kind, NoCondition, |l|, |r|))) == if IsTrue(env.ops, e, l + r) then [l + r]
      else []
  {
    RunJoinAB(env, kind, NoCondition, |l|, |r|);
    PairJoin(kind, l, r, |l|, |r|, Accept(env.ops, NoCondition));
    RunFilter(env, e, JoinAB(kind, NoCondition, |l|, |r|));
    PassOne(env.ops, e, l + r);
  }

  /** A filter below that drops the left or the right row leaves what the join preserves of the other side. */
  lemma FilterBelow(env: Env, e: Expr, kind: JoinKind, l: Row, r: Row)
    requires env.tables(0) == [l] && env.tables(1) == [r]
    ensures !IsTrue(env.ops, e, l) ==>
      Run(env, Join(kind, Filter(e, SeqScan(0, |l|)), SeqScan(1, |r|), NoCondition, |l| + |r|)) ==
        if KeepsRight(kind) then [Nulls(|l|) + r] else []
    ensures !IsTrue(env.ops, e, r) ==>
      Run(env, Join(kind, SeqScan(0, |l|), Filter(e, SeqScan(1, |r|)), NoCondition, |l| + |r|)) ==
        if KeepsLeft(kind) then [l + Nulls(|r|)] else []
  {
    hide Run, Eval, Keep, IsTrue, JoinBy;
    RunFiltered(env, e, kind, NoCondition, |l|, |r|);
    PassOne(env.ops, e, l);
    PassOne(env.ops, e, r);
    PairJoin(kind, l, r, |l|, |r|, Accept(env.ops, NoCondition));
  }

  /** A predicate pushed to a side where it is not true changes the rows: above an inner join it costs the row it
      would have kept; above an outer join preserving the other side it brings back a row it would have dropped. */
  lemma PushedPredicateBreaks(ops: Operators, e: Expr, kind: JoinKind, l: Row, r: Row)
    requires |l| + |r| < USIZE && SingleConjunct(e)
    requires (GoesLeft(e, |l|) && !IsTrue(ops, e, l) && IsTrue(ops, e, l + r) != KeepsRight(kind))
          || (GoesRight(e, |l|) && !IsTrue(ops, ShiftScopeIndices(e, -|l|), r) &&
            IsTrue(ops, e, l + r) != KeepsLeft(kind))
    ensures PushdownBreaks(Sample(ops, [l], [r]), Filter(e, JoinAB(kind, NoCondition, |l|, |r|)))
  {
    hide Eval, ShiftScopeIndices, CollectScopeIndices, Push, Run;
    var env := Sample(ops, [l], [r]);
    SampleLawful(ops, [l], [r]);
    FilteredJoinWellFormed(env, e, kind, NoCondition, |l|, |r|);
    PushJoinAB(e, kind, NoCondition, |l|, |r|);
    FilterAbove(env, e, kind, l, r);
    if GoesLeft(e, |l|) {
      FilterBelow(env, e, kind, l, r);
    } else {
      FilterBelow(env, ShiftScopeIndices(e, -|l|), kind, l, r);
    }
  }

  // ---------------------------------------------------------------- single conjuncts above a join

  /** All NULL but for one value. */
  function Only(n: nat, k: nat, v: Value): (row: Row)
    ensures |row| == n
  {
    seq(n, i => if i == k then v else Null)
  }

  lemma MovableAbove(e: Expr, kind: JoinKind, wl: nat, wr: nat)
    requires SingleConjunct(e) && Crosses(e, wl)
    requires (GoesLeft(e, wl) ==> !KeepsRight(kind)) && (GoesRight(e, wl) ==> !KeepsLeft(kind))
    ensures PushdownSafe(Filter(e, JoinAB(kind, NoCondition, wl, wr)))
  {
    hide *;
    MovableJoin(e, kind, wl, wr);
    MovableIsSafe(Filter(e, JoinAB(kind, NoCondition, wl, wr)));
  }

  lemma MovableJoin(e: Expr, kind: JoinKind, wl: nat, wr: nat)
    requires SingleConjunct(e) && Crosses(e, wl)
    requires (GoesLeft(e, wl) ==> !KeepsRight(kind)) && (GoesRight(e, wl) ==> !KeepsLeft(kind))
    ensures Movable(Filter(e, JoinAB(kind, NoCondition, wl, wr)), [])
  {
    hide GoesLeft, GoesRight, ShiftScopeIndices, Crosses, Route;
    assert [] + SplitConjunctions(e) == [e];
    RouteOne(e, wl);
    assert Crossable([e], wl);
    MovableScan(0, wl, Route([e], wl).left);
    MovableScan(1, wr, Route([e], wl).right);
    assert Movable(JoinAB(kind, NoCondition, wl, wr), [e]);
  }

  lemma MovableScan(t: nat, w: nat, preds: seq<Expr>)
    ensures Movable(SeqScan(t, w), preds) && Width(SeqScan(t, w)) == w
  {
  }

  /** LIKE hides its columns and always goes left: right exactly when its column is a left one. */
  lemma LikePushIff(i: Usize, v: Value, wl: nat, wr: nat)
    requires v != Null && i < wl + wr < USIZE
    ensures PushdownSafe(Filter(Like(ColumnRef(i), Literal(v)), JoinAB(Cross, NoCondition, wl, wr))) <==> i < wl
  {
    var e := Like(ColumnRef(i), Literal(v));
    assert Columns(e) == Columns(ColumnRef(i)) + Columns(Literal(v)) == [i];
    assert |CollectScopeIndices(Like(ColumnRef(i), Literal(v)))| == 0;
    if i < wl {
      MovableAbove(e, Cross, wl, wr);
    } else {
      var l, r := Nulls(wl), Only(wr, i - wl, Int(1));
      assert (l + r)[i] == Int(1) && Eval(LaxOps(), ColumnRef(i), l + r) == Int(1);
      assert Eval(LaxOps(), ColumnRef(i), l) == Null;
      assert Eval(LaxOps(), Literal(v), l + r) == v && LaxOps().like(Int(1), v) == Bool(true);
      assert IsTrue(LaxOps(), e, l + r) && !IsTrue(LaxOps(), e, l);
      PushedPredicateBreaks(LaxOps(), e, Cross, l, r);
    }
  }

  lemma OneColumnBetween(i: Usize, a: Value, b: Value)
    ensures Columns(Between(ColumnRef(i), Literal(a), Literal(b))) == [i]
    ensures CollectScopeIndices(Between(ColumnRef(i), Literal(a), Literal(b))) == [i]
  {
    var x, low, high := ColumnRef(i), Literal(a), Literal(b);
    assert Columns(x) == [i] && Columns(low) == [] && Columns(high) == [];
    assert CollectScopeIndices(x) == [i] && CollectScopeIndices(low) == [] && CollectScopeIndices(high) == [];
    assert Columns(Between(x, low, high)) == Columns(x) + Columns(low) + Columns(high);
    assert CollectScopeIndices(Between(x, low, high)) ==
      CollectScopeIndices(x) + CollectScopeIndices(low) + CollectScopeIndices(high);
  }

  /** BETWEEN is not re-indexed: right exactly when its column is a left one or there is nothing to re-index by. */
  lemma BetweenPushIff(i: Usize, a: Value, b: Value, wl: nat, wr: nat)
    requires a != Null && b != Null && i < wl + wr < USIZE
    ensures PushdownSafe(Filter(Between(ColumnRef(i), Literal(a), Literal(b)), JoinAB(Cross, NoCondition, wl, wr))) <==>
      i < wl || wl == 0
  {
    var e := Between(ColumnRef(i), Literal(a), Literal(b));
    OneColumnBetween(i, a, b);
    assert [i][0] == i;
    if i < wl || wl == 0 {
      MovableAbove(e, Cross, wl, wr);
    } else {
      var ops, l, r := LaxOps(), Nulls(wl), Only(wr, i - wl, Int(1));
      assert (l + r)[i] == Int(1) && Eval(ops, ColumnRef(i), l + r) == Int(1);
      assert Eval(ops, Literal(a), l + r) == a && Eval(ops, Literal(b), l + r) == b;
      assert IsTrue(ops, e, l + r);
      assert Eval(ops, ColumnRef(i), r) == Null;
      assert !IsTrue(ops, e, r);
      assert GoesRight(e, |l|) && !GoesLeft(e, |l|) && ShiftScopeIndices(e, -|l|) == e;
      PushedPredicateBreaks(ops, e, Cross, l, r);
    }
  }

  /** Whatever the operators, every row of this width passes. */
  ghost predicate AlwaysTrue(e: Expr, w: nat) {
    forall ops: Operators, row: Row {:trigger IsTrue(ops, e, row)} :: |row| == w ==> IsTrue(ops, e, row)
  }

  /** A predicate that goes to a side an outer join brings rows back for: right exactly when it drops nothing there. */
  lemma OuterPushIff(e: Expr, kind: JoinKind, wl: nat, wr: nat)
    requires SingleConjunct(e) && Crosses(e, wl) && wl + wr < USIZE
    ensures PushdownSafe(Filter(e, JoinAB(kind, NoCondition, wl, wr))) <==>
      && (GoesLeft(e, wl) && KeepsRight(kind) ==> AlwaysTrue(e, wl))
      && (GoesRight(e, wl) && KeepsLeft(kind) ==> AlwaysTrue(ShiftScopeIndices(e, -(wl as int)), wr))
  {
    hide GoesLeft, ShiftScopeIndices, IsTrue, Crosses, AllTrue;
    if GoesLeft(e, wl) && KeepsRight(kind) {
      if ops: Operators, l: Row :| |l| == wl && !IsTrue(ops, e, l) {
        MoveLeft(ops, e, l, Nulls(wr));
        PushedPredicateBreaks(ops, e, kind, l, Nulls(wr));
      } else {
        PassesAbove(e, e, true, kind, wl, wr);
      }
    } else if GoesRight(e, wl) && KeepsLeft(kind) {
      var shifted := ShiftScopeIndices(e, -(wl as int));
      if ops: Operators, r: Row :| |r| == wr && !IsTrue(ops, shifted, r) {
        MoveRight(ops, e, Nulls(wl), r);
        PushedPredicateBreaks(ops, e, kind, Nulls(wl), r);
      } else {
        PassesAbove(e, shifted, false, kind, wl, wr);
      }
    } else {
      MovableAbove(e, kind, wl, wr);
    }
  }

  /** A predicate that drops nothing on its side drops nothing above the join either. */
  lemma PassesAbove(e: Expr, below: Expr, left: bool, kind: JoinKind, wl: nat, wr: nat)
    requires SingleConjunct(e) && Crosses(e, wl) && AlwaysTrue(below, if left then wl else wr)
    requires if left then GoesLeft(e, wl) && below == e
      else GoesRight(e, wl) && below == ShiftScopeIndices(e, -(wl as int))
    ensures PushdownSafe(Filter(e, JoinAB(kind, NoCondition, wl, wr)))
  {
    hide GoesLeft, ShiftScopeIndices, IsTrue, Crosses, AllTrue, Run, Push, JoinBy;
    var join, c := JoinAB(kind, NoCondition, wl, wr), NoCondition;
    forall env: Env | Lawful(env) && WellFormed(env, Filter(e, join))
      ensures Run(env, Push(Filter(e, join), [])) == Run(env, Filter(e, join))
    {
      var ls, rs, acc := env.tables(0), env.tables(1), Accept(env.ops, c);
      assert WellFormed(env, join) && WellFormed(env, join.left) && WellFormed(env, join.right);
      PushJoinAB(e, kind, c, wl, wr);
      RunFiltered(env, below, kind, c, wl, wr);
      RunFilter(env, e, join);
      RunJoinAB(env, kind, c, wl, wr);
      JoinWide(kind, ls, rs, wl, wr, acc);
      KeepAlways(env.ops, below, if left then ls else rs, if left then wl else wr);
      forall row: Row | |row| == wl + wr
        ensures IsTrue(env.ops, e, row)
      {
        var l, r := row[..wl], row[wl..];
        assert row == l + r;
        if left { MoveLeft(env.ops, e, l, r); } else { MoveRight(env.ops, e, l, r); }
      }
      KeepOne(env.ops, e, JoinBy(kind, ls, rs, wl, wr, acc), wl + wr);
    }
  }

  lemma KeepOne(ops: Operators, e: Expr, rows: Rows, w: nat)
    requires Wide(rows, w) && forall row: Row :: |row| == w ==> IsTrue(ops, e, row)
    ensures Keep(Pass(ops, [e]), rows) == rows
  {
    forall i | 0 <= i < |rows|
      ensures Pass(ops, [e])(rows[i])
    {
      assert IsTrue(ops, [e][0], rows[i]);
    }
    KeepAll(Pass(ops, [e]), rows);
  }

  lemma KeepAlways(ops: Operators, e: Expr, rows: Rows, w: nat)
    requires Wide(rows, w) && AlwaysTrue(e, w)
    ensures Keep(Pass(ops, [e]), rows) == rows
  {
    KeepOne(ops, e, rows, w);
  }

  /** IS NULL on a column: right exactly when no join brings rows back for that column's side. */
  lemma IsNullPushIff(i: Usize, kind: JoinKind, wl: nat, wr: nat)
    requires i < wl + wr < USIZE
    ensures PushdownSafe(Filter(IsNull(ColumnRef(i)), JoinAB(kind, NoCondition, wl, wr))) <==>
      if i < wl then !KeepsRight(kind) else !KeepsLeft(kind)
  {
    var e := IsNull(ColumnRef(i));
    assert Columns(e) == Columns(ColumnRef(i)) == [i] && [i][0] == i;
    assert CollectScopeIndices(e) == CollectScopeIndices(ColumnRef(i)) == [i];
    assert Crosses(e, wl) && GoesLeft(e, wl) == (i < wl);
    OuterPushIff(e, kind, wl, wr);
    if i < wl {
      assert Eval(LaxOps(), ColumnRef(i), Only(wl, i, Int(1))) == Int(1);
      assert !IsTrue(LaxOps(), e, Only(wl, i, Int(1)));
    } else {
      var l, r := Nulls(wl), Only(wr, i - wl, Int(1));
      assert (l + r)[i] == Int(1) && Eval(LaxOps(), ColumnRef(i), l + r) == Int(1);
      assert !IsTrue(LaxOps(), e, l + r);
      MoveRight(LaxOps(), e, l, r);
    }
  }

  // ---------------------------------------------------------------- projections, updates, deletes

  lemma RunProjection(env: Env, es: seq<Expr>, input: Plan)
    ensures Run(env, Projection(es, input)) == Project(env.ops, es, Run(env, input))
  {
  }

  lemma ProjectOne(ops: Operators, es: seq<Expr>, row: Row)
    ensures Project(ops, es, [row]) == [EvalAll(ops, es, row)] && Project(ops, es, []) == []
  {
    assert [row][1..] == [];
  }

  lemma PushProjected(e: Expr, es: seq<Expr>, w: nat)
    requires SingleConjunct(e)
    ensures Push(Filter(e, Projection(es, SeqScan(0, w))), []) == Projection(es, Filter(e, SeqScan(0, w)))
  {
    var scan := SeqScan(0, w);
    assert [] + SplitConjunctions(e) == [e];
    WrapFew(e, scan);
    assert Push(scan, [e]) == Filter(e, scan);
    assert Push(Projection(es, scan), [e]) == Projection(es, Push(scan, [e]));
  }

  /** A predicate pushed below a projection that means something else there keeps or loses the wrong row. */
  lemma ProjectedPredicateBreaks(ops: Operators, e: Expr, es: seq<Expr>, row: Row)
    requires SingleConjunct(e) && IsTrue(ops, e, EvalAll(ops, es, row)) != IsTrue(ops, e, row)
    ensures PushdownBreaks(Sample(ops, [row], []), Filter(e, Projection(es, SeqScan(0, |row|))))
  {
    hide Eval, EvalAll, Run, Push, Project;
    var env, scan := Sample(ops, [row], []), SeqScan(0, |row|);
    SampleLawful(ops, [row], []);
    PushProjected(e, es, |row|);
    RunScan(env, 0, |row|);
    RunFilter(env, e, scan);
    RunFilter(env, e, Projection(es, scan));
    RunProjection(env, es, scan);
    RunProjection(env, es, Filter(e, scan));
    PassOne(ops, e, row);
    PassOne(ops, e, EvalAll(ops, es, row));
    ProjectOne(ops, es, row);
    assert WellFormed(env, scan) && WellFormed(env, Projection(es, scan));
  }

  function EqualsConstant(i: Usize, v: Value): Expr {
    Binary(ColumnRef(i), Eq, Literal(v))
  }

  lemma TestsConstant(ops: Operators, i: Usize, v: Value, row: Row)
    requires i < |row| && v != Null
    ensures IsTrue(ops, EqualsConstant(i, v), row) <==> row[i] == v
  {
    assert Eval(ops, ColumnRef(i), row) == row[i] && Eval(ops, Literal(v), row) == v;
    assert Eval(ops, EqualsConstant(i, v), row) == ApplyBinary(ops, Eq, row[i], v);
  }

  lemma MovableProjected(e: Expr, es: seq<Expr>, w: nat)
    requires SingleConjunct(e) && Transparent(es, e)
    ensures PushdownSafe(Filter(e, Projection(es, SeqScan(0, w))))
  {
    assert [] + SplitConjunctions(e) == [e];
    assert Movable(Projection(es, SeqScan(0, w)), [e]);
    MovableIsSafe(Filter(e, Projection(es, SeqScan(0, w))));
  }

  /** Column i passes a projection exactly when every test of it against a constant keeps its rows. */
  lemma ProjectionPushIff(es: seq<Expr>, i: Usize, w: nat)
    requires i < |es| && i < w
    ensures (forall v: Value {:trigger EqualsConstant(i, v)} :: v != Null ==>
        PushdownSafe(Filter(EqualsConstant(i, v), Projection(es, SeqScan(0, w))))) <==> es[i] == ColumnRef(i)
  {
    hide PushdownSafe;
    if es[i] == ColumnRef(i) {
      forall v: Value | v != Null
        ensures PushdownSafe(Filter(EqualsConstant(i, v), Projection(es, SeqScan(0, w))))
      {
        assert Columns(EqualsConstant(i, v)) == [i];
        MovableProjected(EqualsConstant(i, v), es, w);
      }
    } else {
      var v := if es[i] == Literal(Int(1)) then Int(2) else Int(1);
      var e, row := EqualsConstant(i, v), Only(w, i, v);
      var image := EvalAll(LaxOps(), es, row);
      NotThatConstant(es[i], v, i, row);
      TestsConstant(LaxOps(), i, v, row);
      TestsConstant(LaxOps(), i, v, image);
      ProjectedPredicateBreaks(LaxOps(), e, es, row);
      BrokenIsUnsafe(Sample(LaxOps(), [row], []), Filter(e, Projection(es, SeqScan(0, w))));
    }
  }

  lemma BrokenIsUnsafe(env: Env, plan: Plan)
    requires PushdownBreaks(env, plan)
    ensures !PushdownSafe(plan)
  {
  }

  lemma NotThatConstant(e: Expr, v: Value, i: nat, row: Row)
    requires v.Int? && e != Literal(v) && (e.ColumnRef? ==> e.index != i) && row == Only(|row|, i, v)
    ensures Eval(LaxOps(), e, row) != v
  {
  }

  ghost predicate IsNullPasses(cs: seq<Usize>, i: Usize, w: nat)
    requires i < |cs|
  {
    PushdownSafe(Filter(IsNull(ColumnRef(i)), Projection(Picks(cs), SeqScan(0, w))))
  }

  function Picks(cs: seq<Usize>): seq<Expr> {
    seq(|cs|, k requires 0 <= k < |cs| => ColumnRef(cs[k]))
  }

  /** IS NULL passes a projection that picks columns exactly when its column stays in place. */
  lemma IsNullProjectionIff(cs: seq<Usize>, i: Usize, w: nat)
    requires i < |cs| && forall k :: 0 <= k < |cs| ==> cs[k] < w
    ensures IsNullPasses(cs, i, w) <==> cs[i] == i
  {
    hide PushdownSafe;
    var e, es := IsNull(ColumnRef(i)), Picks(cs);
    assert Columns(e) == [i];
    if cs[i] == i {
      MovableProjected(e, es, w);
    } else {
      var row := Only(w, cs[i], Int(1));
      var image := EvalAll(SampleOps(), es, row);
      assert Eval(SampleOps(), es[i], row) == Int(1) && Eval(SampleOps(), ColumnRef(i), image) == Int(1);
      assert Eval(SampleOps(), ColumnRef(i), row) == Null;
      assert IsTrue(SampleOps(), e, row) && !IsTrue(SampleOps(), e, image);
      ProjectedPredicateBreaks(SampleOps(), e, es, row);
      BrokenIsUnsafe(Sample(SampleOps(), [row], []), Filter(e, Projection(es, SeqScan(0, w))));
    }
  }

  /** A filter above and below a change, conjunctions included. */
  lemma ChangeRuns(env: Env, e: Expr, c: Change, w: nat)
    ensures var p, rows := Pass(env.ops, [e]), env.tables(0);
      var above, below := Keep(p, env.change(c, rows)), env.change(c, Keep(p, rows));
      && Run(env, Filter(e, Update(c, SeqScan(0, w)))) == Run(env, Filter(e, Delete(c, SeqScan(0, w)))) == above
      && Run(env, Push(Filter(e, Update(c, SeqScan(0, w))), [])) ==
        Run(env, Push(Filter(e, Delete(c, SeqScan(0, w))), [])) == below
  {
    hide Keep, AllTrue, Eval, Push;
    var scan := SeqScan(0, w);
    RunScan(env, 0, w);
    assert Run(env, Update(c, scan)) == Run(env, Delete(c, scan)) == env.change(c, Run(env, scan));
    RunFilter(env, e, Update(c, scan));
    RunFilter(env, e, Delete(c, scan));
    ChangePushed(env, e, c, w);
  }

  lemma ChangePushed(env: Env, e: Expr, c: Change, w: nat)
    ensures var below := env.change(c, Keep(Pass(env.ops, [e]), env.tables(0)));
      && Run(env, Push(Filter(e, Update(c, SeqScan(0, w))), [])) == below
      && Run(env, Push(Filter(e, Delete(c, SeqScan(0, w))), [])) == below
  {
    hide Keep, AllTrue, Eval, Push;
    var plan := WrapFilters(SplitConjunctions(e), SeqScan(0, w));
    PushedChange(e, c, w);
    ScanPushed(env, e, w);
    assert Run(env, Update(c, plan)) == Run(env, Delete(c, plan)) == env.change(c, Run(env, plan));
  }

  lemma PushedChange(e: Expr, c: Change, w: nat)
    ensures var scan := SeqScan(0, w);
      var plan := WrapFilters(SplitConjunctions(e), scan);
      && Push(Filter(e, Update(c, scan)), []) == Update(c, plan)
      && Push(Filter(e, Delete(c, scan)), []) == Delete(c, plan)
  {
    var scan, parts := SeqScan(0, w), SplitConjunctions(e);
    var plan := WrapFilters(parts, scan);
    assert [] + parts == parts && Push(scan, parts) == plan;
    assert Push(Update(c, scan), parts) == Update(c, plan) && Push(Delete(c, scan), parts) == Delete(c, plan);
  }

  lemma ScanPushed(env: Env, e: Expr, w: nat)
    ensures Run(env, WrapFilters(SplitConjunctions(e), SeqScan(0, w))) == Keep(Pass(env.ops, [e]), env.tables(0))
  {
    hide Keep, AllTrue, Eval, Push;
    var parts := SplitConjunctions(e);
    RunScan(env, 0, w);
    WrapKeeps(env, parts, SeqScan(0, w));
    PushFilter(env, e, [], env.tables(0));
    KeepNothing(env.ops, Keep(Pass(env.ops, [e]), env.tables(0)));
    assert [] + parts == parts;
  }

  lemma KeepNothing(ops: Operators, rows: Rows)
    ensures Keep(Pass(ops, []), rows) == rows
  {
    KeepAll(Pass(ops, []), rows);
  }

  /** The same table for every scan, and a change that does as told. */
  function Changing(ops: Operators, rows: Rows, report: Rows -> Rows): Env {
    Env(ops, t => rows, keys => (x, y) => true, (spec, given) => [], (c, given) => report(given))
  }

  lemma ChangingLawful(ops: Operators, rows: Rows, report: Rows -> Rows)
    requires forall given :: Wide(report(given), 1)
    ensures Lawful(Changing(ops, rows, report))
  {
    var env := Changing(ops, rows, report);
    forall keys
      ensures Preorder(env.order(keys))
    {
      assert env.order(keys) == env.order(keys);
    }
  }

  /** A predicate above an update or a delete: right exactly when it drops no report and no row to be changed. */
  lemma ChangePushIff(e: Expr, c: Change, w: nat)
    ensures PushdownSafe(Filter(e, Update(c, SeqScan(0, w)))) <==> AlwaysTrue(e, 1) && AlwaysTrue(e, w)
    ensures PushdownSafe(Filter(e, Delete(c, SeqScan(0, w)))) <==> AlwaysTrue(e, 1) && AlwaysTrue(e, w)
  {
    hide IsTrue, Run, Push, AllTrue;
    var scan := SeqScan(0, w);
    if ops: Operators, row: Row :| |row| == 1 && !IsTrue(ops, e, row) {
      PassOne(ops, e, row);
      ChangeBreaks(ops, e, c, w, [], given => [row]);
    } else if ops: Operators, row: Row :| |row| == w && !IsTrue(ops, e, row) {
      PassOne(ops, e, row);
      PassOne(ops, e, [Int(1)]);
      assert IsTrue(ops, e, [Int(1)]);
      ChangeBreaks(ops, e, c, w, [row], given => if given == [] then [] else [[Int(1)]]);
    } else {
      forall env: Env | Lawful(env) &&
        (WellFormed(env, Filter(e, Update(c, scan))) || WellFormed(env, Filter(e, Delete(c, scan))))
        ensures Run(env, Push(Filter(e, Update(c, scan)), [])) == Run(env, Filter(e, Update(c, scan)))
        ensures Run(env, Push(Filter(e, Delete(c, scan)), [])) == Run(env, Filter(e, Delete(c, scan)))
      {
        assert WellFormed(env, Update(c, scan)) || WellFormed(env, Delete(c, scan));
        assert WellFormed(env, scan);
        ChangeRuns(env, e, c, w);
        KeepAlways(env.ops, e, env.tables(0), w);
        KeepAlways(env.ops, e, env.change(c, env.tables(0)), 1);
      }
    }
  }

  lemma ChangeBreaks(ops: Operators, e: Expr, c: Change, w: nat, rows: Rows, report: Rows -> Rows)
    requires Wide(rows, w) && forall given :: Wide(report(given), 1)
    requires Keep(Pass(ops, [e]), report(rows)) != report(Keep(Pass(ops, [e]), rows))
    ensures PushdownBreaks(Changing(ops, rows, report), Filter(e, Update(c, SeqScan(0, w))))
    ensures PushdownBreaks(Changing(ops, rows, report), Filter(e, Delete(c, SeqScan(0, w))))
  {
    hide Run, Push, Keep;
    var env, scan := Changing(ops, rows, report), SeqScan(0, w);
    ChangingLawful(ops, rows, report);
    ChangeRuns(env, e, c, w);
    assert WellFormed(env, scan) && WellFormed(env, Update(c, scan)) && WellFormed(env, Delete(c, scan));
  }

  // ---------------------------------------------------------------- filters below a join of any condition

  function OnBoth(pl: Row -> bool, pr: Row -> bool, wl: nat): Row -> bool {
    row => |row| >= wl && pl(row[..wl]) && pr(row[wl..])
  }

  /** Filters on each side act below the join as they act above it, whatever the inputs and the join condition. */
  ghost predicate FiltersBelow(kind: JoinKind, pl: Row -> bool, pr: Row -> bool, wl: nat, wr: nat) {
    forall ls: Rows, rs: Rows, acc: (Row, Row) -> bool {:trigger JoinBy(kind, ls, rs, wl, wr, acc)} ::
      Wide(ls, wl) && Wide(rs, wr) ==>
      Keep(OnBoth(pl, pr, wl), JoinBy(kind, ls, rs, wl, wr, acc)) ==
      JoinBy(kind, Keep(pl, ls), Keep(pr, rs), wl, wr, acc)
  }

  ghost predicate PassesAll(p: Row -> bool, w: nat) {
    forall row: Row :: |row| == w ==> p(row)
  }

  ghost predicate PassesNone(p: Row -> bool, w: nat) {
    forall row: Row :: |row| == w ==> !p(row)
  }

  /** Filters may sink below a join exactly when neither can turn a match it drops into a row the join brings back. */
  lemma JoinPushIff(kind: JoinKind, pl: Row -> bool, pr: Row -> bool, wl: nat, wr: nat)
    ensures FiltersBelow(kind, pl, pr, wl, wr) <==>
      && (KeepsLeft(kind) ==> PassesAll(pr, wr) || PassesNone(pl, wl))
      && (KeepsRight(kind) ==> PassesAll(pl, wl) || PassesNone(pr, wr))
  {
    hide FiltersBelow, JoinBy, Keep;
    if l: Row, r: Row :|
        |l| == wl && |r| == wr && ((KeepsLeft(kind) && pl(l) && !pr(r)) || (KeepsRight(kind) && pr(r) && !pl(l))) {
      BroughtBack(kind, pl, pr, l, r);
    } else {
      assert KeepsLeft(kind) ==> PassesAll(pr, wr) || PassesNone(pl, wl);
      assert KeepsRight(kind) ==> PassesAll(pl, wl) || PassesNone(pr, wr);
      FiltersSink(kind, pl, pr, wl, wr);
    }
  }

  lemma BroughtBack(kind: JoinKind, pl: Row -> bool, pr: Row -> bool, l: Row, r: Row)
    requires (KeepsLeft(kind) && pl(l) && !pr(r)) || (KeepsRight(kind) && pr(r) && !pl(l))
    ensures !FiltersBelow(kind, pl, pr, |l|, |r|)
  {
    hide JoinBy, Keep;
    var always := (a: Row, b: Row) => true;
    PairJoin(kind, l, r, |l|, |r|, always);
    assert JoinBy(kind, [l], [r], |l|, |r|, always) == [l + r];
    KeepCons(OnBoth(pl, pr, |l|), l + r, []);
    KeepCons(pl, l, []);
    KeepCons(pr, r, []);
    assert (l + r)[..|l|] == l && (l + r)[|l|..] == r;
    assert Wide([l], |l|) && Wide([r], |r|);
  }

  lemma FiltersSink(kind: JoinKind, pl: Row -> bool, pr: Row -> bool, wl: nat, wr: nat)
    requires KeepsLeft(kind) ==> PassesAll(pr, wr) || PassesNone(pl, wl)
    requires KeepsRight(kind) ==> PassesAll(pl, wl) || PassesNone(pr, wr)
    ensures FiltersBelow(kind, pl, pr, wl, wr)
  {
    hide JoinBy, Keep;
    forall ls: Rows, rs: Rows, acc: (Row, Row) -> bool | Wide(ls, wl) && Wide(rs, wr)
      ensures Keep(OnBoth(pl, pr, wl), JoinBy(kind, ls, rs, wl, wr, acc)) ==
        JoinBy(kind, Keep(pl, ls), Keep(pr, rs), wl, wr, acc)
    {
      if (KeepsLeft(kind) ==> PassesAll(pr, wr)) && (KeepsRight(kind) ==> PassesAll(pl, wl)) {
        SinkAll(kind, ls, rs, acc, pl, pr, wl, wr);
      } else {
        assert pl(Nulls(wl)) || !pl(Nulls(wl));
        assert pr(Nulls(wr)) || !pr(Nulls(wr));
        SinkNone(kind, ls, rs, acc, pl, pr, wl, wr);
      }
    }
  }

  lemma SinkAll(kind: JoinKind, ls: Rows, rs: Rows, acc: (Row, Row) -> bool, pl: Row -> bool, pr: Row -> bool, wl: nat,
                wr: nat)
    requires Wide(ls, wl) && Wide(rs, wr) && (KeepsLeft(kind) ==> PassesAll(pr, wr)) &&
      (KeepsRight(kind) ==> PassesAll(pl, wl))
    ensures Keep(OnBoth(pl, pr, wl), JoinBy(kind, ls, rs, wl, wr, acc)) ==
      JoinBy(kind, Keep(pl, ls), Keep(pr, rs), wl, wr, acc)
  {
    hide JoinBy, Keep;
    var p, always := OnBoth(pl, pr, wl), (row: Row) => true;
    var pl', pr' := (row: Row) => |row| == wl ==> pl(row), (row: Row) => |row| == wr ==> pr(row);
    forall l: Row, r: Row | |l| == wl && |r| == wr
      ensures p(l + r) <==> pl'(l) && pr'(r) && always(l + r)
    {
      assert (l + r)[..wl] == l && (l + r)[wl..] == r;
    }
    KeepJoin(kind, ls, rs, acc, p, pl', pr', always, wl, wr);
    KeepSame(pl, pl', ls);
    KeepSame(pr, pr', rs);
    KeepAll(always, JoinBy(kind, Keep(pl, ls), Keep(pr, rs), wl, wr, acc));
  }

  lemma SinkNone(kind: JoinKind, ls: Rows, rs: Rows, acc: (Row, Row) -> bool, pl: Row -> bool, pr: Row -> bool, wl: nat,
                 wr: nat)
    requires Wide(ls, wl) && Wide(rs, wr) && (PassesNone(pl, wl) || PassesNone(pr, wr))
    requires (KeepsLeft(kind) ==> PassesNone(pl, wl)) && (KeepsRight(kind) ==> PassesNone(pr, wr))
    ensures Keep(OnBoth(pl, pr, wl), JoinBy(kind, ls, rs, wl, wr, acc)) ==
      JoinBy(kind, Keep(pl, ls), Keep(pr, rs), wl, wr, acc) == []
  {
    hide JoinBy, Keep;
    JoinWide(kind, ls, rs, wl, wr, acc);
    KeepNone(OnBoth(pl, pr, wl), JoinBy(kind, ls, rs, wl, wr, acc));
    if PassesNone(pl, wl) { KeepNone(pl, ls); }
    if PassesNone(pr, wr) { KeepNone(pr, rs); }
    JoinNone(kind, Keep(pl, ls), Keep(pr, rs), wl, wr, acc);
  }

  lemma {:induction false} KeepNone(p: Row -> bool, rows: Rows)
    requires forall i :: 0 <= i < |rows| ==> !p(rows[i])
    ensures Keep(p, rows) == []
  {
    if rows != [] { KeepNone(p, rows[1..]); }
  }

  lemma {:induction false} JoinNone(kind: JoinKind, ls: Rows, rs: Rows, wl: nat, wr: nat, acc: (Row, Row) -> bool)
    requires (KeepsLeft(kind) ==> ls == []) && (KeepsRight(kind) ==> rs == []) && (ls == [] || rs == [])
    ensures JoinBy(kind, ls, rs, wl, wr, acc) == []
  {
    if ls != [] {
      JoinNone(kind, ls[1..], rs, wl, wr, acc);
      assert RightPart(ls, rs, wl, acc) == [];
      assert LeftRow(kind, ls[0], rs, wr, acc) == [];
    }
  }

  // ---------------------------------------------------------------- concrete losses

  /** A BETWEEN over the right table is pushed below the join without being re-indexed: a row is lost. */
  lemma BetweenLosesRows()
    ensures PushdownBreaks(Sample(SampleOps(), [[Int(7)]], [[Int(1)]]),
                           Filter(Between(ColumnRef(1), Literal(Int(0)), Literal(Int(5))),
                             JoinAB(Cross, NoCondition, 1, 1)))
  {
    hide Eval, PushdownBreaks, SampleOps;
    var e := Between(ColumnRef(1), Literal(Int(0)), Literal(Int(5)));
    OneColumnBetween(1, Int(0), Int(5));
    assert [1][0] == 1 && GoesRight(e, 1) && !GoesLeft(e, 1);
    assert ShiftScopeIndices(e, -1) == e;
    BetweenReads();
    PushedPredicateBreaks(SampleOps(), e, Cross, [Int(7)], [Int(1)]);
  }

  lemma BetweenReads()
    ensures var e := Between(ColumnRef(1), Literal(Int(0)), Literal(Int(5)));
      IsTrue(SampleOps(), e, [Int(7)] + [Int(1)]) && !IsTrue(SampleOps(), e, [Int(1)])
  {
    var row := [Int(7)] + [Int(1)];
    assert row[1] == Int(1) && Eval(SampleOps(), ColumnRef(1), row) == Int(1);
    assert SampleOps().apply(GtEq, Int(1), Int(0)) == Bool(true) &&
      SampleOps().apply(LtEq, Int(1), Int(5)) == Bool(true);
    assert Eval(SampleOps(), ColumnRef(1), [Int(1)]) == Null;
    assert Eval(SampleOps(), Literal(Int(0)), row) == Int(0) && Eval(SampleOps(), Literal(Int(5)), row) == Int(5);
  }

  /** A LIKE hides its columns, so one over the right table is pushed to the left input: a row is lost. */
  lemma LikeLosesRows()
    ensures PushdownBreaks(Sample(SampleOps(), [[Int(7)]], [[Int(1)]]),
                           Filter(Like(ColumnRef(1), Literal(Str("%"))), JoinAB(Cross, NoCondition, 1, 1)))
  {
    var e, row := Like(ColumnRef(1), Literal(Str("%"))), [Int(7)] + [Int(1)];
    assert row[1] == Int(1) && Eval(SampleOps(), ColumnRef(1), row) == Int(1);
    assert SampleOps().like(Int(1), Str("%")) == Bool(true) && Eval(SampleOps(), Literal(Str("%")), row) == Str("%");
    assert |CollectScopeIndices(Like(ColumnRef(1), Literal(Str("%"))))| == 0 &&
      Eval(SampleOps(), ColumnRef(1), [Int(7)]) == Null;
    assert IsTrue(SampleOps(), e, row) && !IsTrue(SampleOps(), e, [Int(7)]);
    PushedPredicateBreaks(SampleOps(), e, Cross, [Int(7)], [Int(1)]);
  }

  lemma IsNullAt(i: Usize)
    requires i < 2
    ensures CollectScopeIndices(IsNull(ColumnRef(i))) == [i] && GoesLeft(IsNull(ColumnRef(i)), 1) == (i == 0)
    ensures i == 1 ==>
      GoesRight(IsNull(ColumnRef(i)), 1) && ShiftScopeIndices(IsNull(ColumnRef(i)), -1) == IsNull(ColumnRef(0))
    ensures !IsTrue(SampleOps(), IsNull(ColumnRef(i)), [Int(1)] + [Int(1)])
    ensures !IsTrue(SampleOps(), IsNull(ColumnRef(0)), [Int(1)])
  {
    var row := [Int(1)] + [Int(1)];
    assert row[i] == Int(1) && Eval(SampleOps(), ColumnRef(i), row) == Int(1);
    assert [i][0] == i && Eval(SampleOps(), ColumnRef(0), [Int(1)]) == Int(1);
  }

  /** IS NULL on the optional side of a left join is pushed below it: a matched row comes back unmatched. */
  lemma OuterJoinGainsRows()
    ensures PushdownBreaks(Sample(SampleOps(), [[Int(1)]], [[Int(1)]]),
      Filter(IsNull(ColumnRef(1)), JoinAB(LeftOuter, NoCondition, 1, 1)))
  {
    IsNullAt(1);
    PushedPredicateBreaks(SampleOps(), IsNull(ColumnRef(1)), LeftOuter, [Int(1)], [Int(1)]);
  }

  /** The same from the left of a right join. */
  lemma RightJoinGainsRows()
    ensures PushdownBreaks(Sample(SampleOps(), [[Int(1)]], [[Int(1)]]),
      Filter(IsNull(ColumnRef(0)), JoinAB(RightOuter, NoCondition, 1, 1)))
  {
    IsNullAt(0);
    PushedPredicateBreaks(SampleOps(), IsNull(ColumnRef(0)), RightOuter, [Int(1)], [Int(1)]);
  }

  /** A full join loses both ways. */
  lemma FullJoinGainsRows(i: Usize)
    requires i < 2
    ensures PushdownBreaks(Sample(SampleOps(), [[Int(1)]], [[Int(1)]]),
      Filter(IsNull(ColumnRef(i)), JoinAB(FullOuter, NoCondition, 1, 1)))
  {
    IsNullAt(i);
    PushedPredicateBreaks(SampleOps(), IsNull(ColumnRef(i)), FullOuter, [Int(1)], [Int(1)]);
  }

  /** A predicate on a projected column is pushed below the projection unchanged and reads another column there. */
  lemma ProjectionLosesRows()
    ensures PushdownBreaks(Sample(SampleOps(), [[Int(1), Null]], []),
                           Filter(IsNull(ColumnRef(0)), Projection([ColumnRef(1)], SeqScan(0, 2))))
  {
    var row, e, es := [Int(1), Null], IsNull(ColumnRef(0)), [ColumnRef(1)];
    var image := EvalAll(SampleOps(), es, row);
    assert Eval(SampleOps(), ColumnRef(1), row) == Null && Eval(SampleOps(), ColumnRef(0), image) == Null;
    assert Eval(SampleOps(), ColumnRef(0), row) == Int(1);
    assert IsTrue(SampleOps(), e, image) && !IsTrue(SampleOps(), e, row);
    ProjectedPredicateBreaks(SampleOps(), e, es, row);
  }

  /** A predicate above an update or a delete is pushed below it: its report of one row escapes the predicate. */
  lemma UpdateGainsRows(c: Change)
    ensures PushdownBreaks(Changing(SampleOps(), [], given => [[Int(1)]]),
      Filter(IsNull(ColumnRef(0)), Update(c, SeqScan(0, 1))))
    ensures PushdownBreaks(Changing(SampleOps(), [], given => [[Int(1)]]),
      Filter(IsNull(ColumnRef(0)), Delete(c, SeqScan(0, 1))))
  {
    IsNullAt(0);
    PassOne(SampleOps(), IsNull(ColumnRef(0)), [Int(1)]);
    ChangeBreaks(SampleOps(), IsNull(ColumnRef(0)), c, 1, [], given => [[Int(1)]]);
  }
}
