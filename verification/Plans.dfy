/** Logical plans, the row lists they denote, and predicate pushdown. */
module Plans {
  import opened Wrappers
  import opened Expressions
  import opened RowOps

  datatype JoinCondition = On(e: Expr) | Using(es: seq<Expr>) | Natural(es: seq<Expr>) | NoCondition

  datatype SortKey = SortKey(e: Expr, asc: bool, nullsFirst: Option<bool>)

  datatype AggregateCall = AggregateCall(name: string, arg: Option<Expr>, distinct: bool)

  datatype AggregateSpec = AggregateSpec(groupBy: seq<Expr>, aggregates: seq<AggregateCall>, width: nat)

  datatype Change = Inserting(table: nat) | Updating(table: nat, assignments: seq<(nat, Expr)>) | Deleting(table: nat)

  datatype Plan =
    | SeqScan(table: nat, width: nat)
    | Filter(test: Expr, input: Plan)
    | Projection(exprs: seq<Expr>, input: Plan)
    | Join(kind: JoinKind, left: Plan, right: Plan, condition: JoinCondition, width: nat)
    | Aggregate(spec: AggregateSpec, input: Plan)
    | Sort(keys: seq<SortKey>, input: Plan)
    | Limit(limit: Option<Expr>, offset: Option<Expr>, input: Plan)
    | Dedup(input: Plan)
    | Values(rows: seq<seq<Expr>>, width: nat)
    | Insert(change: Change, source: Plan)
    | Update(change: Change, input: Plan)
    | Delete(change: Change, input: Plan)
    | Nothing

  /** What a plan runs against: stored tables, operators, and the orders, aggregates and changes the executor
      computes. */
  datatype Env = Env(ops: Operators, tables: nat -> Rows, order: seq<SortKey> -> Order,
                     aggregate: (AggregateSpec, Rows) -> Rows, change: (Change, Rows) -> Rows)

  ghost predicate Lawful(env: Env) {
    && (forall keys :: Preorder(env.order(keys)))
    && (forall spec, rows :: Wide(env.aggregate(spec, rows), spec.width))
    && (forall c, rows :: Wide(env.change(c, rows), 1))
  }

  /** The number of columns in a plan's schema. */
  function Width(plan: Plan): nat {
    match plan
    case SeqScan(_, w) => w
    case Filter(_, input) => Width(input)
    case Projection(exprs, _) => |exprs|
    case Join(_, _, _, _, w) => w
    case Aggregate(spec, _) => spec.width
    case Sort(_, input) => Width(input)
    case Limit(_, _, input) => Width(input)
    case Dedup(input) => Width(input)
    case Values(_, w) => w
    case Insert(_, _) => 1
    case Update(_, _) => 1
    case Delete(_, _) => 1
    case Nothing => 0
  }

  /** Schemas agree with the rows below them, as the planner builds them. */
  ghost predicate WellFormed(env: Env, plan: Plan) {
    match plan
    case SeqScan(t, w) => Wide(env.tables(t), w)
    case Filter(_, input) => WellFormed(env, input)
    case Projection(_, input) => WellFormed(env, input)
    case Join(_, l, r, _, w) => WellFormed(env, l) && WellFormed(env, r) && w == Width(l) + Width(r) < USIZE
    case Aggregate(_, input) => WellFormed(env, input)
    case Sort(_, input) => WellFormed(env, input)
    case Limit(_, _, input) => WellFormed(env, input)
    case Dedup(input) => WellFormed(env, input)
    case Values(rows, w) => forall i :: 0 <= i < |rows| ==> |rows[i]| == w
    case Insert(_, source) => WellFormed(env, source)
    case Update(_, input) => WellFormed(env, input)
    case Delete(_, input) => WellFormed(env, input)
    case Nothing => true
  }

  // ---------------------------------------------------------------- meaning

  function Pass(ops: Operators, es: seq<Expr>): Row -> bool {
    row => AllTrue(ops, es, row)
  }

  predicate Accepts(ops: Operators, c: JoinCondition, row: Row) {
    match c
    case On(e) => IsTrue(ops, e, row)
    case Using(es) => AllTrue(ops, es, row)
    case Natural(es) => AllTrue(ops, es, row)
    case NoCondition => true
  }

  function Accept(ops: Operators, c: JoinCondition): (Row, Row) -> bool {
    (l, r) => Accepts(ops, c, l + r)
  }

  function EvalAll(ops: Operators, es: seq<Expr>, row: Row): Row {
    seq(|es|, i requires 0 <= i < |es| => Eval(ops, es[i], row))
  }

  function Project(ops: Operators, es: seq<Expr>, rows: Rows): Rows {
    if rows == [] then [] else [EvalAll(ops, es, rows[0])] + Project(ops, es, rows[1..])
  }

  function ConstantRows(ops: Operators, rows: seq<seq<Expr>>): Rows {
    seq(|rows|, i requires 0 <= i < |rows| => EvalAll(ops, rows[i], []))
  }

  /** A limit or offset expression is a constant; anything but a non-negative integer sets no bound. */
  function Count(ops: Operators, e: Option<Expr>): Option<nat> {
    if e.None? then None
    else
      var v := Eval(ops, e.value, []);
      if v.Int? && v.i >= 0 then Some(v.i) else None
  }

  function Offset(ops: Operators, e: Option<Expr>): nat {
    var c := Count(ops, e);
    if c.None? then 0 else c.value
  }

  function Run(env: Env, plan: Plan): Rows {
    match plan
    case SeqScan(t, _) => env.tables(t)
    case Filter(p, input) => Keep(Pass(env.ops, [p]), Run(env, input))
    case Projection(es, input) => Project(env.ops, es, Run(env, input))
    case Join(kind, l, r, c, _) => JoinBy(kind, Run(env, l), Run(env, r), Width(l), Width(r), Accept(env.ops, c))
    case Aggregate(spec, input) => env.aggregate(spec, Run(env, input))
    case Sort(keys, input) => SortRows(env.order(keys), Run(env, input))
    case Limit(limit, offset, input) => LimitRows(Count(env.ops, limit), Offset(env.ops, offset), Run(env, input))
    case Dedup(input) => Distinct(Run(env, input))
    case Values(rows, _) => ConstantRows(env.ops, rows)
    case Insert(c, source) => env.change(c, Run(env, source))
    case Update(c, input) => env.change(c, Run(env, input))
    case Delete(c, input) => env.change(c, Run(env, input))
    case Nothing => []
  }

  /** LIMIT and OFFSET by integers: a negative one sets no bound. */
  lemma LimitByIntegers(ops: Operators, limit: int, offset: int, rows: Rows)
    ensures var r := LimitRows(Count(ops, Some(Literal(Int(limit)))), Offset(ops, Some(Literal(Int(offset)))), rows);
      var start := if offset < 0 then 0 else if offset > |rows| then |rows| else offset;
      r == if 0 <= limit <= |rows| - start then rows[start..start + limit] else rows[start..]
  {
    IntegerCounts(ops, limit);
    IntegerCounts(ops, offset);
  }

  lemma IntegerCounts(ops: Operators, n: int)
    ensures Count(ops, Some(Literal(Int(n)))) == if n < 0 then None else Some(n)
  {
  }

  lemma {:induction false} ProjectWide(ops: Operators, es: seq<Expr>, rows: Rows)
    ensures Wide(Project(ops, es, rows), |es|)
  {
    if rows != [] { ProjectWide(ops, es, rows[1..]); }
  }

  /** Every row a well-formed plan yields has the width of its schema. */
  lemma {:induction false} RunWide(env: Env, plan: Plan)
    requires Lawful(env) && WellFormed(env, plan)
    ensures Wide(Run(env, plan), Width(plan))
  {
    match plan
    case Filter(p, input) => RunWide(env, input); KeepWide(Pass(env.ops, [p]), Run(env, input), Width(input));
    case Projection(es, input) => ProjectWide(env.ops, es, Run(env, input));
    case Join(kind, l, r, c, _) =>
      RunWide(env, l); RunWide(env, r);
      JoinWide(kind, Run(env, l), Run(env, r), Width(l), Width(r), Accept(env.ops, c));
    case Sort(keys, input) => RunWide(env, input); SortWide(env.order(keys), Run(env, input), Width(input));
    case Limit(_, _, input) => RunWide(env, input);
    case Dedup(input) => RunWide(env, input); DistinctWide(Run(env, input), Width(input));
    case _ =>
  }

  // ---------------------------------------------------------------- pushdown

  /** Stack one filter per predicate on top of a plan, the first predicate outermost. */
  function WrapFilters(preds: seq<Expr>, plan: Plan): Plan {
    if preds == [] then plan else Filter(preds[0], WrapFilters(preds[1..], plan))
  }

  datatype Routed = Routed(left: seq<Expr>, right: seq<Expr>, joint: seq<Expr>)

  predicate GoesLeft(e: Expr, n: nat) { AllBelow(CollectScopeIndices(e), n) }

  predicate GoesRight(e: Expr, n: nat) { !GoesLeft(e, n) && AllFrom(CollectScopeIndices(e), n) }

  /** Where each predicate above a join goes: below its left input, below its right one re-indexed, or it stays. */
  function Route(preds: seq<Expr>, n: nat): Routed {
    if preds == [] then Routed([], [], [])
    else
      var front, e := Route(preds[..|preds| - 1], n), preds[|preds| - 1];
      if GoesLeft(e, n) then front.(left := front.left + [e])
      else if GoesRight(e, n) then front.(right := front.right + [ShiftScopeIndices(e, -(n as int))])
      else front.(joint := front.joint + [e])
  }

  function Push(plan: Plan, preds: seq<Expr>): Plan
    decreases plan
  {
    match plan
    case Filter(p, input) => Push(input, preds + SplitConjunctions(p))
    case Projection(es, input) => Projection(es, Push(input, preds))
    case Join(kind, l, r, c, w) =>
      var routed := Route(preds, Width(l));
      WrapFilters(routed.joint, Join(kind, Push(l, routed.left), Push(r, routed.right), c, w))
    case Aggregate(spec, input) => WrapFilters(preds, Aggregate(spec, Push(input, [])))
    case Sort(keys, input) => Sort(keys, Push(input, preds))
    case Limit(limit, offset, input) => WrapFilters(preds, Limit(limit, offset, Push(input, [])))
    case Dedup(input) => Dedup(Push(input, preds))
    case Update(c, input) => Update(c, Push(input, preds))
    case Delete(c, input) => Delete(c, Push(input, preds))
    case _ => WrapFilters(preds, plan)
  }

  /** A projection hands these columns through unchanged. */
  predicate Transparent(es: seq<Expr>, e: Expr) {
    HandsThrough(es, Columns(e))
  }

  predicate HandsThrough(es: seq<Expr>, cs: seq<Usize>) {
    forall i :: 0 <= i < |cs| ==> cs[i] < |es| && es[cs[i]] == ColumnRef(cs[i])
  }

  /** A predicate that leaves for one side reads that side's columns only, and going right the re-indexing reaches
      all of them; re-indexing by nothing misses nothing. */
  predicate Crosses(e: Expr, n: nat) {
    && (GoesLeft(e, n) ==> AllBelow(Columns(e), n))
    && (GoesRight(e, n) ==> n == 0 || Plain(e))
  }

  predicate Crossable(preds: seq<Expr>, n: nat) {
    forall i :: 0 <= i < |preds| ==> Crosses(preds[i], n)
  }

  /** What pushdown needs of the predicates on their way down: nothing crosses a join below a form the re-indexing
      skips, nothing is pushed below the preserved side of an outer join, nothing changes meaning at a projection. */
  predicate Movable(plan: Plan, preds: seq<Expr>)
    decreases plan
  {
    match plan
    case Filter(p, input) => Movable(input, preds + SplitConjunctions(p))
    case Projection(es, input) => (forall i :: 0 <= i < |preds| ==> Transparent(es, preds[i])) && Movable(input, preds)
    case Join(kind, l, r, _, _) =>
      var n := Width(l);
      var routed := Route(preds, n);
      && Crossable(preds, n)
      && (KeepsLeft(kind) ==> routed.right == []) && (KeepsRight(kind) ==> routed.left == [])
      && Movable(l, routed.left) && Movable(r, routed.right)
    case Aggregate(_, input) => Movable(input, [])
    case Sort(_, input) => Movable(input, preds)
    case Limit(_, _, input) => Movable(input, [])
    case Dedup(input) => Movable(input, preds)
    case Update(_, input) => preds == [] && Movable(input, [])
    case Delete(_, input) => preds == [] && Movable(input, [])
    case _ => true
  }

  lemma AllTrueConcat(ops: Operators, a: seq<Expr>, b: seq<Expr>, row: Row)
    ensures AllTrue(ops, a + b, row) <==> AllTrue(ops, a, row) && AllTrue(ops, b, row)
  {
    assert forall i :: 0 <= i < |a| ==> (a + b)[i] == a[i];
    assert forall i :: 0 <= i < |b| ==> (a + b)[|a| + i] == b[i];
  }

  lemma AllTrueSnoc(ops: Operators, es: seq<Expr>, e: Expr, row: Row)
    ensures AllTrue(ops, es + [e], row) <==> AllTrue(ops, es, row) && IsTrue(ops, e, row)
  {
    AllTrueConcat(ops, es, [e], row);
    assert AllTrue(ops, [e], row) <==> IsTrue(ops, [e][0], row);
  }

  lemma {:induction false} PlainIsLikeFree(e: Expr)
    requires Plain(e)
    ensures LikeFree(e)
  {
    match e
    case Binary(l, _, r) => PlainIsLikeFree(l); PlainIsLikeFree(r);
    case Unary(_, a) => PlainIsLikeFree(a);
    case IsNull(a) => PlainIsLikeFree(a);
    case IsNotNull(a) => PlainIsLikeFree(a);
    case Between(a, low, high) => ColumnFree(a); ColumnFree(low); ColumnFree(high);
    case _ =>
  }

  lemma {:induction false} ColumnFree(e: Expr)
    ensures Columns(e) == [] ==> LikeFree(e)
  {
    match e
    case Binary(l, _, r) => ColumnFree(l); ColumnFree(r);
    case Unary(_, a) => ColumnFree(a);
    case IsNull(a) => ColumnFree(a);
    case IsNotNull(a) => ColumnFree(a);
    case Between(a, low, high) => ColumnFree(a); ColumnFree(low); ColumnFree(high);
    case _ =>
  }

  lemma {:induction false} WrapKeeps(env: Env, preds: seq<Expr>, plan: Plan)
    ensures Run(env, WrapFilters(preds, plan)) == Keep(Pass(env.ops, preds), Run(env, plan))
    ensures Width(WrapFilters(preds, plan)) == Width(plan)
  {
    var rows := Run(env, plan);
    if preds == [] {
      KeepAll(Pass(env.ops, []), rows);
    } else {
      WrapKeeps(env, preds[1..], plan);
      assert preds == [preds[0]] + preds[1..];
      forall row
        ensures Pass(env.ops, preds)(row) == (Pass(env.ops, [preds[0]])(row) && Pass(env.ops, preds[1..])(row))
      {
        AllTrueConcat(env.ops, [preds[0]], preds[1..], row);
      }
      KeepBoth(Pass(env.ops, [preds[0]]), Pass(env.ops, preds[1..]), Pass(env.ops, preds), rows);
    }
  }

  lemma {:induction false} PushWidth(plan: Plan, preds: seq<Expr>)
    ensures Width(Push(plan, preds)) == Width(plan)
    decreases plan
  {
    match plan
    case Filter(p, input) => PushWidth(input, preds + SplitConjunctions(p));
    case Sort(_, input) => PushWidth(input, preds);
    case Dedup(input) => PushWidth(input, preds);
    case Limit(l, o, input) => PushWidth(input, []); WrapWidth(preds, Limit(l, o, Push(input, [])));
    case Join(kind, l, r, c, w) =>
      var routed := Route(preds, Width(l));
      WrapWidth(routed.joint, Join(kind, Push(l, routed.left), Push(r, routed.right), c, w));
    case Aggregate(spec, input) => WrapWidth(preds, Aggregate(spec, Push(input, [])));
    case Projection(_, _) =>
    case Update(_, _) =>
    case Delete(_, _) =>
    case _ => WrapWidth(preds, plan);
  }

  lemma {:induction false} WrapWidth(preds: seq<Expr>, plan: Plan)
    ensures Width(WrapFilters(preds, plan)) == Width(plan)
  {
    if preds != [] { WrapWidth(preds[1..], plan); }
  }

  lemma MoveLeft(ops: Operators, e: Expr, l: Row, r: Row)
    requires GoesLeft(e, |l|) && Crosses(e, |l|)
    ensures IsTrue(ops, e, l + r) == IsTrue(ops, e, l)
  {
    EvalLeft(ops, e, l, r);
  }

  lemma {:induction false} MoveRight(ops: Operators, e: Expr, l: Row, r: Row)
    requires GoesRight(e, |l|) && Crosses(e, |l|)
    ensures IsTrue(ops, e, l + r) == IsTrue(ops, ShiftScopeIndices(e, -|l|), r)
  {
    if l == [] {
      ShiftNothing(e);
      assert l + r == r;
    } else {
      PlainIsLikeFree(e);
      CollectSeesAll(e);
      EvalRight(ops, e, l, r);
    }
  }

  lemma {:induction false} ShiftNothing(e: Expr)
    ensures ShiftScopeIndices(e, 0) == e
  {
    match e
    case Binary(l, _, r) => ShiftNothing(l); ShiftNothing(r);
    case Unary(_, a) => ShiftNothing(a);
    case IsNull(a) => ShiftNothing(a);
    case IsNotNull(a) => ShiftNothing(a);
    case _ =>
  }

  lemma NothingToPass(ops: Operators, l: Row, r: Row)
    ensures AllTrue(ops, [], l) && AllTrue(ops, [], r) && AllTrue(ops, [], l + r)
  {
  }

  /** On every joined row, the routed parts together say what the predicates said. */
  lemma {:induction false} RouteSplits(ops: Operators, preds: seq<Expr>, l: Row, r: Row)
    requires Crossable(preds, |l|)
    ensures var routed := Route(preds, |l|);
      AllTrue(ops, preds, l + r) <==>
        AllTrue(ops, routed.left, l) && AllTrue(ops, routed.right, r) && AllTrue(ops, routed.joint, l + r)
    decreases |preds|
  {
    hide Crosses, IsTrue, AllTrue, GoesLeft, GoesRight, ShiftScopeIndices;
    if preds == [] {
      NothingToPass(ops, l, r);
    } else {
      var n, front, e := |l|, preds[..|preds| - 1], preds[|preds| - 1];
      assert Crosses(e, n) && Crossable(front, n);
      var routed := Route(front, n);
      RouteSplits(ops, front, l, r);
      assert preds == front + [e];
      AllTrueSnoc(ops, front, e, l + r);
      if GoesLeft(e, n) {
        MoveLeft(ops, e, l, r);
        AllTrueSnoc(ops, routed.left, e, l);
      } else if GoesRight(e, n) {
        MoveRight(ops, e, l, r);
        AllTrueSnoc(ops, routed.right, ShiftScopeIndices(e, -(n as int)), r);
      } else {
        AllTrueSnoc(ops, routed.joint, e, l + r);
      }
    }
  }

  /** Filtering a projection by predicates over handed-through columns is projecting the filtered rows. */
  lemma {:induction false} KeepProject(ops: Operators, es: seq<Expr>, preds: seq<Expr>, rows: Rows)
    requires forall i :: 0 <= i < |preds| ==> Transparent(es, preds[i])
    ensures Keep(Pass(ops, preds), Project(ops, es, rows)) == Project(ops, es, Keep(Pass(ops, preds), rows))
  {
    if rows != [] {
      KeepProject(ops, es, preds, rows[1..]);
      var row, image := rows[0], EvalAll(ops, es, rows[0]);
      KeepCons(Pass(ops, preds), image, Project(ops, es, rows[1..]));
      forall i | 0 <= i < |preds|
        ensures Eval(ops, preds[i], image) == Eval(ops, preds[i], row)
      {
        EvalImage(ops, es, preds[i], row);
      }
      var kept := Keep(Pass(ops, preds), rows[1..]);
      assert ([row] + kept)[1..] == kept;
    }
  }

  lemma HandsThroughConcat(es: seq<Expr>, a: seq<Usize>, b: seq<Usize>)
    ensures HandsThrough(es, a + b) <==> HandsThrough(es, a) && HandsThrough(es, b)
  {
    assert forall i :: 0 <= i < |a| ==> a[i] == (a + b)[i];
    assert forall i :: 0 <= i < |b| ==> b[i] == (a + b)[|a| + i];
  }

  lemma {:induction false} EvalImage(ops: Operators, es: seq<Expr>, e: Expr, row: Row)
    requires Transparent(es, e)
    ensures Eval(ops, e, EvalAll(ops, es, row)) == Eval(ops, e, row)
  {
    match e
    case Literal(_) =>
    case ColumnRef(i) => assert Columns(e)[0] == i;
    case Binary(a, _, b) =>
      HandsThroughConcat(es, Columns(a), Columns(b));
      EvalImage(ops, es, a, row);
      EvalImage(ops, es, b, row);
    case Unary(_, a) => EvalImage(ops, es, a, row);
    case IsNull(a) => EvalImage(ops, es, a, row);
    case IsNotNull(a) => EvalImage(ops, es, a, row);
    case Between(a, low, high) =>
      HandsThroughConcat(es, Columns(a) + Columns(low), Columns(high));
      HandsThroughConcat(es, Columns(a), Columns(low));
      EvalImage(ops, es, a, row); EvalImage(ops, es, low, row); EvalImage(ops, es, high, row);
    case Like(a, p) =>
      HandsThroughConcat(es, Columns(a), Columns(p));
      EvalImage(ops, es, a, row);
      EvalImage(ops, es, p, row);
  }

  lemma PushFilter(env: Env, p: Expr, preds: seq<Expr>, rows: Rows)
    ensures Keep(Pass(env.ops, preds + SplitConjunctions(p)), rows) ==
      Keep(Pass(env.ops, preds), Keep(Pass(env.ops, [p]), rows))
  {
    var parts := SplitConjunctions(p);
    forall row
      ensures Pass(env.ops, preds + parts)(row) == (Pass(env.ops, preds)(row) && Pass(env.ops, [p])(row))
    {
      AllTrueConcat(env.ops, preds, parts, row);
      SplitAllTrue(env.ops, p, row);
      assert AllTrue(env.ops, [p], row) <==> IsTrue(env.ops, [p][0], row);
    }
    KeepBoth(Pass(env.ops, preds), Pass(env.ops, [p]), Pass(env.ops, preds + parts), rows);
  }

  lemma PushJoin(env: Env, plan: Plan, preds: seq<Expr>)
    requires plan.Join? && Lawful(env) && WellFormed(env, plan) && Movable(plan, preds)
    ensures var routed := Route(preds, Width(plan.left));
      Keep(Pass(env.ops, preds), Run(env, plan)) ==
      Keep(Pass(env.ops, routed.joint),
           JoinBy(plan.kind, Keep(Pass(env.ops, routed.left), Run(env, plan.left)),
             Keep(Pass(env.ops, routed.right), Run(env, plan.right)),
                  Width(plan.left), Width(plan.right), Accept(env.ops, plan.condition)))
  {
    var wl, wr := Width(plan.left), Width(plan.right);
    var routed := Route(preds, wl);
    var p, pl, pr, pj := Pass(env.ops, preds), Pass(env.ops, routed.left), Pass(env.ops, routed.right),
      Pass(env.ops, routed.joint);
    forall l: Row, r: Row | |l| == wl && |r| == wr
      ensures p(l + r) <==> pl(l) && pr(r) && pj(l + r)
    {
      RouteSplits(env.ops, preds, l, r);
    }
    RunWide(env, plan.left);
    RunWide(env, plan.right);
    KeepJoin(plan.kind, Run(env, plan.left), Run(env, plan.right), Accept(env.ops, plan.condition), p, pl, pr, pj, wl,
      wr);
  }

  /** Predicate pushdown keeps the rows, order included: the plan it returns yields the rows the predicates let
      through. */
  lemma {:induction false} PushKeepsRows(env: Env, plan: Plan, preds: seq<Expr>)
    requires Lawful(env) && WellFormed(env, plan) && Movable(plan, preds)
    ensures Run(env, Push(plan, preds)) == Keep(Pass(env.ops, preds), Run(env, plan))
    decreases plan
  {
    match plan
    case Filter(p, input) =>
      PushKeepsRows(env, input, preds + SplitConjunctions(p));
      PushFilter(env, p, preds, Run(env, input));
    case Projection(es, input) =>
      PushKeepsRows(env, input, preds);
      KeepProject(env.ops, es, preds, Run(env, input));
    case Join(kind, l, r, c, w) =>
      var routed := Route(preds, Width(l));
      PushKeepsRows(env, l, routed.left);
      PushKeepsRows(env, r, routed.right);
      PushWidth(l, routed.left);
      PushWidth(r, routed.right);
      PushJoin(env, plan, preds);
      WrapKeeps(env, routed.joint, Join(kind, Push(l, routed.left), Push(r, routed.right), c, w));
    case Aggregate(spec, input) =>
      PushKeepsRows(env, input, []);
      KeepAll(Pass(env.ops, []), Run(env, input));
      WrapKeeps(env, preds, Aggregate(spec, Push(input, [])));
    case Sort(keys, input) =>
      PushKeepsRows(env, input, preds);
      KeepSort(env.order(keys), Pass(env.ops, preds), Run(env, input));
    case Limit(limit, offset, input) =>
      PushKeepsRows(env, input, []);
      KeepAll(Pass(env.ops, []), Run(env, input));
      WrapKeeps(env, preds, Limit(limit, offset, Push(input, [])));
    case Dedup(input) =>
      PushKeepsRows(env, input, preds);
      KeepDistinct(Pass(env.ops, preds), Run(env, input));
    case Update(_, input) => PushKeepsRows(env, input, []); PushChange(env, input, plan);
    case Delete(_, input) => PushKeepsRows(env, input, []); PushChange(env, input, plan);
    case _ => WrapKeeps(env, preds, plan);
  }

  lemma PushChange(env: Env, input: Plan, plan: Plan)
    ensures Keep(Pass(env.ops, []), Run(env, input)) == Run(env, input)
    ensures Keep(Pass(env.ops, []), Run(env, plan)) == Run(env, plan)
  {
    KeepAll(Pass(env.ops, []), Run(env, input));
    KeepAll(Pass(env.ops, []), Run(env, plan));
  }
}
