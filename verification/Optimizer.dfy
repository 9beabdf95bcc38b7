/** From logical to physical plans: equi-join extraction, top-N fusion, and the optimizer as a whole. */
module Optimizer {
  import opened Wrappers
  import opened Expressions
  import opened RowOps
  import opened Plans

  datatype Phys =
    | PSeqScan(table: nat, width: nat)
    | PFilter(test: Expr, input: Phys)
    | PProjection(exprs: seq<Expr>, input: Phys)
    | NestedLoopJoin(kind: JoinKind, left: Phys, right: Phys, condition: JoinCondition, width: nat)
    | HashJoin(kind: JoinKind, left: Phys, right: Phys, leftKeys: seq<Expr>, rightKeys: seq<Expr>,
        residual: Option<Expr>, width: nat)
    | HashAggregate(spec: AggregateSpec, input: Phys)
    | PSort(keys: seq<SortKey>, input: Phys)
    | TopN(keys: seq<SortKey>, limitOf: Expr, offset: Option<Expr>, input: Phys)
    | PLimit(limit: Option<Expr>, offset: Option<Expr>, input: Phys)
    | HashDistinct(input: Phys)
    | PValues(rows: seq<seq<Expr>>, width: nat)
    | PInsert(change: Change, source: Phys)
    | PUpdate(change: Change, input: Phys)
    | PDelete(change: Change, input: Phys)
    | PNothing

  datatype HashKeys = HashKeys(left: seq<Expr>, right: seq<Expr>, residual: Option<Expr>)

  function PhysWidth(plan: Phys): nat {
    match plan
    case PSeqScan(_, w) => w
    case PFilter(_, input) => PhysWidth(input)
    case PProjection(es, _) => |es|
    case NestedLoopJoin(_, _, _, _, w) => w
    case HashJoin(_, _, _, _, _, _, w) => w
    case HashAggregate(spec, _) => spec.width
    case PSort(_, input) => PhysWidth(input)
    case TopN(_, _, _, input) => PhysWidth(input)
    case PLimit(_, _, input) => PhysWidth(input)
    case HashDistinct(input) => PhysWidth(input)
    case PValues(_, w) => w
    case PInsert(_, _) => 1
    case PUpdate(_, _) => 1
    case PDelete(_, _) => 1
    case PNothing => 0
  }

  // ---------------------------------------------------------------- meaning

  /** Two key lists match when every pair of keys compares as TRUE; a NULL key matches nothing. */
  predicate KeysMatch(ops: Operators, lk: seq<Expr>, l: Row, rk: seq<Expr>, r: Row) {
    |lk| == |rk| && forall i :: 0 <= i < |lk| ==>
      ApplyBinary(ops, Eq, Eval(ops, lk[i], l), Eval(ops, rk[i], r)) == Bool(true)
  }

  function HashAccept(ops: Operators, keys: HashKeys): (Row, Row) -> bool {
    (l, r) => KeysMatch(ops, keys.left, l, keys.right, r) &&
      (keys.residual.Some? ==> IsTrue(ops, keys.residual.value, l + r))
  }

  /** Keep only the rows a bounded scan needs, then skip the offset. */
  function TopRows(leq: Order, limit: Option<nat>, offset: nat, rows: Rows): Rows {
    if limit.None? then Drop(offset, SortRows(leq, rows)) else Drop(offset, TopK(leq, offset + limit.value, rows))
  }

  function PhysRun(env: Env, plan: Phys): Rows {
    match plan
    case PSeqScan(t, _) => env.tables(t)
    case PFilter(p, input) => Keep(Pass(env.ops, [p]), PhysRun(env, input))
    case PProjection(es, input) => Project(env.ops, es, PhysRun(env, input))
    case NestedLoopJoin(kind, l, r, c, _) =>
      JoinBy(kind, PhysRun(env, l), PhysRun(env, r), PhysWidth(l), PhysWidth(r), Accept(env.ops, c))
    case HashJoin(kind, l, r, lk, rk, residual, _) =>
      JoinBy(kind, PhysRun(env, l), PhysRun(env, r), PhysWidth(l), PhysWidth(r),
        HashAccept(env.ops, HashKeys(lk, rk, residual)))
    case HashAggregate(spec, input) => env.aggregate(spec, PhysRun(env, input))
    case PSort(keys, input) => SortRows(env.order(keys), PhysRun(env, input))
    case TopN(keys, limit, offset, input) =>
      TopRows(env.order(keys), Count(env.ops, Some(limit)), Offset(env.ops, offset), PhysRun(env, input))
    case PLimit(limit, offset, input) => LimitRows(Count(env.ops, limit), Offset(env.ops, offset), PhysRun(env, input))
    case HashDistinct(input) => Distinct(PhysRun(env, input))
    case PValues(rows, _) => ConstantRows(env.ops, rows)
    case PInsert(c, source) => env.change(c, PhysRun(env, source))
    case PUpdate(c, input) => env.change(c, PhysRun(env, input))
    case PDelete(c, input) => env.change(c, PhysRun(env, input))
    case PNothing => []
  }

  // ---------------------------------------------------------------- equi-join extraction

  datatype EquiKeys = EquiKeys(left: seq<Expr>, right: seq<Expr>, residual: seq<Expr>)

  predicate Unshared(a: seq<Usize>, b: seq<Usize>) {
    forall i, j :: 0 <= i < |a| && 0 <= j < |b| ==> a[i] != b[j]
  }

  /** An equality whose two sides read columns, and no column in common. */
  predicate IsKeyPair(e: Expr) {
    && e.Binary? && e.op == Eq
    && var l, r := CollectScopeIndices(e.left), CollectScopeIndices(e.right);
      l != [] && r != [] && Unshared(l, r)
  }

  function Sift(parts: seq<Expr>): EquiKeys {
    if parts == [] then EquiKeys([], [], [])
    else
      var front, e := Sift(parts[..|parts| - 1]), parts[|parts| - 1];
      if IsKeyPair(e) then front.(left := front.left + [e.left], right := front.right + [e.right])
      else front.(residual := front.residual + [e])
  }

  /** USING and NATURAL conditions: every equality becomes a key pair, anything else is dropped. */
  function SiftColumns(es: seq<Expr>): EquiKeys {
    if es == [] then EquiKeys([], [], [])
    else
      var front, e := SiftColumns(es[..|es| - 1]), es[|es| - 1];
      if e.Binary? && e.op == Eq then front.(left := front.left + [e.left], right := front.right + [e.right]) else front
  }

  function SiftCondition(c: JoinCondition): EquiKeys {
    match c
    case On(e) => Sift(SplitConjunctions(e))
    case Using(es) => SiftColumns(es)
    case Natural(es) => SiftColumns(es)
    case NoCondition => EquiKeys([], [], [])
  }

  function ExtractEquiKeys(c: JoinCondition): Option<HashKeys> {
    var keys := SiftCondition(c);
    if keys.left == [] then None
    else Some(HashKeys(keys.left, keys.right, if keys.residual == [] then None else Some(Conjoin(keys.residual))))
  }

  method ExtractKeys(c: JoinCondition) returns (r: Option<HashKeys>)
    ensures r == ExtractEquiKeys(c)
  {
    match c
    case On(e) =>
      var parts := SplitInto(e, []);
      var left, right, residual := [], [], [];
      for i := 0 to |parts|
        invariant Sift(parts[..i]) == EquiKeys(left, right, residual)
      {
        var part := parts[i];
        assert parts[..i + 1][..i] == parts[..i];
        if IsKeyPair(part) {
          left, right := left + [part.left], right + [part.right];
          continue;
        }
        residual := residual + [part];
      }
      assert parts[..|parts|] == parts == SplitConjunctions(e);
      if left == [] {
        return None;
      }
      if residual == [] {
        return Some(HashKeys(left, right, None));
      }
      var joined := ConjoinAll(residual);
      return Some(HashKeys(left, right, Some(joined)));
    case Using(es) => r := ExtractColumnKeys(es);
    case Natural(es) => r := ExtractColumnKeys(es);
    case NoCondition => r := None;
  }

  method ExtractColumnKeys(es: seq<Expr>) returns (r: Option<HashKeys>)
    ensures r == ExtractEquiKeys(Using(es)) == ExtractEquiKeys(Natural(es))
  {
    var left, right := [], [];
    for i := 0 to |es|
      invariant SiftColumns(es[..i]) == EquiKeys(left, right, [])
    {
      assert es[..i + 1][..i] == es[..i];
      if es[i].Binary? && es[i].op == Eq {
        left, right := left + [es[i].left], right + [es[i].right];
      }
    }
    assert es[..|es|] == es;
    r := if left == [] then None else Some(HashKeys(left, right, None));
  }

  // ---------------------------------------------------------------- physical plans

  function ShiftAll(es: seq<Expr>, delta: int): seq<Expr> {
    seq(|es|, i requires 0 <= i < |es| => ShiftScopeIndices(es[i], delta))
  }

  /** A hash join on the keys, the right ones re-indexed, or a nested loop if there are none. */
  function JoinPlan(kind: JoinKind, left: Phys, right: Phys, c: JoinCondition, w: nat, keys: Option<HashKeys>,
                    leftWidth: nat): (r: Phys)
    ensures r.NestedLoopJoin? || r.HashJoin?
  {
    if keys.None? then NestedLoopJoin(kind, left, right, c, w)
    else
      var shifted := ShiftRight(keys.value, leftWidth);
      HashJoin(kind, left, right, shifted.left, shifted.right, shifted.residual, w)
  }

  function ShiftRight(keys: HashKeys, n: nat): HashKeys {
    keys.(right := ShiftAll(keys.right, -(n as int)))
  }

  function ToPhysical(plan: Plan): Phys {
    match plan
    case SeqScan(t, w) => PSeqScan(t, w)
    case Filter(p, input) =>
      PFilter(if input.SeqScan? then Conjoin(SplitConjunctions(p)) else p, ToPhysical(input))
    case Projection(es, input) => PProjection(es, ToPhysical(input))
    case Join(kind, l, r, c, w) => JoinPlan(kind, ToPhysical(l), ToPhysical(r), c, w, ExtractEquiKeys(c),
      PhysWidth(ToPhysical(l)))
    case Aggregate(spec, input) => HashAggregate(spec, ToPhysical(input))
    case Sort(keys, input) => PSort(keys, ToPhysical(input))
    case Limit(limit, offset, input) => PLimit(limit, offset, ToPhysical(input))
    case Dedup(input) => HashDistinct(ToPhysical(input))
    case Values(rows, w) => PValues(rows, w)
    case Insert(c, source) => PInsert(c, ToPhysical(source))
    case Update(c, input) => PUpdate(c, ToPhysical(input))
    case Delete(c, input) => PDelete(c, ToPhysical(input))
    case Nothing => PNothing
  }

  function FuseSortLimit(plan: Phys): Phys {
    match plan
    case PLimit(limit, offset, input) =>
      if limit.Some? && input.PSort? then TopN(input.keys, limit.value, offset, FuseSortLimit(input.input))
      else PLimit(limit, offset, FuseSortLimit(input))
    case PFilter(p, input) => PFilter(p, FuseSortLimit(input))
    case PProjection(es, input) => PProjection(es, FuseSortLimit(input))
    case NestedLoopJoin(kind, l, r, c, w) => NestedLoopJoin(kind, FuseSortLimit(l), FuseSortLimit(r), c, w)
    case HashJoin(kind, l, r, lk, rk, residual, w) => HashJoin(kind, FuseSortLimit(l), FuseSortLimit(r), lk, rk,
      residual, w)
    case HashAggregate(spec, input) => HashAggregate(spec, FuseSortLimit(input))
    case PSort(keys, input) => PSort(keys, FuseSortLimit(input))
    case HashDistinct(input) => HashDistinct(FuseSortLimit(input))
    case PInsert(c, source) => PInsert(c, FuseSortLimit(source))
    case PUpdate(c, input) => PUpdate(c, FuseSortLimit(input))
    case PDelete(c, input) => PDelete(c, FuseSortLimit(input))
    case _ => plan
  }

  function Optimize(plan: Plan): Phys {
    FuseSortLimit(ToPhysical(Push(plan, [])))
  }

  // ---------------------------------------------------------------- joins keep their rows

  /** Each extracted pair compares a left key with a right key, in that order; nothing was dropped. */
  predicate Oriented(c: JoinCondition, n: nat) {
    var keys := SiftCondition(c);
    && (forall i :: 0 <= i < |keys.left| ==> AllBelow(Columns(keys.left[i]), n))
    && (forall i :: 0 <= i < |keys.right| ==> Plain(keys.right[i]) && AllFrom(Columns(keys.right[i]), n))
    && (c.Using? || c.Natural? ==> forall i :: 0 <= i < |c.es| ==> c.es[i].Binary? && c.es[i].op == Eq)
  }

  /** The hash join the optimizer would build for `c` accepts what `c` accepts, on all rows of these widths. */
  ghost predicate HashExact(ops: Operators, c: JoinCondition, wl: nat, wr: nat) {
    ExtractEquiKeys(c).Some? ==>
      forall l: Row, r: Row {:trigger l + r} :: |l| == wl && |r| == wr ==>
        HashAccept(ops, ShiftRight(ExtractEquiKeys(c).value, wl))(l, r) == Accepts(ops, c, l + r)
  }

  /** Every join of the plan may be turned into the hash join the optimizer would build for it. */
  ghost predicate EquiSafe(ops: Operators, plan: Plan) {
    match plan
    case Filter(_, input) => EquiSafe(ops, input)
    case Projection(_, input) => EquiSafe(ops, input)
    case Join(_, l, r, c, _) => EquiSafe(ops, l) && EquiSafe(ops, r) && HashExact(ops, c, Width(l), Width(r))
    case Aggregate(_, input) => EquiSafe(ops, input)
    case Sort(_, input) => EquiSafe(ops, input)
    case Limit(_, _, input) => EquiSafe(ops, input)
    case Dedup(input) => EquiSafe(ops, input)
    case Insert(_, source) => EquiSafe(ops, source)
    case Update(_, input) => EquiSafe(ops, input)
    case Delete(_, input) => EquiSafe(ops, input)
    case _ => true
  }

  lemma EqualityTrue(ops: Operators, e: Expr, row: Row)
    requires e.Binary? && e.op == Eq
    ensures IsTrue(ops, e, row) <==> ApplyBinary(ops, Eq, Eval(ops, e.left, row), Eval(ops, e.right, row)) == Bool(true)
  {
  }

  /** Key pairs and residual together are the conjuncts, on the joined row. */
  lemma {:induction false} SiftOk(ops: Operators, parts: seq<Expr>, row: Row)
    ensures var keys := Sift(parts);
      AllTrue(ops, parts, row) <==> KeysMatch(ops, keys.left, row, keys.right, row) && AllTrue(ops, keys.residual, row)
    decreases |parts|
  {
    hide Eval, ApplyBinary, IsTrue;
    if parts != [] {
      var front, e := parts[..|parts| - 1], parts[|parts| - 1];
      SiftOk(ops, front, row);
      SiftLengths(front);
      assert parts == front + [e];
      AllTrueSnoc(ops, front, e, row);
      var keys := Sift(front);
      if IsKeyPair(e) {
        EqualityTrue(ops, e, row);
        KeysMatchSnoc(ops, keys.left, e.left, row, keys.right, e.right, row);
      } else {
        AllTrueSnoc(ops, keys.residual, e, row);
      }
    }
  }

  lemma {:induction false} SiftColumnsOk(ops: Operators, es: seq<Expr>, row: Row)
    requires forall i :: 0 <= i < |es| ==> es[i].Binary? && es[i].op == Eq
    ensures var keys := SiftColumns(es);
      keys.residual == [] && (AllTrue(ops, es, row) <==> KeysMatch(ops, keys.left, row, keys.right, row))
    decreases |es|
  {
    hide Eval, ApplyBinary, IsTrue;
    if es != [] {
      var front, e := es[..|es| - 1], es[|es| - 1];
      EqualityTrue(ops, e, row);
      SiftColumnsOk(ops, front, row);
      SiftLengths(front);
      assert es == front + [e];
      AllTrueSnoc(ops, front, e, row);
      var keys := SiftColumns(front);
      KeysMatchSnoc(ops, keys.left, e.left, row, keys.right, e.right, row);
    }
  }

  lemma {:induction false} SiftLengths(parts: seq<Expr>)
    ensures |Sift(parts).left| == |Sift(parts).right| && |SiftColumns(parts).left| == |SiftColumns(parts).right|
    decreases |parts|
  {
    if parts != [] { SiftLengths(parts[..|parts| - 1]); }
  }

  lemma KeysMatchSnoc(ops: Operators, lk: seq<Expr>, a: Expr, l: Row, rk: seq<Expr>, b: Expr, r: Row)
    requires |lk| == |rk|
    ensures KeysMatch(ops, lk + [a], l, rk + [b], r) <==>
      KeysMatch(ops, lk, l, rk, r) && ApplyBinary(ops, Eq, Eval(ops, a, l), Eval(ops, b, r)) == Bool(true)
  {
    hide Eval, ApplyBinary;
    var lk', rk' := lk + [a], rk + [b];
    assert lk'[|lk|] == a && rk'[|rk|] == b;
    assert forall i :: 0 <= i < |lk| ==> lk'[i] == lk[i] && rk'[i] == rk[i];
  }

  /** What the condition accepts is what its keys and residual accept on the joined row. */
  lemma ConditionOk(ops: Operators, c: JoinCondition, n: nat, row: Row)
    requires Oriented(c, n)
    ensures var keys := SiftCondition(c);
      Accepts(ops, c, row) <==> KeysMatch(ops, keys.left, row, keys.right, row) && AllTrue(ops, keys.residual, row)
  {
    match c
    case On(e) => SiftOk(ops, SplitConjunctions(e), row); SplitAllTrue(ops, e, row);
    case Using(es) => SiftColumnsOk(ops, es, row);
    case Natural(es) => SiftColumnsOk(ops, es, row);
    case NoCondition =>
  }

  /** Keys evaluated on each side alone, the right ones re-indexed, match when they match on the joined row. */
  lemma KeysApart(ops: Operators, lk: seq<Expr>, rk: seq<Expr>, l: Row, r: Row)
    requires forall i :: 0 <= i < |lk| ==> AllBelow(Columns(lk[i]), |l|)
    requires forall i :: 0 <= i < |rk| ==> Plain(rk[i]) && AllFrom(Columns(rk[i]), |l|)
    ensures KeysMatch(ops, lk, l, ShiftAll(rk, -|l|), r) <==> KeysMatch(ops, lk, l + r, rk, l + r)
  {
    forall i | 0 <= i < |lk|
      ensures Eval(ops, lk[i], l + r) == Eval(ops, lk[i], l)
    {
      EvalLeft(ops, lk[i], l, r);
    }
    forall i | 0 <= i < |rk|
      ensures Eval(ops, ShiftAll(rk, -|l|)[i], r) == Eval(ops, rk[i], l + r)
    {
      EvalRight(ops, rk[i], l, r);
    }
  }

  /** A hash join on the extracted keys accepts exactly the row pairs the ON condition accepts, NULL keys included. */
  lemma HashAcceptsSame(ops: Operators, c: JoinCondition, l: Row, r: Row)
    requires ExtractEquiKeys(c).Some? && Oriented(c, |l|)
    ensures HashAccept(ops, ShiftRight(ExtractEquiKeys(c).value, |l|))(l, r) == Accept(ops, c)(l, r)
  {
    var keys := SiftCondition(c);
    ConditionOk(ops, c, |l|, l + r);
    KeysApart(ops, keys.left, keys.right, l, r);
    if keys.residual != [] {
      ConjoinTruth(ops, keys.residual, l + r);
      AllTruthIsAllTrue(ops, keys.residual, l + r);
    }
  }

  lemma OrientedIsExact(ops: Operators, c: JoinCondition, wl: nat, wr: nat)
    requires Oriented(c, wl)
    ensures HashExact(ops, c, wl, wr)
  {
    hide HashAccept, Oriented, ShiftRight;
    forall l: Row, r: Row | ExtractEquiKeys(c).Some? && |l| == wl && |r| == wr
      ensures HashAccept(ops, ShiftRight(ExtractEquiKeys(c).value, wl))(l, r) == Accepts(ops, c, l + r)
    {
      HashAcceptsSame(ops, c, l, r);
    }
  }

  lemma ExactAcceptsAll(ops: Operators, c: JoinCondition, ls: Rows, rs: Rows, wl: nat, wr: nat)
    requires Wide(ls, wl) && Wide(rs, wr) && ExtractEquiKeys(c).Some? && HashExact(ops, c, wl, wr)
    ensures SameAccept(HashAccept(ops, ShiftRight(ExtractEquiKeys(c).value, wl)), Accept(ops, c), ls, rs)
  {
    hide HashAccept, Accepts, ShiftRight, ExtractEquiKeys;
    forall i, j | 0 <= i < |ls| && 0 <= j < |rs|
      ensures HashAccept(ops, ShiftRight(ExtractEquiKeys(c).value, wl))(ls[i], rs[j]) == Accept(ops, c)(ls[i], rs[j])
    {
      assert HashAccept(ops, ShiftRight(ExtractEquiKeys(c).value, wl))(ls[i], rs[j]) == Accepts(ops, c, ls[i] + rs[j]);
    }
  }

  ghost predicate SameAccept(a: (Row, Row) -> bool, b: (Row, Row) -> bool, ls: Rows, rs: Rows) {
    forall i, j :: 0 <= i < |ls| && 0 <= j < |rs| ==> a(ls[i], rs[j]) == b(ls[i], rs[j])
  }

  lemma {:induction false} PhysicalWidth(plan: Plan)
    ensures PhysWidth(ToPhysical(plan)) == Width(plan)
  {
    match plan
    case Filter(_, input) => PhysicalWidth(input);
    case Sort(_, input) => PhysicalWidth(input);
    case Limit(_, _, input) => PhysicalWidth(input);
    case Dedup(input) => PhysicalWidth(input);
    case _ =>
  }

  lemma RunNestedLoop(env: Env, kind: JoinKind, l: Phys, r: Phys, c: JoinCondition, w: nat)
    ensures PhysRun(env, NestedLoopJoin(kind, l, r, c, w)) ==
      JoinBy(kind, PhysRun(env, l), PhysRun(env, r), PhysWidth(l), PhysWidth(r), Accept(env.ops, c))
  {
  }

  lemma RunHash(env: Env, kind: JoinKind, l: Phys, r: Phys, keys: HashKeys, w: nat)
    ensures PhysRun(env, HashJoin(kind, l, r, keys.left, keys.right, keys.residual, w)) ==
      JoinBy(kind, PhysRun(env, l), PhysRun(env, r), PhysWidth(l), PhysWidth(r), HashAccept(env.ops, keys))
  {
  }

  /** Whichever join the physical plan uses, it yields what the join condition asks for. */
  lemma PhysicalJoinOk(env: Env, kind: JoinKind, l: Plan, r: Plan, c: JoinCondition, w: nat)
    requires Lawful(env) && WellFormed(env, l) && WellFormed(env, r) && HashExact(env.ops, c, Width(l), Width(r))
    requires PhysRun(env, ToPhysical(l)) == Run(env, l) && PhysRun(env, ToPhysical(r)) == Run(env, r)
    ensures PhysRun(env, ToPhysical(Join(kind, l, r, c, w))) ==
      JoinBy(kind, Run(env, l), Run(env, r), Width(l), Width(r), Accept(env.ops, c))
  {
    hide HashExact, HashAccept, JoinBy, ShiftRight, ExtractEquiKeys, Accepts, PhysRun, PhysWidth, Run, Width,
      WellFormed, Lawful;
    var keys, left, right := ExtractEquiKeys(c), ToPhysical(l), ToPhysical(r);
    PhysicalWidth(l);
    PhysicalWidth(r);
    assert ToPhysical(Join(kind, l, r, c, w)) == JoinPlan(kind, left, right, c, w, keys, Width(l));
    if keys.None? {
      RunNestedLoop(env, kind, left, right, c, w);
    } else {
      var shifted := ShiftRight(keys.value, Width(l));
      RunHash(env, kind, left, right, shifted, w);
      RunWide(env, l);
      RunWide(env, r);
      ExactAcceptsAll(env.ops, c, Run(env, l), Run(env, r), Width(l), Width(r));
      JoinSame(kind, Run(env, l), Run(env, r), Width(l), Width(r), HashAccept(env.ops, shifted), Accept(env.ops, c));
    }
  }

  /** The physical plan yields the logical plan's rows. */
  lemma {:induction false} ToPhysicalKeepsRows(env: Env, plan: Plan)
    requires Lawful(env) && WellFormed(env, plan) && EquiSafe(env.ops, plan)
    ensures PhysRun(env, ToPhysical(plan)) == Run(env, plan)
  {
    hide HashExact, HashAccept, JoinBy, ExtractEquiKeys, Accepts;
    hide Keep, Project, SortRows, LimitRows, Distinct, ConstantRows, Count, Offset, Conjoin, SplitConjunctions;
    match plan
    case Filter(p, input) =>
      ToPhysicalKeepsRows(env, input);
      if input.SeqScan? { SplitFilterOk(env, p, Run(env, input)); }
    case Projection(_, input) => ToPhysicalKeepsRows(env, input);
    case Join(kind, l, r, c, w) =>
      ToPhysicalKeepsRows(env, l);
      ToPhysicalKeepsRows(env, r);
      PhysicalJoinOk(env, kind, l, r, c, w);
    case Aggregate(_, input) => ToPhysicalKeepsRows(env, input);
    case Sort(_, input) => ToPhysicalKeepsRows(env, input);
    case Limit(_, _, input) => ToPhysicalKeepsRows(env, input);
    case Dedup(input) => ToPhysicalKeepsRows(env, input);
    case Insert(_, source) => ToPhysicalKeepsRows(env, source);
    case Update(_, input) => ToPhysicalKeepsRows(env, input);
    case Delete(_, input) => ToPhysicalKeepsRows(env, input);
    case SeqScan(_, _) =>
    case Values(_, _) =>
    case Nothing =>
  }

  lemma SplitFilterOk(env: Env, p: Expr, rows: Rows)
    ensures Keep(Pass(env.ops, [Conjoin(SplitConjunctions(p))]), rows) == Keep(Pass(env.ops, [p]), rows)
  {
    var joined := Conjoin(SplitConjunctions(p));
    forall row
      ensures AllTrue(env.ops, [joined], row) == AllTrue(env.ops, [p], row)
    {
      ConjoinAfterSplit(env.ops, p, row);
      assert [joined][0] == joined && [p][0] == p;
    }
    KeepSame(Pass(env.ops, [joined]), Pass(env.ops, [p]), rows);
  }

  lemma {:induction false} FuseWidth(plan: Phys)
    ensures PhysWidth(FuseSortLimit(plan)) == PhysWidth(plan)
  {
    match plan
    case PLimit(limit, _, input) =>
      if limit.Some? && input.PSort? { FuseWidth(input.input); } else { FuseWidth(input); }
    case PFilter(_, input) => FuseWidth(input);
    case PSort(_, input) => FuseWidth(input);
    case HashDistinct(input) => FuseWidth(input);
    case _ =>
  }

  /** Replacing a sort under a limit by a bounded top-N yields the same rows in the same order. */
  lemma {:induction false} FuseKeepsRows(env: Env, plan: Phys)
    ensures PhysRun(env, FuseSortLimit(plan)) == PhysRun(env, plan)
  {
    hide JoinBy, TopRows, Count, Offset, HashAccept;
    hide Keep, Project, SortRows, LimitRows, Distinct, ConstantRows;
    match plan
    case PLimit(limit, offset, input) =>
      if limit.Some? && input.PSort? {
        FuseKeepsRows(env, input.input);
        TopRowsOk(env.order(input.keys), Count(env.ops, limit), Offset(env.ops, offset), PhysRun(env, input.input));
      } else {
        FuseKeepsRows(env, input);
      }
    case PFilter(_, input) => FuseKeepsRows(env, input);
    case PProjection(_, input) => FuseKeepsRows(env, input);
    case NestedLoopJoin(_, l, r, _, _) => FuseKeepsRows(env, l); FuseKeepsRows(env, r); FuseWidth(l); FuseWidth(r);
    case HashJoin(_, l, r, _, _, _, _) => FuseKeepsRows(env, l); FuseKeepsRows(env, r); FuseWidth(l); FuseWidth(r);
    case HashAggregate(_, input) => FuseKeepsRows(env, input);
    case PSort(_, input) => FuseKeepsRows(env, input);
    case HashDistinct(input) => FuseKeepsRows(env, input);
    case PInsert(_, source) => FuseKeepsRows(env, source);
    case PUpdate(_, input) => FuseKeepsRows(env, input);
    case PDelete(_, input) => FuseKeepsRows(env, input);
    case _ =>
  }

  lemma TopRowsOk(leq: Order, limit: Option<nat>, offset: nat, rows: Rows)
    ensures TopRows(leq, limit, offset, rows) == LimitRows(limit, offset, SortRows(leq, rows))
  {
    if limit.Some? {
      TopKIsTake(leq, offset + limit.value, rows);
      LimitOfTop(limit.value, offset, SortRows(leq, rows));
    }
  }

  // ---------------------------------------------------------------- the whole optimizer

  lemma {:induction false} WrapSafe(env: Env, preds: seq<Expr>, plan: Plan)
    ensures WellFormed(env, WrapFilters(preds, plan)) <==> WellFormed(env, plan)
    ensures EquiSafe(env.ops, WrapFilters(preds, plan)) <==> EquiSafe(env.ops, plan)
  {
    if preds != [] { WrapSafe(env, preds[1..], plan); }
  }

  /** Pushdown leaves schemas and join conditions alone. */
  lemma {:induction false} PushSafe(env: Env, plan: Plan, preds: seq<Expr>)
    requires WellFormed(env, plan) && EquiSafe(env.ops, plan)
    ensures WellFormed(env, Push(plan, preds)) && EquiSafe(env.ops, Push(plan, preds))
    decreases plan
  {
    hide HashExact;
    match plan
    case Filter(p, input) => PushSafe(env, input, preds + SplitConjunctions(p));
    case Projection(_, input) => PushSafe(env, input, preds);
    case Join(kind, l, r, c, w) =>
      var routed := Route(preds, Width(l));
      PushSafe(env, l, routed.left);
      PushSafe(env, r, routed.right);
      PushWidth(l, routed.left);
      PushWidth(r, routed.right);
      WrapSafe(env, routed.joint, Join(kind, Push(l, routed.left), Push(r, routed.right), c, w));
    case Aggregate(spec, input) => PushSafe(env, input, []); WrapSafe(env, preds, Aggregate(spec, Push(input, [])));
    case Sort(_, input) => PushSafe(env, input, preds);
    case Limit(limit, offset, input) =>
      PushSafe(env, input, []);
      WrapSafe(env, preds, Limit(limit, offset, Push(input, [])));
    case Dedup(input) => PushSafe(env, input, preds);
    case Update(_, input) => PushSafe(env, input, preds);
    case Delete(_, input) => PushSafe(env, input, preds);
    case _ => WrapSafe(env, preds, plan);
  }

  /** The optimized physical plan yields the rows of the plan it was given, in the same order. */
  lemma {:induction false} OptimizeKeepsRows(env: Env, plan: Plan)
    requires Lawful(env) && WellFormed(env, plan) && Movable(plan, []) && EquiSafe(env.ops, plan)
    ensures PhysRun(env, Optimize(plan)) == Run(env, plan)
  {
    PushKeepsRows(env, plan, []);
    KeepAll(Pass(env.ops, []), Run(env, plan));
    PushSafe(env, plan, []);
    ToPhysicalKeepsRows(env, Push(plan, []));
    FuseKeepsRows(env, ToPhysical(Push(plan, [])));
  }

  // ---------------------------------------------------------------- the optimizer's own loops

  method Wrap(preds: seq<Expr>, plan: Plan) returns (r: Plan)
    ensures r == WrapFilters(preds, plan)
  {
    r := plan;
    for i := |preds| downto 0
      invariant r == WrapFilters(preds[i..], plan)
    {
      r := Filter(preds[i], r);
      assert preds[i..][1..] == preds[i + 1..];
    }
    assert preds[0..] == preds;
  }

  method RoutePredicates(preds: seq<Expr>, n: nat) returns (left: seq<Expr>, right: seq<Expr>, joint: seq<Expr>)
    ensures Routed(left, right, joint) == Route(preds, n)
  {
    left, right, joint := [], [], [];
    for i := 0 to |preds|
      invariant Routed(left, right, joint) == Route(preds[..i], n)
    {
      var pred := preds[i];
      assert preds[..i + 1][..i] == preds[..i];
      if GoesLeft(pred, n) {
        left := left + [pred];
      } else if GoesRight(pred, n) {
        right := right + [ShiftScopeIndices(pred, -(n as int))];
      } else {
        joint := joint + [pred];
      }
    }
    assert preds[..|preds|] == preds;
  }

  method PushPredicates(plan: Plan, preds: seq<Expr>) returns (r: Plan)
    ensures r == Push(plan, preds)
    decreases plan
  {
    match plan
    case Filter(p, input) =>
      var all := SplitInto(p, preds);
      r := PushPredicates(input, all);
    case Projection(es, input) =>
      var inner := PushPredicates(input, preds);
      r := Projection(es, inner);
    case Join(kind, l, r', c, w) =>
      var left, right, joint := RoutePredicates(preds, Width(l));
      var newLeft := PushPredicates(l, left);
      var newRight := PushPredicates(r', right);
      r := Wrap(joint, Join(kind, newLeft, newRight, c, w));
    case Aggregate(spec, input) =>
      var inner := PushPredicates(input, []);
      r := Wrap(preds, Aggregate(spec, inner));
    case Sort(keys, input) =>
      var inner := PushPredicates(input, preds);
      r := Sort(keys, inner);
    case Limit(limit, offset, input) =>
      var inner := PushPredicates(input, []);
      r := Wrap(preds, Limit(limit, offset, inner));
    case Dedup(input) =>
      var inner := PushPredicates(input, preds);
      r := Dedup(inner);
    case Update(c, input) =>
      var inner := PushPredicates(input, preds);
      r := Update(c, inner);
    case Delete(c, input) =>
      var inner := PushPredicates(input, preds);
      r := Delete(c, inner);
    case _ => r := Wrap(preds, plan);
  }
}
