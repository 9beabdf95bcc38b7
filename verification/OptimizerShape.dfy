/** What the optimizer's plans look like: filters have sunk, equalities have become keys, sorts under limits are
    gone. */
module OptimizerShape {
  import opened Wrappers
  import opened Expressions
  import opened RowOps
  import opened Plans
  import opened Optimizer

  // ---------------------------------------------------------------- filters have sunk

  /** A filter on this predicate may stand above this plan: there is nothing below that it could pass. Above a join it
      must read columns of both sides, as far as its columns can be told. */
  predicate Stays(p: Expr, below: Plan) {
    match below
    case Filter(_, input) => Stays(p, input)
    case Join(_, l, _, _, _) => LikeFree(p) ==> !AllBelow(Columns(p), Width(l)) && !AllFrom(Columns(p), Width(l))
    case SeqScan(_, _) => true
    case Aggregate(_, _) => true
    case Limit(_, _, _) => true
    case Values(_, _) => true
    case Insert(_, _) => true
    case Nothing => true
    case _ => false
  }

  /** Every filter is on one conjunct and stands as low as it may; the source of an insert is left as it is. */
  predicate Sunk(plan: Plan) {
    match plan
    case Filter(p, input) => SingleConjunct(p) && Stays(p, input) && Sunk(input)
    case Projection(_, input) => Sunk(input)
    case Join(_, l, r, _, _) => Sunk(l) && Sunk(r)
    case Aggregate(_, input) => Sunk(input)
    case Sort(_, input) => Sunk(input)
    case Limit(_, _, input) => Sunk(input)
    case Dedup(input) => Sunk(input)
    case Update(_, input) => Sunk(input)
    case Delete(_, input) => Sunk(input)
    case _ => true
  }

  predicate Conjuncts(preds: seq<Expr>) {
    forall i :: 0 <= i < |preds| ==> SingleConjunct(preds[i])
  }

  lemma {:induction false} WrapSinks(preds: seq<Expr>, plan: Plan)
    requires Conjuncts(preds) && Sunk(plan) && forall i :: 0 <= i < |preds| ==> Stays(preds[i], plan)
    ensures Sunk(WrapFilters(preds, plan))
    ensures forall p: Expr {:trigger Stays(p, plan)} :: Stays(p, plan) ==> Stays(p, WrapFilters(preds, plan))
  {
    if preds != [] { WrapSinks(preds[1..], plan); }
  }

  lemma {:induction false} RouteConjuncts(preds: seq<Expr>, n: nat)
    requires Conjuncts(preds)
    ensures var routed := Route(preds, n);
      && Conjuncts(routed.left) && Conjuncts(routed.right) && Conjuncts(routed.joint)
      && forall i :: 0 <= i < |routed.joint| ==> !GoesLeft(routed.joint[i], n) && !GoesRight(routed.joint[i], n)
    decreases |preds|
  {
    if preds != [] { RouteConjuncts(preds[..|preds| - 1], n); }
  }

  lemma JointStays(p: Expr, n: nat)
    requires !GoesLeft(p, n) && !GoesRight(p, n)
    ensures LikeFree(p) ==> !AllBelow(Columns(p), n) && !AllFrom(Columns(p), n)
  {
    CollectSeesAll(p);
  }

  /** Pushdown leaves every conjunct as low as it may stand. */
  lemma {:induction false} PushSinks(plan: Plan, preds: seq<Expr>)
    requires Conjuncts(preds)
    ensures Sunk(Push(plan, preds))
    decreases plan
  {
    match plan
    case Filter(p, input) =>
      SplitFully(p);
      PushSinks(input, preds + SplitConjunctions(p));
    case Projection(_, input) => PushSinks(input, preds);
    case Join(kind, l, r, c, w) => JoinSinks(kind, l, r, c, w, preds);
    case Aggregate(spec, input) =>
      PushSinks(input, []);
      WrapSinks(preds, Aggregate(spec, Push(input, [])));
    case Sort(_, input) => PushSinks(input, preds);
    case Limit(limit, offset, input) =>
      PushSinks(input, []);
      WrapSinks(preds, Limit(limit, offset, Push(input, [])));
    case Dedup(input) => PushSinks(input, preds);
    case Update(_, input) => PushSinks(input, preds);
    case Delete(_, input) => PushSinks(input, preds);
    case _ => WrapSinks(preds, plan);
  }

  lemma {:induction false} JoinSinks(kind: JoinKind, l: Plan, r: Plan, c: JoinCondition, w: nat, preds: seq<Expr>)
    requires Conjuncts(preds)
    ensures Sunk(Push(Join(kind, l, r, c, w), preds))
    decreases Join(kind, l, r, c, w), 0
  {
    var routed := Route(preds, Width(l));
    RouteConjuncts(preds, Width(l));
    PushSinks(l, routed.left);
    PushSinks(r, routed.right);
    PushWidth(l, routed.left);
    var join := Join(kind, Push(l, routed.left), Push(r, routed.right), c, w);
    forall i | 0 <= i < |routed.joint|
      ensures Stays(routed.joint[i], join)
    {
      JointStays(routed.joint[i], Width(l));
    }
    WrapSinks(routed.joint, join);
  }

  /** Conjuncts hang to the left: no right side of an AND is itself an AND. */
  predicate LeansLeft(e: Expr) {
    e.Binary? && e.op == And ==> SingleConjunct(e.right) && LeansLeft(e.left)
  }

  lemma {:induction false} SplitAfterConjoin(es: seq<Expr>)
    requires es != [] && Conjuncts(es)
    ensures LeansLeft(Conjoin(es)) && SplitConjunctions(Conjoin(es)) == es
    decreases |es|
  {
    if |es| > 1 {
      SplitAfterConjoin(es[..|es| - 1]);
      assert es == es[..|es| - 1] + [es[|es| - 1]];
    }
  }

  /** A filter directly on a scan is regrouped: the same conjuncts in the same order, hanging to the left. */
  lemma ScanFilter(p: Expr, table: nat, width: nat)
    ensures var r := ToPhysical(Filter(p, SeqScan(table, width)));
      && r.PFilter? && r.input == PSeqScan(table, width)
      && SplitConjunctions(r.test) == SplitConjunctions(p) && LeansLeft(r.test)
  {
    SplitFully(p);
    SplitAfterConjoin(SplitConjunctions(p));
  }

  // ---------------------------------------------------------------- equalities have become keys

  /** An equality whose sides read columns, and none in common. */
  predicate Equates(e: Expr) {
    && e.Binary? && e.op == Eq && Columns(e.left) != [] && Columns(e.right) != []
    && forall i, j :: 0 <= i < |Columns(e.left)| && 0 <= j < |Columns(e.right)| ==>
      Columns(e.left)[i] != Columns(e.right)[j]
  }

  lemma KeyPairIff(e: Expr)
    requires LikeFree(e)
    ensures IsKeyPair(e) <==> Equates(e)
  {
    if e.Binary? {
      CollectSeesAll(e.left);
      CollectSeesAll(e.right);
    }
  }

  function Chosen(parts: seq<Expr>, equates: bool): seq<Expr> {
    if parts == [] then []
    else
      var front, e := Chosen(parts[..|parts| - 1], equates), parts[|parts| - 1];
      if Equates(e) == equates then front + [e] else front
  }

  /** The keys are the sides of exactly the equating conjuncts, in order; the residual is the others. */
  lemma {:induction false} SiftExact(parts: seq<Expr>)
    requires forall i :: 0 <= i < |parts| ==> LikeFree(parts[i])
    ensures var keys, pairs := Sift(parts), Chosen(parts, true);
      && keys.residual == Chosen(parts, false) && |keys.left| == |keys.right| == |pairs|
      && forall i :: 0 <= i < |pairs| ==>
        pairs[i].Binary? && keys.left[i] == pairs[i].left && keys.right[i] == pairs[i].right
    decreases |parts|
  {
    if parts != [] {
      SiftExact(parts[..|parts| - 1]);
      KeyPairIff(parts[|parts| - 1]);
    }
  }

  predicate SomeEquates(parts: seq<Expr>) {
    exists i :: 0 <= i < |parts| && Equates(parts[i])
  }

  lemma {:induction false} ChosenSome(parts: seq<Expr>)
    ensures Chosen(parts, true) != [] <==> SomeEquates(parts)
    decreases |parts|
  {
    if parts != [] { ChosenSome(parts[..|parts| - 1]); }
  }

  /** A join ON a condition becomes a hash join exactly if one of its conjuncts equates columns. */
  lemma HashedIff(kind: JoinKind, l: Plan, r: Plan, e: Expr, w: nat)
    requires forall i :: 0 <= i < |SplitConjunctions(e)| ==> LikeFree(SplitConjunctions(e)[i])
    ensures ToPhysical(Join(kind, l, r, On(e), w)).HashJoin? <==> SomeEquates(SplitConjunctions(e))
  {
    SiftExact(SplitConjunctions(e));
    ChosenSome(SplitConjunctions(e));
    JoinByKeys(kind, l, r, On(e), w);
  }

  lemma JoinByKeys(kind: JoinKind, l: Plan, r: Plan, c: JoinCondition, w: nat)
    ensures ToPhysical(Join(kind, l, r, c, w)).HashJoin? <==> ExtractEquiKeys(c).Some?
  {
    hide ExtractEquiKeys;
    var keys := ExtractEquiKeys(c);
    assert ToPhysical(Join(kind, l, r, c, w)) ==
           JoinPlan(kind, ToPhysical(l), ToPhysical(r), c, w, keys, PhysWidth(ToPhysical(l)));
  }

  // ---------------------------------------------------------------- sorts under limits are gone

  /** No limit with a count stands directly on a sort. */
  predicate NoSortedLimit(plan: Phys) {
    match plan
    case PLimit(limit, _, input) => !(limit.Some? && input.PSort?) && NoSortedLimit(input)
    case PFilter(_, input) => NoSortedLimit(input)
    case PProjection(_, input) => NoSortedLimit(input)
    case NestedLoopJoin(_, l, r, _, _) => NoSortedLimit(l) && NoSortedLimit(r)
    case HashJoin(_, l, r, _, _, _, _) => NoSortedLimit(l) && NoSortedLimit(r)
    case HashAggregate(_, input) => NoSortedLimit(input)
    case PSort(_, input) => NoSortedLimit(input)
    case TopN(_, _, _, input) => NoSortedLimit(input)
    case HashDistinct(input) => NoSortedLimit(input)
    case PInsert(_, source) => NoSortedLimit(source)
    case PUpdate(_, input) => NoSortedLimit(input)
    case PDelete(_, input) => NoSortedLimit(input)
    case _ => true
  }

  /** Every top-N spelled out as the limit on a sort it stands for; nothing else is changed. */
  function SpelledOut(plan: Phys): Phys {
    match plan
    case TopN(keys, limit, offset, input) => PLimit(Some(limit), offset, PSort(keys, SpelledOut(input)))
    case PLimit(limit, offset, input) => PLimit(limit, offset, SpelledOut(input))
    case PFilter(p, input) => PFilter(p, SpelledOut(input))
    case PProjection(es, input) => PProjection(es, SpelledOut(input))
    case NestedLoopJoin(kind, l, r, c, w) => NestedLoopJoin(kind, SpelledOut(l), SpelledOut(r), c, w)
    case HashJoin(kind, l, r, lk, rk, residual, w) => HashJoin(kind, SpelledOut(l), SpelledOut(r), lk, rk, residual, w)
    case HashAggregate(spec, input) => HashAggregate(spec, SpelledOut(input))
    case PSort(keys, input) => PSort(keys, SpelledOut(input))
    case HashDistinct(input) => HashDistinct(SpelledOut(input))
    case PInsert(c, source) => PInsert(c, SpelledOut(source))
    case PUpdate(c, input) => PUpdate(c, SpelledOut(input))
    case PDelete(c, input) => PDelete(c, SpelledOut(input))
    case PSeqScan(_, _) => plan
    case PValues(_, _) => plan
    case PNothing => plan
  }

  /** A plan without a top-N anywhere. */
  predicate Unfused(plan: Phys) {
    SpelledOut(plan) == plan
  }

  /** Fusion puts a top-N exactly where a limit with a count stood on a sort, with their keys, count and offset; all the
      rest of the plan stays. */
  lemma {:induction false} FusesAll(plan: Phys)
    requires Unfused(plan)
    ensures NoSortedLimit(FuseSortLimit(plan)) && SpelledOut(FuseSortLimit(plan)) == plan
    ensures FuseSortLimit(plan).PSort? ==> plan.PSort?
  {
    match plan
    case PLimit(limit, offset, input) =>
      assert SpelledOut(plan) == PLimit(limit, offset, SpelledOut(input));
      if limit.Some? && input.PSort? {
        assert SpelledOut(input) == PSort(input.keys, SpelledOut(input.input));
        FusesAll(input.input);
      } else {
        FusesAll(input);
      }
    case PFilter(_, input) => FusesAll(input);
    case PProjection(_, input) => FusesAll(input);
    case NestedLoopJoin(_, l, r, _, _) => FusesAll(l); FusesAll(r);
    case HashJoin(_, l, r, _, _, _, _) => FusesAll(l); FusesAll(r);
    case HashAggregate(_, input) => FusesAll(input);
    case PSort(_, input) => FusesAll(input);
    case HashDistinct(input) => FusesAll(input);
    case PInsert(_, source) => FusesAll(source);
    case PUpdate(_, input) => FusesAll(input);
    case PDelete(_, input) => FusesAll(input);
    case _ =>
  }

  /** Those two facts leave no choice: they are met by one plan only. */
  lemma {:induction false} FusedOneWay(a: Phys, b: Phys)
    requires NoSortedLimit(a) && NoSortedLimit(b) && SpelledOut(a) == SpelledOut(b)
    ensures a == b
  {
    match a
    case PLimit(_, _, input) => if b.PLimit? { FusedOneWay(input, b.input); }
    case TopN(_, _, _, input) => if b.TopN? { FusedOneWay(input, b.input); }
    case PFilter(_, input) => FusedOneWay(input, b.input);
    case PProjection(_, input) => FusedOneWay(input, b.input);
    case NestedLoopJoin(_, l, r, _, _) => FusedOneWay(l, b.left); FusedOneWay(r, b.right);
    case HashJoin(_, l, r, _, _, _, _) => FusedOneWay(l, b.left); FusedOneWay(r, b.right);
    case HashAggregate(_, input) => FusedOneWay(input, b.input);
    case PSort(_, input) => FusedOneWay(input, b.input);
    case HashDistinct(input) => FusedOneWay(input, b.input);
    case PInsert(_, source) => FusedOneWay(source, b.source);
    case PUpdate(_, input) => FusedOneWay(input, b.input);
    case PDelete(_, input) => FusedOneWay(input, b.input);
    case _ =>
  }

  lemma {:induction false} PhysicalUnfused(plan: Plan)
    ensures Unfused(ToPhysical(plan))
  {
    match plan
    case Filter(_, input) => PhysicalUnfused(input);
    case Projection(_, input) => PhysicalUnfused(input);
    case Join(_, l, r, _, _) => PhysicalUnfused(l); PhysicalUnfused(r);
    case Aggregate(_, input) => PhysicalUnfused(input);
    case Sort(_, input) => PhysicalUnfused(input);
    case Limit(_, _, input) => PhysicalUnfused(input);
    case Dedup(input) => PhysicalUnfused(input);
    case Insert(_, source) => PhysicalUnfused(source);
    case Update(_, input) => PhysicalUnfused(input);
    case Delete(_, input) => PhysicalUnfused(input);
    case _ =>
  }

  /** The optimized plan is the physical plan of a plan whose filters have sunk, with no limit left on a sort. */
  lemma {:induction false} OptimizedShape(plan: Plan)
    ensures Sunk(Push(plan, [])) && NoSortedLimit(Optimize(plan))
    ensures SpelledOut(Optimize(plan)) == ToPhysical(Push(plan, []))
  {
    PushSinks(plan, []);
    PhysicalUnfused(Push(plan, []));
    FusesAll(ToPhysical(Push(plan, [])));
  }
}
