/** Bound expressions, their three-valued meaning, and the optimizer's traversals over them. */
module Expressions {
  import opened Wrappers

  const USIZE: int := 0x1_0000_0000_0000_0000

  type Usize = k: int | 0 <= k < 0x1_0000_0000_0000_0000

  datatype Value = Null | Bool(b: bool) | Int(i: int) | Str(s: string) | Float(bits: int)

  type Row = seq<Value>

  datatype BinaryOp = Add | Sub | Mul | Div | Mod | Eq | NotEq | Lt | LtEq | Gt | GtEq | And | Or | Concat

  datatype UnaryOp = Neg | Not

  datatype Expr =
    | Literal(value: Value)
    | ColumnRef(index: Usize)
    | Binary(left: Expr, op: BinaryOp, right: Expr)
    | Unary(uop: UnaryOp, arg: Expr)
    | IsNull(arg: Expr)
    | IsNotNull(arg: Expr)
    | Between(arg: Expr, low: Expr, high: Expr)
    | Like(arg: Expr, pattern: Expr)

  /** What the engine supplies: strict operators on non-null values. */
  datatype Operators = Operators(apply: (BinaryOp, Value, Value) -> Value, negate: Value -> Value,
    like: (Value, Value) -> Value)

  // ---------------------------------------------------------------- three-valued logic

  datatype Truth = True | False | Unknown

  function TruthOf(v: Value): Truth {
    if v == Bool(true) then True else if v == Bool(false) then False else Unknown
  }

  function OfTruth(t: Truth): Value {
    match t
    case True => Bool(true)
    case False => Bool(false)
    case Unknown => Null
  }

  function And3(a: Truth, b: Truth): Truth {
    if a == False || b == False then False else if a == True && b == True then True else Unknown
  }

  function Or3(a: Truth, b: Truth): Truth {
    if a == True || b == True then True else if a == False && b == False then False else Unknown
  }

  function Not3(a: Truth): Truth {
    match a
    case True => False
    case False => True
    case Unknown => Unknown
  }

  /** NULL lies between false and true. */
  function Rank(t: Truth): int {
    match t
    case False => 0
    case Unknown => 1
    case True => 2
  }

  /** AND is the lesser, OR the greater of its sides, and NOT turns the order around. */
  lemma Kleene(a: Truth, b: Truth)
    ensures Rank(And3(a, b)) == if Rank(a) < Rank(b) then Rank(a) else Rank(b)
    ensures Rank(Or3(a, b)) == if Rank(a) < Rank(b) then Rank(b) else Rank(a)
    ensures Rank(Not3(a)) == 2 - Rank(a)
  {
  }

  function ApplyBinary(ops: Operators, op: BinaryOp, a: Value, b: Value): Value {
    if op == And then OfTruth(And3(TruthOf(a), TruthOf(b)))
    else if op == Or then OfTruth(Or3(TruthOf(a), TruthOf(b)))
    else if a == Null || b == Null then Null
    else if op == Eq then Bool(a == b)
    else ops.apply(op, a, b)
  }

  /** The value of an expression on a row; a column beyond the row reads as NULL. */
  function Eval(ops: Operators, e: Expr, row: Row): Value {
    match e
    case Literal(v) => v
    case ColumnRef(i) => if i < |row| then row[i] else Null
    case Binary(l, op, r) => ApplyBinary(ops, op, Eval(ops, l, row), Eval(ops, r, row))
    case Unary(op, a) =>
      var v := Eval(ops, a, row);
      if op == Not then OfTruth(Not3(TruthOf(v))) else if v == Null then Null else ops.negate(v)
    case IsNull(a) => Bool(Eval(ops, a, row) == Null)
    case IsNotNull(a) => Bool(Eval(ops, a, row) != Null)
    case Between(a, low, high) =>
      var v := Eval(ops, a, row);
      ApplyBinary(ops, And, ApplyBinary(ops, GtEq, v, Eval(ops, low, row)),
        ApplyBinary(ops, LtEq, v, Eval(ops, high, row)))
    case Like(a, pattern) =>
      var v, p := Eval(ops, a, row), Eval(ops, pattern, row);
      if v == Null || p == Null then Null else ops.like(v, p)
  }

  /** BETWEEN is two comparisons, and IS NOT NULL is the opposite of IS NULL. */
  lemma Shorthands(ops: Operators, a: Expr, low: Expr, high: Expr, row: Row)
    ensures Eval(ops, Between(a, low, high), row) ==
      Eval(ops, Binary(Binary(a, GtEq, low), And, Binary(a, LtEq, high)), row)
    ensures Eval(ops, IsNotNull(a), row) == Eval(ops, Unary(Not, IsNull(a)), row)
  {
  }

  predicate IsTrue(ops: Operators, e: Expr, row: Row) {
    Eval(ops, e, row) == Bool(true)
  }

  predicate AllTrue(ops: Operators, es: seq<Expr>, row: Row) {
    forall i :: 0 <= i < |es| ==> IsTrue(ops, es[i], row)
  }

  // ---------------------------------------------------------------- columns

  /** Every column an expression reads, in order. */
  function Columns(e: Expr): seq<Usize> {
    match e
    case Literal(_) => []
    case ColumnRef(i) => [i]
    case Binary(l, _, r) => Columns(l) + Columns(r)
    case Unary(_, a) => Columns(a)
    case IsNull(a) => Columns(a)
    case IsNotNull(a) => Columns(a)
    case Between(a, low, high) => Columns(a) + Columns(low) + Columns(high)
    case Like(a, pattern) => Columns(a) + Columns(pattern)
  }

  /** The columns the optimizer collects: it does not look inside LIKE. */
  function CollectScopeIndices(e: Expr): seq<Usize> {
    match e
    case ColumnRef(i) => [i]
    case Binary(l, _, r) => CollectScopeIndices(l) + CollectScopeIndices(r)
    case Unary(_, a) => CollectScopeIndices(a)
    case IsNull(a) => CollectScopeIndices(a)
    case IsNotNull(a) => CollectScopeIndices(a)
    case Between(a, low, high) => CollectScopeIndices(a) + CollectScopeIndices(low) + CollectScopeIndices(high)
    case _ => []
  }

  /** Re-index the columns by `delta`, wrapping like an unsigned machine word; BETWEEN and LIKE are left as they are. */
  function ShiftScopeIndices(e: Expr, delta: int): Expr {
    match e
    case ColumnRef(i) => ColumnRef((i + delta) % USIZE)
    case Binary(l, op, r) => Binary(ShiftScopeIndices(l, delta), op, ShiftScopeIndices(r, delta))
    case Unary(op, a) => Unary(op, ShiftScopeIndices(a, delta))
    case IsNull(a) => IsNull(ShiftScopeIndices(a, delta))
    case IsNotNull(a) => IsNotNull(ShiftScopeIndices(a, delta))
    case _ => e
  }

  /** No column sits below a LIKE. */
  predicate LikeFree(e: Expr) {
    match e
    case Literal(_) => true
    case ColumnRef(_) => true
    case Binary(l, _, r) => LikeFree(l) && LikeFree(r)
    case Unary(_, a) => LikeFree(a)
    case IsNull(a) => LikeFree(a)
    case IsNotNull(a) => LikeFree(a)
    case Between(a, low, high) => LikeFree(a) && LikeFree(low) && LikeFree(high)
    case Like(_, _) => Columns(e) == []
  }

  /** No column sits below a BETWEEN or a LIKE. */
  predicate Plain(e: Expr) {
    match e
    case Literal(_) => true
    case ColumnRef(_) => true
    case Binary(l, _, r) => Plain(l) && Plain(r)
    case Unary(_, a) => Plain(a)
    case IsNull(a) => Plain(a)
    case IsNotNull(a) => Plain(a)
    case _ => Columns(e) == []
  }

  function Shifted(columns: seq<Usize>, delta: int): seq<Usize> {
    seq(|columns|, i requires 0 <= i < |columns| => (columns[i] + delta) % USIZE)
  }

  lemma ShiftedConcat(a: seq<Usize>, b: seq<Usize>, delta: int)
    ensures Shifted(a + b, delta) == Shifted(a, delta) + Shifted(b, delta)
  {
  }

  /** The collected columns are all the columns exactly when none hides below a LIKE. */
  lemma {:induction false} CollectSeesAll(e: Expr)
    ensures |CollectScopeIndices(e)| <= |Columns(e)|
    ensures CollectScopeIndices(e) == Columns(e) <==> LikeFree(e)
  {
    match e
    case Literal(_) =>
    case ColumnRef(_) =>
    case Binary(l, _, r) => CollectSeesAll(l); CollectSeesAll(r);
      ConcatEqual(CollectScopeIndices(l), Columns(l), CollectScopeIndices(r), Columns(r));
    case Unary(_, a) => CollectSeesAll(a);
    case IsNull(a) => CollectSeesAll(a);
    case IsNotNull(a) => CollectSeesAll(a);
    case Between(a, low, high) => CollectSeesAll(a); CollectSeesAll(low); CollectSeesAll(high);
      ConcatEqual(CollectScopeIndices(a), Columns(a), CollectScopeIndices(low), Columns(low));
      ConcatEqual(CollectScopeIndices(a) + CollectScopeIndices(low), Columns(a) + Columns(low),
        CollectScopeIndices(high), Columns(high));
    case Like(_, _) =>
  }

  /** Concatenations of pieces no longer than the whole agree exactly when the pieces do. */
  lemma ConcatEqual<T>(a: seq<T>, a': seq<T>, b: seq<T>, b': seq<T>)
    requires |a| <= |a'| && |b| <= |b'|
    ensures a + b == a' + b' <==> a == a' && b == b'
  {
    if a + b == a' + b' {
      assert |a + b| == |a' + b'|;
      assert a == (a + b)[..|a|] && a' == (a' + b')[..|a'|];
      assert b == (a + b)[|a|..] && b' == (a' + b')[|a'|..];
    }
  }

  lemma {:induction false} ShiftKeepsLength(e: Expr, delta: int)
    ensures |Columns(ShiftScopeIndices(e, delta))| == |Columns(e)|
  {
    match e
    case Binary(l, _, r) => ShiftKeepsLength(l, delta); ShiftKeepsLength(r, delta);
    case Unary(_, a) => ShiftKeepsLength(a, delta);
    case IsNull(a) => ShiftKeepsLength(a, delta);
    case IsNotNull(a) => ShiftKeepsLength(a, delta);
    case _ =>
  }

  /** Re-indexing moves every column by `delta` exactly when none sits below a BETWEEN or a LIKE. */
  lemma {:induction false} ShiftMovesAll(e: Expr, delta: int)
    requires delta % USIZE != 0
    ensures Columns(ShiftScopeIndices(e, delta)) == Shifted(Columns(e), delta) <==> Plain(e)
  {
    ShiftKeepsLength(e, delta);
    match e
    case Binary(l, _, r) =>
      ShiftMovesAll(l, delta); ShiftMovesAll(r, delta);
      ShiftKeepsLength(l, delta); ShiftKeepsLength(r, delta);
      ShiftedConcat(Columns(l), Columns(r), delta);
      ConcatEqual(Columns(ShiftScopeIndices(l, delta)), Shifted(Columns(l), delta),
                  Columns(ShiftScopeIndices(r, delta)), Shifted(Columns(r), delta));
    case Unary(_, a) => ShiftMovesAll(a, delta);
    case IsNull(a) => ShiftMovesAll(a, delta);
    case IsNotNull(a) => ShiftMovesAll(a, delta);
    case Literal(_) =>
    case ColumnRef(_) =>
    case _ =>
      var cs := Columns(e);
      if cs != [] { NoFixedPoint(cs[0], delta); assert Shifted(cs, delta)[0] != cs[0]; }
  }

  lemma NoFixedPoint(i: Usize, delta: int)
    requires delta % USIZE != 0
    ensures (i + delta) % USIZE != i
  {
    var q := (i + delta) / USIZE;
    assert (q * USIZE) % USIZE == 0;
    assert delta == q * USIZE + ((i + delta) % USIZE - i);
  }

  // ---------------------------------------------------------------- columns decide the value

  predicate AllBelow(cs: seq<Usize>, n: int) {
    forall i :: 0 <= i < |cs| ==> cs[i] < n
  }

  predicate AllFrom(cs: seq<Usize>, n: int) {
    forall i :: 0 <= i < |cs| ==> n <= cs[i]
  }

  lemma AllConcat(a: seq<Usize>, b: seq<Usize>, n: int)
    ensures AllBelow(a + b, n) <==> AllBelow(a, n) && AllBelow(b, n)
    ensures AllFrom(a + b, n) <==> AllFrom(a, n) && AllFrom(b, n)
  {
    assert forall i :: 0 <= i < |a| ==> a[i] == (a + b)[i];
    assert forall i :: 0 <= i < |b| ==> b[i] == (a + b)[|a| + i];
  }

  /** An expression over the left columns does not see what is joined on the right. */
  lemma {:induction false} EvalLeft(ops: Operators, e: Expr, l: Row, r: Row)
    requires AllBelow(Columns(e), |l|)
    ensures Eval(ops, e, l + r) == Eval(ops, e, l)
  {
    match e
    case Literal(_) =>
    case ColumnRef(i) => assert Columns(e)[0] == i;
    case Binary(a, _, b) => AllConcat(Columns(a), Columns(b), |l|); EvalLeft(ops, a, l, r); EvalLeft(ops, b, l, r);
    case Unary(_, a) => EvalLeft(ops, a, l, r);
    case IsNull(a) => EvalLeft(ops, a, l, r);
    case IsNotNull(a) => EvalLeft(ops, a, l, r);
    case Between(a, low, high) =>
      AllConcat(Columns(a) + Columns(low), Columns(high), |l|); AllConcat(Columns(a), Columns(low), |l|);
      EvalLeft(ops, a, l, r); EvalLeft(ops, low, l, r); EvalLeft(ops, high, l, r);
    case Like(a, p) => AllConcat(Columns(a), Columns(p), |l|); EvalLeft(ops, a, l, r); EvalLeft(ops, p, l, r);
  }

  /** A plain expression over the right columns means the same on the right row alone, once re-indexed. */
  lemma {:induction false} EvalRight(ops: Operators, e: Expr, l: Row, r: Row)
    requires Plain(e) && AllFrom(Columns(e), |l|)
    ensures Eval(ops, ShiftScopeIndices(e, -|l|), r) == Eval(ops, e, l + r)
  {
    match e
    case Literal(_) =>
    case ColumnRef(i) =>
      assert Columns(e)[0] == i;
      assert (i - |l|) % USIZE == i - |l|;
    case Binary(a, _, b) => AllConcat(Columns(a), Columns(b), |l|); EvalRight(ops, a, l, r); EvalRight(ops, b, l, r);
    case Unary(_, a) => EvalRight(ops, a, l, r);
    case IsNull(a) => EvalRight(ops, a, l, r);
    case IsNotNull(a) => EvalRight(ops, a, l, r);
    case _ => NoColumns(ops, e, l + r, r);
  }

  lemma {:induction false} NoColumns(ops: Operators, e: Expr, a: Row, b: Row)
    requires Columns(e) == []
    ensures Eval(ops, e, a) == Eval(ops, e, b)
  {
    EvalLeft(ops, e, [], a);
    EvalLeft(ops, e, [], b);
    assert [] + a == a && [] + b == b;
  }

  // ---------------------------------------------------------------- conjunctions

  function SplitConjunctions(e: Expr): (parts: seq<Expr>)
    ensures parts != []
  {
    if e.Binary? && e.op == And then SplitConjunctions(e.left) + SplitConjunctions(e.right) else [e]
  }

  predicate SingleConjunct(e: Expr) { !(e.Binary? && e.op == And) }

  /** No part is itself a conjunction. */
  lemma {:induction false} SplitFully(e: Expr)
    ensures forall i :: 0 <= i < |SplitConjunctions(e)| ==> SingleConjunct(SplitConjunctions(e)[i])
  {
    if e.Binary? && e.op == And {
      SplitFully(e.left);
      SplitFully(e.right);
    }
  }

  function Conjoin(es: seq<Expr>): Expr
    requires es != []
  {
    if |es| == 1 then es[0] else Binary(Conjoin(es[..|es| - 1]), And, es[|es| - 1])
  }

  /** The truth value of a conjunction of parts, as one fold. */
  function AllTruth(ops: Operators, es: seq<Expr>, row: Row): Truth {
    if es == [] then True else And3(AllTruth(ops, es[..|es| - 1], row), TruthOf(Eval(ops, es[|es| - 1], row)))
  }

  lemma {:induction false} AllTruthConcat(ops: Operators, a: seq<Expr>, b: seq<Expr>, row: Row)
    ensures AllTruth(ops, a + b, row) == And3(AllTruth(ops, a, row), AllTruth(ops, b, row))
    decreases |b|
  {
    if b == [] {
      assert a + b == a;
    } else {
      assert (a + b)[..|a + b| - 1] == a + b[..|b| - 1];
      AllTruthConcat(ops, a, b[..|b| - 1], row);
    }
  }

  lemma {:induction false} SplitTruth(ops: Operators, e: Expr, row: Row)
    ensures AllTruth(ops, SplitConjunctions(e), row) == TruthOf(Eval(ops, e, row))
  {
    if e.Binary? && e.op == And {
      SplitTruth(ops, e.left, row);
      SplitTruth(ops, e.right, row);
      AllTruthConcat(ops, SplitConjunctions(e.left), SplitConjunctions(e.right), row);
    } else {
      assert [e][..0] == [];
    }
  }

  lemma {:induction false} ConjoinTruth(ops: Operators, es: seq<Expr>, row: Row)
    requires es != []
    ensures TruthOf(Eval(ops, Conjoin(es), row)) == AllTruth(ops, es, row)
    decreases |es|
  {
    if |es| > 1 {
      ConjoinTruth(ops, es[..|es| - 1], row);
    } else {
      assert es[..0] == [];
    }
  }

  /** Splitting a predicate and conjoining the parts again keeps its value, NULL included. */
  lemma ConjoinAfterSplit(ops: Operators, e: Expr, row: Row)
    ensures Eval(ops, Conjoin(SplitConjunctions(e)), row) == Eval(ops, e, row)
  {
    var parts := SplitConjunctions(e);
    SplitTruth(ops, e, row);
    ConjoinTruth(ops, parts, row);
  }

  /** A conjunction is true exactly when all its parts are. */
  lemma {:induction false} AllTruthIsAllTrue(ops: Operators, es: seq<Expr>, row: Row)
    ensures AllTruth(ops, es, row) == True <==> AllTrue(ops, es, row)
    decreases |es|
  {
    if es != [] {
      var front := es[..|es| - 1];
      AllTruthIsAllTrue(ops, front, row);
      assert forall i :: 0 <= i < |front| ==> es[i] == front[i];
      if AllTrue(ops, front, row) && IsTrue(ops, es[|es| - 1], row) {
        assert forall i :: 0 <= i < |es| ==> IsTrue(ops, if i < |front| then front[i] else es[|es| - 1], row);
      }
    }
  }

  lemma SplitAllTrue(ops: Operators, e: Expr, row: Row)
    ensures AllTrue(ops, SplitConjunctions(e), row) <==> IsTrue(ops, e, row)
  {
    SplitTruth(ops, e, row);
    AllTruthIsAllTrue(ops, SplitConjunctions(e), row);
  }

  // ---------------------------------------------------------------- the optimizer's loops

  /** Push the conjuncts of `e` onto `out`. */
  method SplitInto(e: Expr, out: seq<Expr>) returns (parts: seq<Expr>)
    ensures parts == out + SplitConjunctions(e)
  {
    if e.Binary? && e.op == And {
      parts := SplitInto(e.left, out);
      parts := SplitInto(e.right, parts);
    } else {
      parts := out + [e];
    }
  }

  method ConjoinAll(es: seq<Expr>) returns (r: Expr)
    requires es != []
    ensures r == Conjoin(es)
  {
    r := es[0];
    for i := 1 to |es|
      invariant r == Conjoin(es[..i])
    {
      assert es[..i + 1][..i] == es[..i];
      r := Binary(r, And, es[i]);
    }
    assert es[..|es|] == es;
  }
}
