/** Operators on row lists, and how a filter passes through each of them. */
module RowOps {
  import opened Wrappers
  import opened Expressions

  type Rows = seq<Row>

  function Keep(p: Row -> bool, rows: Rows): Rows {
    if rows == [] then [] else if p(rows[0]) then [rows[0]] + Keep(p, rows[1..]) else Keep(p, rows[1..])
  }

  lemma {:induction false} KeepConcat(p: Row -> bool, a: Rows, b: Rows)
    ensures Keep(p, a + b) == Keep(p, a) + Keep(p, b)
  {
    if a == [] {
      assert a + b == b;
    } else {
      assert (a + b)[1..] == a[1..] + b;
      KeepConcat(p, a[1..], b);
    }
  }

  lemma KeepCons(p: Row -> bool, x: Row, rows: Rows)
    ensures Keep(p, [x] + rows) == if p(x) then [x] + Keep(p, rows) else Keep(p, rows)
    ensures Keep(p, [x]) == if p(x) then [x] else []
  {
    assert ([x] + rows)[1..] == rows;
  }

  lemma {:induction false} KeepSame(p: Row -> bool, q: Row -> bool, rows: Rows)
    requires forall i :: 0 <= i < |rows| ==> p(rows[i]) == q(rows[i])
    ensures Keep(p, rows) == Keep(q, rows)
  {
    if rows != [] { KeepSame(p, q, rows[1..]); }
  }

  lemma {:induction false} KeepAll(p: Row -> bool, rows: Rows)
    requires forall i :: 0 <= i < |rows| ==> p(rows[i])
    ensures Keep(p, rows) == rows
  {
    if rows != [] { KeepAll(p, rows[1..]); }
  }

  /** Filtering twice is filtering by both. */
  lemma {:induction false} KeepBoth(p: Row -> bool, q: Row -> bool, both: Row -> bool, rows: Rows)
    requires forall i :: 0 <= i < |rows| ==> both(rows[i]) == (p(rows[i]) && q(rows[i]))
    ensures Keep(p, Keep(q, rows)) == Keep(both, rows)
  {
    if rows != [] {
      KeepBoth(p, q, both, rows[1..]);
      KeepCons(p, rows[0], Keep(q, rows[1..]));
    }
  }

  /** Every row has this many columns. */
  predicate Wide(rows: Rows, width: nat) {
    forall i :: 0 <= i < |rows| ==> |rows[i]| == width
  }

  lemma {:induction false} KeepWide(p: Row -> bool, rows: Rows, width: nat)
    requires Wide(rows, width)
    ensures Wide(Keep(p, rows), width)
  {
    if rows != [] { KeepWide(p, rows[1..], width); }
  }

  // ---------------------------------------------------------------- joins

  datatype JoinKind = InnerJoin | LeftOuter | RightOuter | FullOuter | Cross

  predicate KeepsLeft(kind: JoinKind) { kind == LeftOuter || kind == FullOuter }

  predicate KeepsRight(kind: JoinKind) { kind == RightOuter || kind == FullOuter }

  function Nulls(n: nat): Row {
    seq(n, _ => Null)
  }

  function Matches(l: Row, rs: Rows, acc: (Row, Row) -> bool): Rows {
    if rs == [] then [] else if acc(l, rs[0]) then [l + rs[0]] + Matches(l, rs[1..], acc) else Matches(l, rs[1..], acc)
  }

  function LeftRow(kind: JoinKind, l: Row, rs: Rows, wr: nat, acc: (Row, Row) -> bool): Rows {
    var ms := Matches(l, rs, acc);
    if ms == [] && KeepsLeft(kind) then [l + Nulls(wr)] else ms
  }

  function LeftPart(kind: JoinKind, ls: Rows, rs: Rows, wr: nat, acc: (Row, Row) -> bool): Rows {
    if ls == [] then [] else LeftRow(kind, ls[0], rs, wr, acc) + LeftPart(kind, ls[1..], rs, wr, acc)
  }

  function RightPart(ls: Rows, rs: Rows, wl: nat, acc: (Row, Row) -> bool): Rows {
    if rs == [] then []
    else if exists i :: 0 <= i < |ls| && acc(ls[i], rs[0]) then RightPart(ls, rs[1..], wl, acc)
    else [Nulls(wl) + rs[0]] + RightPart(ls, rs[1..], wl, acc)
  }

  /** Join row pairs accepted by `acc`; outer joins also keep unmatched rows of their preserved side. */
  function JoinBy(kind: JoinKind, ls: Rows, rs: Rows, wl: nat, wr: nat, acc: (Row, Row) -> bool): Rows {
    LeftPart(kind, ls, rs, wr, acc) + (if KeepsRight(kind) then RightPart(ls, rs, wl, acc) else [])
  }

  /** Joins that accept the same pairs produce the same rows. */
  lemma JoinSame(kind: JoinKind, ls: Rows, rs: Rows, wl: nat, wr: nat, acc: (Row, Row) -> bool,
                 acc': (Row, Row) -> bool)
    requires forall i, j :: 0 <= i < |ls| && 0 <= j < |rs| ==> acc(ls[i], rs[j]) == acc'(ls[i], rs[j])
    ensures JoinBy(kind, ls, rs, wl, wr, acc) == JoinBy(kind, ls, rs, wl, wr, acc')
  {
    LeftPartSame(kind, ls, rs, wr, acc, acc');
    RightPartSame(ls, rs, wl, acc, acc');
  }

  lemma {:induction false} MatchesSame(l: Row, rs: Rows, acc: (Row, Row) -> bool, acc': (Row, Row) -> bool)
    requires forall j :: 0 <= j < |rs| ==> acc(l, rs[j]) == acc'(l, rs[j])
    ensures Matches(l, rs, acc) == Matches(l, rs, acc')
  {
    if rs != [] { MatchesSame(l, rs[1..], acc, acc'); }
  }

  lemma {:induction false} LeftPartSame(kind: JoinKind, ls: Rows, rs: Rows, wr: nat, acc: (Row, Row) -> bool,
                                        acc': (Row, Row) -> bool)
    requires forall i, j :: 0 <= i < |ls| && 0 <= j < |rs| ==> acc(ls[i], rs[j]) == acc'(ls[i], rs[j])
    ensures LeftPart(kind, ls, rs, wr, acc) == LeftPart(kind, ls, rs, wr, acc')
  {
    if ls != [] {
      MatchesSame(ls[0], rs, acc, acc');
      LeftPartSame(kind, ls[1..], rs, wr, acc, acc');
    }
  }

  lemma {:induction false} RightPartSame(ls: Rows, rs: Rows, wl: nat, acc: (Row, Row) -> bool, acc': (Row, Row) -> bool)
    requires forall i, j :: 0 <= i < |ls| && 0 <= j < |rs| ==> acc(ls[i], rs[j]) == acc'(ls[i], rs[j])
    ensures RightPart(ls, rs, wl, acc) == RightPart(ls, rs, wl, acc')
  {
    if rs != [] {
      RightPartSame(ls, rs[1..], wl, acc, acc');
    }
  }

  lemma {:induction false} MatchesWide(l: Row, rs: Rows, wr: nat, acc: (Row, Row) -> bool)
    requires Wide(rs, wr)
    ensures Wide(Matches(l, rs, acc), |l| + wr)
  {
    if rs != [] { MatchesWide(l, rs[1..], wr, acc); }
  }

  lemma {:induction false} LeftPartWide(kind: JoinKind, ls: Rows, rs: Rows, wl: nat, wr: nat, acc: (Row, Row) -> bool)
    requires Wide(ls, wl) && Wide(rs, wr)
    ensures Wide(LeftPart(kind, ls, rs, wr, acc), wl + wr)
  {
    if ls != [] {
      MatchesWide(ls[0], rs, wr, acc);
      LeftPartWide(kind, ls[1..], rs, wl, wr, acc);
    }
  }

  lemma {:induction false} RightPartWide(ls: Rows, rs: Rows, wl: nat, wr: nat, acc: (Row, Row) -> bool)
    requires Wide(rs, wr)
    ensures Wide(RightPart(ls, rs, wl, acc), wl + wr)
  {
    if rs != [] { RightPartWide(ls, rs[1..], wl, wr, acc); }
  }

  lemma JoinWide(kind: JoinKind, ls: Rows, rs: Rows, wl: nat, wr: nat, acc: (Row, Row) -> bool)
    requires Wide(ls, wl) && Wide(rs, wr)
    ensures Wide(JoinBy(kind, ls, rs, wl, wr, acc), wl + wr)
  {
    LeftPartWide(kind, ls, rs, wl, wr, acc);
    RightPartWide(ls, rs, wl, wr, acc);
  }

  /** A filter that splits into a left, a right and a joint part. */
  ghost predicate Splits(p: Row -> bool, pl: Row -> bool, pr: Row -> bool, pj: Row -> bool, wl: nat, wr: nat) {
    forall l: Row, r: Row {:trigger l + r} :: |l| == wl && |r| == wr ==> (p(l + r) <==> pl(l) && pr(r) && pj(l + r))
  }

  /** The side an outer join preserves rows for must not be filtered below the join. */
  ghost predicate Pushable(kind: JoinKind, pl: Row -> bool, pr: Row -> bool) {
    && (KeepsLeft(kind) ==> forall r: Row :: pr(r))
    && (KeepsRight(kind) ==> forall l: Row :: pl(l))
  }

  lemma {:induction false} KeepMatches(l: Row, rs: Rows, acc: (Row, Row) -> bool, p: Row -> bool, pl: Row -> bool,
                                       pr: Row -> bool, pj: Row -> bool, wl: nat, wr: nat)
    requires Splits(p, pl, pr, pj, wl, wr) && |l| == wl && Wide(rs, wr)
    ensures Keep(p, Matches(l, rs, acc)) == if pl(l) then Keep(pj, Matches(l, Keep(pr, rs), acc)) else []
  {
    if rs != [] {
      var r, rest := rs[0], rs[1..];
      KeepMatches(l, rest, acc, p, pl, pr, pj, wl, wr);
      KeepCons(p, l + r, Matches(l, rest, acc));
      var kept := Keep(pr, rest);
      KeepCons(pj, l + r, Matches(l, kept, acc));
      assert ([r] + kept)[1..] == kept;
    }
  }

  lemma KeepLeftRow(kind: JoinKind, l: Row, rs: Rows, acc: (Row, Row) -> bool, p: Row -> bool, pl: Row -> bool,
                    pr: Row -> bool, pj: Row -> bool, wl: nat, wr: nat)
    requires Splits(p, pl, pr, pj, wl, wr) && Pushable(kind, pl, pr) && |l| == wl && Wide(rs, wr)
    ensures Keep(p, LeftRow(kind, l, rs, wr, acc)) == if pl(l) then Keep(pj, LeftRow(kind, l, Keep(pr, rs), wr, acc))
      else []
  {
    KeepMatches(l, rs, acc, p, pl, pr, pj, wl, wr);
    if KeepsLeft(kind) {
      KeepAll(pr, rs);
      KeepCons(p, l + Nulls(wr), []);
      KeepCons(pj, l + Nulls(wr), []);
      assert p(l + Nulls(wr)) <==> pl(l) && pr(Nulls(wr)) && pj(l + Nulls(wr));
    }
  }

  lemma {:induction false} KeepLeftPart(kind: JoinKind, ls: Rows, rs: Rows, acc: (Row, Row) -> bool, p: Row -> bool,
                                        pl: Row -> bool, pr: Row -> bool, pj: Row -> bool, wl: nat, wr: nat)
    requires Splits(p, pl, pr, pj, wl, wr) && Pushable(kind, pl, pr) && Wide(ls, wl) && Wide(rs, wr)
    ensures Keep(p, LeftPart(kind, ls, rs, wr, acc)) == Keep(pj, LeftPart(kind, Keep(pl, ls), Keep(pr, rs), wr, acc))
  {
    if ls != [] {
      var l, rest := ls[0], ls[1..];
      KeepLeftRow(kind, l, rs, acc, p, pl, pr, pj, wl, wr);
      KeepLeftPart(kind, rest, rs, acc, p, pl, pr, pj, wl, wr);
      KeepConcat(p, LeftRow(kind, l, rs, wr, acc), LeftPart(kind, rest, rs, wr, acc));
      if pl(l) {
        var kept, rs' := Keep(pl, rest), Keep(pr, rs);
        assert ([l] + kept)[1..] == kept;
        KeepConcat(pj, LeftRow(kind, l, rs', wr, acc), LeftPart(kind, kept, rs', wr, acc));
      }
    }
  }

  lemma {:induction false} KeepRightPart(ls: Rows, rs: Rows, acc: (Row, Row) -> bool, p: Row -> bool, pl: Row -> bool,
                                         pr: Row -> bool, pj: Row -> bool, wl: nat, wr: nat)
    requires Splits(p, pl, pr, pj, wl, wr) && (forall l: Row :: pl(l)) && Wide(rs, wr)
    ensures Keep(p, RightPart(ls, rs, wl, acc)) == Keep(pj, RightPart(ls, Keep(pr, rs), wl, acc))
  {
    if rs != [] {
      var r, rest := rs[0], rs[1..];
      KeepRightPart(ls, rest, acc, p, pl, pr, pj, wl, wr);
      KeepCons(p, Nulls(wl) + r, RightPart(ls, rest, wl, acc));
      assert p(Nulls(wl) + r) <==> pl(Nulls(wl)) && pr(r) && pj(Nulls(wl) + r);
      var kept := Keep(pr, rest);
      KeepCons(pj, Nulls(wl) + r, RightPart(ls, kept, wl, acc));
      assert ([r] + kept)[1..] == kept;
    }
  }

  /** A filter above a join: its left and right parts may act below, the joint part stays above. */
  lemma {:induction false} KeepJoin(kind: JoinKind, ls: Rows, rs: Rows, acc: (Row, Row) -> bool, p: Row -> bool,
                                    pl: Row -> bool, pr: Row -> bool, pj: Row -> bool, wl: nat, wr: nat)
    requires Splits(p, pl, pr, pj, wl, wr) && Pushable(kind, pl, pr) && Wide(ls, wl) && Wide(rs, wr)
    ensures Keep(p, JoinBy(kind, ls, rs, wl, wr, acc)) ==
      Keep(pj, JoinBy(kind, Keep(pl, ls), Keep(pr, rs), wl, wr, acc))
  {
    var ls', rs' := Keep(pl, ls), Keep(pr, rs);
    KeepLeftPart(kind, ls, rs, acc, p, pl, pr, pj, wl, wr);
    if KeepsRight(kind) {
      KeepRightPart(ls, rs, acc, p, pl, pr, pj, wl, wr);
      KeepAll(pl, ls);
    }
    KeepConcat(p, LeftPart(kind, ls, rs, wr, acc), if KeepsRight(kind) then RightPart(ls, rs, wl, acc) else []);
    KeepConcat(pj, LeftPart(kind, ls', rs', wr, acc), if KeepsRight(kind) then RightPart(ls', rs', wl, acc) else []);
  }

  // ---------------------------------------------------------------- what a join yields

  /** A left and a right row number; the number behind the last row stands for no partner. */
  type Pair = (nat, nat)

  predicate Before(p: Pair, q: Pair) {
    p.0 < q.0 || (p.0 == q.0 && p.1 < q.1)
  }

  /** The pairs a join is for: accepted ones, and rows of a preserved side that no partner is accepted with. */
  ghost predicate Joined(kind: JoinKind, ls: Rows, rs: Rows, acc: (Row, Row) -> bool, p: Pair) {
    if p.0 < |ls| && p.1 < |rs| then acc(ls[p.0], rs[p.1])
    else if p.0 < |ls| && p.1 == |rs| then
      kind in {LeftOuter, FullOuter} && forall j :: 0 <= j < |rs| ==> !acc(ls[p.0], rs[j])
    else if p.0 == |ls| && p.1 < |rs| then
      kind in {RightOuter, FullOuter} && forall i :: 0 <= i < |ls| ==> !acc(ls[i], rs[p.1])
    else false
  }

  /** The row for a pair: the two rows side by side, NULLs for a partner that is not there. */
  function RowOf(ls: Rows, rs: Rows, wl: nat, wr: nat): Pair -> Row {
    (p: Pair) => (if p.0 < |ls| then ls[p.0] else Nulls(wl)) + (if p.1 < |rs| then rs[p.1] else Nulls(wr))
  }

  /** The rows are those of the wanted pairs, each pair once, in ascending order. */
  ghost predicate Lists(ps: seq<Pair>, rows: Rows, wanted: iset<Pair>, row: Pair -> Row) {
    && |rows| == |ps| && (forall a, b :: 0 <= a < b < |ps| ==> Before(ps[a], ps[b]))
    && (forall p: Pair :: p in ps <==> p in wanted)
    && forall k :: 0 <= k < |ps| ==> rows[k] == row(ps[k])
  }

  lemma ListsConcat(ps: seq<Pair>, qs: seq<Pair>, a: Rows, b: Rows, wanted: iset<Pair>, others: iset<Pair>,
                    row: Pair -> Row)
    requires Lists(ps, a, wanted, row) && Lists(qs, b, others, row)
    requires forall p: Pair, q: Pair :: p in wanted && q in others ==> Before(p, q)
    ensures Lists(ps + qs, a + b, wanted + others, row)
  {
    var both := ps + qs;
    forall i, j | 0 <= i < j < |both|
      ensures Before(both[i], both[j])
    {
      if i < |ps| <= j { assert ps[i] in wanted && qs[j - |ps|] in others; }
    }
  }

  ghost function RowPairs(ls: Rows, rs: Rows, acc: (Row, Row) -> bool, i: nat, from: nat): iset<Pair>
    requires i < |ls|
  {
    iset p: Pair | p.0 == i && from <= p.1 < |rs| && acc(ls[i], rs[p.1])
  }

  lemma {:induction false} MatchesListed(ls: Rows, rs: Rows, wl: nat, wr: nat, acc: (Row, Row) -> bool, i: nat,
                                         from: nat)
    returns (ps: seq<Pair>)
    requires i < |ls| && from <= |rs|
    ensures Lists(ps, Matches(ls[i], rs[from..], acc), RowPairs(ls, rs, acc, i, from), RowOf(ls, rs, wl, wr))
    decreases |rs| - from
  {
    ps := [];
    if from < |rs| {
      ps := MatchesListed(ls, rs, wl, wr, acc, i, from + 1);
      assert rs[from..][0] == rs[from] && rs[from..][1..] == rs[from + 1..];
      var rest := RowPairs(ls, rs, acc, i, from + 1);
      if acc(ls[i], rs[from]) {
        var p: Pair := (i, from);
        ListsConcat([p], ps, [ls[i] + rs[from]], Matches(ls[i], rs[from + 1..], acc), iset{p}, rest,
          RowOf(ls, rs, wl, wr));
        ps := [p] + ps;
        assert RowPairs(ls, rs, acc, i, from) == iset{p} + rest;
      } else {
        assert RowPairs(ls, rs, acc, i, from) == rest;
      }
    }
  }

  ghost function PairsFrom(kind: JoinKind, ls: Rows, rs: Rows, acc: (Row, Row) -> bool, i: nat, to: nat): iset<Pair> {
    iset p: Pair | i <= p.0 < to && Joined(kind, ls, rs, acc, p)
  }

  lemma LeftRowListed(kind: JoinKind, ls: Rows, rs: Rows, wl: nat, wr: nat, acc: (Row, Row) -> bool, i: nat)
    returns (ps: seq<Pair>)
    requires i < |ls|
    ensures Lists(ps, LeftRow(kind, ls[i], rs, wr, acc), PairsFrom(kind, ls, rs, acc, i, i + 1),
                  RowOf(ls, rs, wl, wr))
  {
    ps := MatchesListed(ls, rs, wl, wr, acc, i, 0);
    assert rs[0..] == rs;
    if ps == [] {
      forall j | 0 <= j < |rs|
        ensures !acc(ls[i], rs[j])
      {
        assert (i, j) !in RowPairs(ls, rs, acc, i, 0);
      }
      if KeepsLeft(kind) { ps := [(i, |rs|)]; }
    } else {
      assert ps[0] in RowPairs(ls, rs, acc, i, 0);
    }
  }

  lemma {:induction false} LeftPartListed(kind: JoinKind, ls: Rows, rs: Rows, wl: nat, wr: nat,
                                          acc: (Row, Row) -> bool, i: nat)
    returns (ps: seq<Pair>)
    requires i <= |ls|
    ensures Lists(ps, LeftPart(kind, ls[i..], rs, wr, acc), PairsFrom(kind, ls, rs, acc, i, |ls|),
                  RowOf(ls, rs, wl, wr))
    decreases |ls| - i
  {
    hide Joined, RowOf;
    ps := [];
    if i < |ls| {
      var front := LeftRowListed(kind, ls, rs, wl, wr, acc, i);
      var rest := LeftPartListed(kind, ls, rs, wl, wr, acc, i + 1);
      assert ls[i..][0] == ls[i] && ls[i..][1..] == ls[i + 1..];
      var wanted, others := PairsFrom(kind, ls, rs, acc, i, i + 1), PairsFrom(kind, ls, rs, acc, i + 1, |ls|);
      ListsConcat(front, rest, LeftRow(kind, ls[i], rs, wr, acc), LeftPart(kind, ls[i + 1..], rs, wr, acc), wanted,
        others, RowOf(ls, rs, wl, wr));
      assert PairsFrom(kind, ls, rs, acc, i, |ls|) == wanted + others;
      ps := front + rest;
    }
  }

  ghost function Unmatched(ls: Rows, rs: Rows, acc: (Row, Row) -> bool, from: nat): iset<Pair> {
    iset p: Pair | p.0 == |ls| && from <= p.1 < |rs| && forall i :: 0 <= i < |ls| ==> !acc(ls[i], rs[p.1])
  }

  lemma {:induction false} RightPartListed(ls: Rows, rs: Rows, wl: nat, wr: nat, acc: (Row, Row) -> bool, from: nat)
    returns (ps: seq<Pair>)
    requires from <= |rs|
    ensures Lists(ps, RightPart(ls, rs[from..], wl, acc), Unmatched(ls, rs, acc, from), RowOf(ls, rs, wl, wr))
    decreases |rs| - from
  {
    ps := [];
    if from < |rs| {
      ps := RightPartListed(ls, rs, wl, wr, acc, from + 1);
      assert rs[from..][0] == rs[from] && rs[from..][1..] == rs[from + 1..];
      var rest := Unmatched(ls, rs, acc, from + 1);
      if forall i :: 0 <= i < |ls| ==> !acc(ls[i], rs[from]) {
        var p: Pair := (|ls|, from);
        ListsConcat([p], ps, [Nulls(wl) + rs[from]], RightPart(ls, rs[from + 1..], wl, acc), iset{p}, rest,
          RowOf(ls, rs, wl, wr));
        ps := [p] + ps;
        assert Unmatched(ls, rs, acc, from) == iset{p} + rest;
      } else {
        assert Unmatched(ls, rs, acc, from) == rest;
      }
    }
  }

  ghost function AllPairs(kind: JoinKind, ls: Rows, rs: Rows, acc: (Row, Row) -> bool): iset<Pair> {
    iset p: Pair | Joined(kind, ls, rs, acc, p)
  }

  /** A join yields the joined pairs, each once, by left row and then by right row, the unmatched right rows last. */
  lemma JoinRows(kind: JoinKind, ls: Rows, rs: Rows, wl: nat, wr: nat, acc: (Row, Row) -> bool)
    ensures exists ps ::
      Lists(ps, JoinBy(kind, ls, rs, wl, wr, acc), AllPairs(kind, ls, rs, acc), RowOf(ls, rs, wl, wr))
  {
    var front := LeftPartListed(kind, ls, rs, wl, wr, acc, 0);
    assert ls[0..] == ls && rs[0..] == rs;
    var wanted := PairsFrom(kind, ls, rs, acc, 0, |ls|);
    var all := AllPairs(kind, ls, rs, acc);
    if KeepsRight(kind) {
      var rest := RightPartListed(ls, rs, wl, wr, acc, 0);
      var others := Unmatched(ls, rs, acc, 0);
      ListsConcat(front, rest, LeftPart(kind, ls, rs, wr, acc), RightPart(ls, rs, wl, acc), wanted, others,
        RowOf(ls, rs, wl, wr));
      assert all == wanted + others;
      assert Lists(front + rest, JoinBy(kind, ls, rs, wl, wr, acc), all, RowOf(ls, rs, wl, wr));
    } else {
      assert all == wanted;
      assert Lists(front, JoinBy(kind, ls, rs, wl, wr, acc), all, RowOf(ls, rs, wl, wr));
    }
  }

  // ---------------------------------------------------------------- distinct

  function Distinct(rows: Rows): Rows
    decreases |rows|
  {
    if rows == [] then []
    else
      KeepShrinks(row => row != rows[0], rows[1..]);
      [rows[0]] + Distinct(Keep(row => row != rows[0], rows[1..]))
  }

  lemma {:induction false} KeepShrinks(p: Row -> bool, rows: Rows)
    ensures |Keep(p, rows)| <= |rows|
  {
    if rows != [] { KeepShrinks(p, rows[1..]); }
  }

  /** A filter passes through DISTINCT. */
  lemma {:induction false} KeepDistinct(p: Row -> bool, rows: Rows)
    ensures Keep(p, Distinct(rows)) == Distinct(Keep(p, rows))
    decreases |rows|
  {
    if rows != [] {
      var first, rest := rows[0], rows[1..];
      var other := row => row != first;
      KeepShrinks(other, rest);
      KeepDistinct(p, Keep(other, rest));
      KeepCons(p, first, Distinct(Keep(other, rest)));
      var both := row => p(row) && row != first;
      KeepBoth(p, other, both, rest);
      KeepBoth(other, p, both, rest);
      if p(first) {
        assert ([first] + Keep(p, rest))[1..] == Keep(p, rest);
        assert Distinct([first] + Keep(p, rest)) == [first] + Distinct(Keep(other, Keep(p, rest)));
      } else {
        KeepSame(both, p, rest);
      }
    }
  }

  /** DISTINCT keeps each row once, and every row that came in. */
  lemma {:induction false} DistinctOk(rows: Rows)
    ensures forall x :: x in Distinct(rows) <==> x in rows
    ensures forall i, j :: 0 <= i < j < |Distinct(rows)| ==> Distinct(rows)[i] != Distinct(rows)[j]
    decreases |rows|
  {
    if rows != [] {
      var first := rows[0];
      var other := row => row != first;
      KeepShrinks(other, rows[1..]);
      var kept := Keep(other, rows[1..]);
      DistinctOk(kept);
      forall x
        ensures x in Distinct(rows) <==> x in rows
      {
        KeepMembers(other, rows[1..], x);
        assert x in rows <==> x == first || x in rows[1..];
        assert x in Distinct(rows) <==> x == first || x in Distinct(kept);
      }
      KeepMembers(other, rows[1..], first);
      assert first !in Distinct(kept);
    }
  }

  /** A row that comes in again leaves DISTINCT as it was; a new one goes last: first occurrences, in order. */
  lemma {:induction false} DistinctSnoc(rows: Rows, x: Row)
    ensures Distinct(rows + [x]) == if x in rows then Distinct(rows) else Distinct(rows) + [x]
    decreases |rows|
  {
    if rows == [] {
      assert [] + [x] == [x] && [x][1..] == [];
      KeepShrinks(row => row != x, []);
      assert Distinct([x]) == [x] + Distinct(Keep(row => row != x, []));
    } else {
      var first, rest := rows[0], rows[1..];
      var other := row => row != first;
      assert (rows + [x])[0] == first && (rows + [x])[1..] == rest + [x];
      KeepSnoc(other, rest, x);
      KeepMembers(other, rest, x);
      KeepShrinks(other, rest);
      KeepShrinks(other, rest + [x]);
      assert Distinct(rows + [x]) == [first] + Distinct(Keep(other, rest + [x]));
      assert Distinct(rows) == [first] + Distinct(Keep(other, rest));
      DistinctSnoc(Keep(other, rest), x);
    }
  }

  lemma {:induction false} KeepMembers(p: Row -> bool, rows: Rows, x: Row)
    ensures x in Keep(p, rows) <==> x in rows && p(x)
  {
    if rows != [] {
      KeepMembers(p, rows[1..], x);
      KeepCons(p, rows[0], rows[1..]);
      assert rows == [rows[0]] + rows[1..];
    }
  }

  lemma {:induction false} DistinctWide(rows: Rows, width: nat)
    requires Wide(rows, width)
    ensures Wide(Distinct(rows), width)
    decreases |rows|
  {
    if rows != [] {
      var other := row => row != rows[0];
      KeepShrinks(other, rows[1..]);
      KeepWide(other, rows[1..], width);
      DistinctWide(Keep(other, rows[1..]), width);
    }
  }

  // ---------------------------------------------------------------- sorting

  type Order = (Row, Row) -> bool

  /** A total preorder: what any list of sort keys induces. */
  ghost predicate Preorder(leq: Order) {
    && (forall a: Row, b: Row :: leq(a, b) || leq(b, a))
    && (forall a: Row, b: Row, c: Row {:trigger leq(a, b), leq(b, c)} :: leq(a, b) && leq(b, c) ==> leq(a, c))
  }

  /** Place `x` behind every row not above it. */
  function Place(leq: Order, x: Row, rows: Rows): Rows {
    if rows == [] then [x]
    else if leq(rows[0], x) then [rows[0]] + Place(leq, x, rows[1..])
    else [x] + rows
  }

  /** Stable sort. */
  function SortRows(leq: Order, rows: Rows): Rows {
    if rows == [] then [] else Place(leq, rows[|rows| - 1], SortRows(leq, rows[..|rows| - 1]))
  }

  ghost predicate Ascending(leq: Order, rows: Rows) {
    forall i, j :: 0 <= i < j < |rows| ==> leq(rows[i], rows[j])
  }

  lemma {:induction false} PlaceSame(leq: Order, x: Row, rows: Rows)
    ensures multiset(Place(leq, x, rows)) == multiset(rows) + multiset{x}
  {
    if rows != [] {
      assert rows == [rows[0]] + rows[1..];
      if leq(rows[0], x) { PlaceSame(leq, x, rows[1..]); }
    }
  }

  lemma {:induction false} PlaceAscending(leq: Order, x: Row, rows: Rows)
    requires Preorder(leq) && Ascending(leq, rows)
    ensures Ascending(leq, Place(leq, x, rows)) && multiset(Place(leq, x, rows)) == multiset(rows) + multiset{x}
  {
    PlaceSame(leq, x, rows);
    if rows != [] && leq(rows[0], x) {
      PlaceAscending(leq, x, rows[1..]);
      var placed := Place(leq, x, rows[1..]);
      forall j | 0 <= j < |placed|
        ensures leq(rows[0], placed[j])
      {
        PlacedFrom(leq, x, rows[1..], placed[j]);
      }
    }
  }

  lemma PlacedFrom(leq: Order, x: Row, rows: Rows, y: Row)
    requires y in Place(leq, x, rows)
    ensures y == x || y in rows
  {
    PlaceSame(leq, x, rows);
    assert y in multiset(Place(leq, x, rows));
  }

  /** Sorting yields the same rows in ascending order. */
  lemma {:induction false} SortAscending(leq: Order, rows: Rows)
    requires Preorder(leq)
    ensures Ascending(leq, SortRows(leq, rows)) && multiset(SortRows(leq, rows)) == multiset(rows)
  {
    if rows != [] {
      var front := rows[..|rows| - 1];
      assert rows == front + [rows[|rows| - 1]];
      SortAscending(leq, front);
      PlaceAscending(leq, rows[|rows| - 1], SortRows(leq, front));
    }
  }

  lemma {:induction false} KeepPlace(leq: Order, p: Row -> bool, x: Row, rows: Rows)
    requires Preorder(leq) && Ascending(leq, rows)
    ensures Keep(p, Place(leq, x, rows)) == if p(x) then Place(leq, x, Keep(p, rows)) else Keep(p, rows)
  {
    if rows != [] {
      if leq(rows[0], x) {
        KeepPlace(leq, p, x, rows[1..]);
        KeepCons(p, rows[0], Place(leq, x, rows[1..]));
        assert ([rows[0]] + Keep(p, rows[1..]))[1..] == Keep(p, rows[1..]);
      } else {
        KeepCons(p, x, rows);
        KeptAbove(leq, p, x, rows);
      }
    }
  }

  lemma {:induction false} KeptAbove(leq: Order, p: Row -> bool, x: Row, rows: Rows)
    requires Preorder(leq) && forall i :: 0 <= i < |rows| ==> !leq(rows[i], x)
    ensures Place(leq, x, Keep(p, rows)) == [x] + Keep(p, rows)
  {
    if rows != [] { KeptAbove(leq, p, x, rows[1..]); }
  }

  lemma SortSnoc(leq: Order, rows: Rows, x: Row)
    ensures SortRows(leq, rows + [x]) == Place(leq, x, SortRows(leq, rows))
  {
    assert (rows + [x])[..|rows|] == rows;
  }

  lemma KeepSnoc(p: Row -> bool, rows: Rows, x: Row)
    ensures Keep(p, rows + [x]) == if p(x) then Keep(p, rows) + [x] else Keep(p, rows)
  {
    KeepConcat(p, rows, [x]);
    KeepCons(p, x, []);
  }

  /** A filter passes through a stable sort. */
  lemma {:induction false} KeepSort(leq: Order, p: Row -> bool, rows: Rows)
    requires Preorder(leq)
    ensures Keep(p, SortRows(leq, rows)) == SortRows(leq, Keep(p, rows))
  {
    if rows != [] {
      var front, x := rows[..|rows| - 1], rows[|rows| - 1];
      assert rows == front + [x];
      KeepSort(leq, p, front);
      SortAscending(leq, front);
      KeepPlace(leq, p, x, SortRows(leq, front));
      KeepSnoc(p, front, x);
      SortSnoc(leq, Keep(p, front), x);
    }
  }

  function Ties(leq: Order, x: Row): Row -> bool {
    row => leq(row, x) && leq(x, row)
  }

  lemma {:induction false} SortTied(leq: Order, rows: Rows)
    requires forall i, j :: 0 <= i < |rows| && 0 <= j < |rows| ==> leq(rows[i], rows[j])
    ensures SortRows(leq, rows) == rows
  {
    if rows != [] {
      SortTied(leq, rows[..|rows| - 1]);
      PlaceLast(leq, rows[|rows| - 1], rows[..|rows| - 1]);
    }
  }

  lemma {:induction false} PlaceLast(leq: Order, x: Row, rows: Rows)
    requires forall i :: 0 <= i < |rows| ==> leq(rows[i], x)
    ensures Place(leq, x, rows) == rows + [x]
  {
    if rows != [] { PlaceLast(leq, x, rows[1..]); }
  }

  lemma {:induction false} KeptTies(leq: Order, x: Row, rows: Rows)
    ensures forall i :: 0 <= i < |Keep(Ties(leq, x), rows)| ==> Ties(leq, x)(Keep(Ties(leq, x), rows)[i])
  {
    if rows != [] { KeptTies(leq, x, rows[1..]); }
  }

  /** Rows that tie keep the order they came in. */
  lemma SortStable(leq: Order, x: Row, rows: Rows)
    requires Preorder(leq)
    ensures Keep(Ties(leq, x), SortRows(leq, rows)) == Keep(Ties(leq, x), rows)
  {
    var tied := Keep(Ties(leq, x), rows);
    KeepSort(leq, Ties(leq, x), rows);
    KeptTies(leq, x, rows);
    forall i, j | 0 <= i < |tied| && 0 <= j < |tied|
      ensures leq(tied[i], tied[j])
    {
      assert leq(tied[i], x) && leq(x, tied[j]);
    }
    SortTied(leq, tied);
  }

  lemma {:induction false} SortWide(leq: Order, rows: Rows, width: nat)
    requires Preorder(leq) && Wide(rows, width)
    ensures Wide(SortRows(leq, rows), width)
  {
    SortAscending(leq, rows);
    var sorted := SortRows(leq, rows);
    forall i | 0 <= i < |sorted|
      ensures |sorted[i]| == width
    {
      assert sorted[i] in multiset(rows);
    }
  }

  // ---------------------------------------------------------------- limits

  function Take(k: nat, rows: Rows): Rows {
    if |rows| <= k then rows else rows[..k]
  }

  function Drop(k: nat, rows: Rows): Rows {
    if |rows| <= k then [] else rows[k..]
  }

  function LimitRows(limit: Option<nat>, offset: nat, rows: Rows): Rows {
    if limit.None? then Drop(offset, rows) else Take(limit.value, Drop(offset, rows))
  }

  /** LIMIT and OFFSET cut out one stretch of the rows: row `i` of the result is row `offset + i` of the input, and the
      result ends with the input or after `limit` rows. */
  lemma LimitIsSlice(limit: Option<nat>, offset: nat, rows: Rows)
    ensures var r, rest := LimitRows(limit, offset, rows), if |rows| <= offset then 0 else |rows| - offset;
      && |r| == (if limit.Some? && limit.value < rest then limit.value else rest)
      && forall i :: 0 <= i < |r| ==> r[i] == rows[offset + i]
  {
  }

  /** The `k` least rows so far, kept sorted while streaming over the input. */
  function TopK(leq: Order, k: nat, rows: Rows): Rows {
    if rows == [] then [] else Take(k, Place(leq, rows[|rows| - 1], TopK(leq, k, rows[..|rows| - 1])))
  }

  lemma TakeCons(k: nat, x: Row, rows: Rows)
    requires k > 0
    ensures Take(k, [x] + rows) == [x] + Take(k - 1, rows)
  {
  }

  lemma TakeTake(j: nat, k: nat, rows: Rows)
    requires j <= k
    ensures Take(j, Take(k, rows)) == Take(j, rows)
  {
  }

  lemma {:induction false} TakePlace(leq: Order, k: nat, x: Row, rows: Rows)
    ensures Take(k, Place(leq, x, Take(k, rows))) == Take(k, Place(leq, x, rows))
  {
    if rows != [] && k > 0 {
      hide Take;
      var first, rest := rows[0], rows[1..];
      assert rows == [first] + rest;
      TakeCons(k, first, rest);
      var kept := Take(k - 1, rest);
      assert Take(k, rows) == [first] + kept && ([first] + kept)[1..] == kept;
      if leq(first, x) {
        TakePlace(leq, k - 1, x, rest);
        TakeCons(k, first, Place(leq, x, kept));
        TakeCons(k, first, Place(leq, x, rest));
      } else {
        TakeCons(k, x, Take(k, rows));
        TakeCons(k, x, rows);
        TakeTake(k - 1, k, rows);
      }
    }
  }

  /** Streaming the best `k` rows gives the first `k` of the full sort. */
  lemma {:induction false} TopKIsTake(leq: Order, k: nat, rows: Rows)
    ensures TopK(leq, k, rows) == Take(k, SortRows(leq, rows))
  {
    if rows != [] {
      TopKIsTake(leq, k, rows[..|rows| - 1]);
      TakePlace(leq, k, rows[|rows| - 1], SortRows(leq, rows[..|rows| - 1]));
    }
  }

  lemma LimitOfTop(limit: nat, offset: nat, rows: Rows)
    ensures LimitRows(Some(limit), offset, rows) == Drop(offset, Take(offset + limit, rows))
  {
  }
}
