/**
 * The relational operators the pipeline uses, on tables held as sequences
 * of rows: duplicate elimination and the inner equi-join. Row order is not
 * part of a dataframe's meaning; the sequences fix one order so that
 * multiplicities can be stated.
 */
module Relational {

  /** No two positions of the table hold equal rows. */
  predicate NoDup<T(==)>(s: seq<T>)
  {
    forall i, j | 0 <= i < j < |s| :: s[i] != s[j]
  }

  /** `distinct()`: one copy of every row, in order of first occurrence. */
  function Distinct<T(==,!new)>(s: seq<T>): (r: seq<T>)
    ensures NoDup(r)
    ensures forall x :: x in r <==> x in s
    ensures |r| <= |s|
  {
    if |s| == 0 then []
    else
      var rest := Distinct(s[..|s| - 1]);
      var last := s[|s| - 1];
      assert forall x :: x in s <==> x in s[..|s| - 1] || x == last;
      if last in rest then rest else rest + [last]
  }

  /** Pair (p, q) comes strictly before (p', q') in row-major order. */
  predicate LexLess(p: (nat, nat), q: (nat, nat))
  {
    p.0 < q.0 || (p.0 == q.0 && p.1 < q.1)
  }

  /** The positions j >= from of the right table that row `l` (at position i) joins with. */
  function RowMatches<L, R>(l: L, i: nat, right: seq<R>, on: (L, R) -> bool, from: nat): (ps: seq<(nat, nat)>)
    requires from <= |right|
    ensures forall k | 0 <= k < |ps| :: ps[k].0 == i && from <= ps[k].1 < |right| && on(l, right[ps[k].1])
    ensures forall j | from <= j < |right| && on(l, right[j]) :: (i, j) in ps
    ensures forall k, k' | 0 <= k < k' < |ps| :: ps[k].1 < ps[k'].1
    decreases |right| - from
  {
    if from == |right| then []
    else
      var rest := RowMatches(l, i, right, on, from + 1);
      if on(l, right[from]) then [(i, from)] + rest else rest
  }

  /** The matching position pairs whose left position is at least `from`, in row-major order. */
  function PairsFrom<L, R>(left: seq<L>, right: seq<R>, on: (L, R) -> bool, from: nat): seq<(nat, nat)>
    requires from <= |left|
    decreases |left| - from
  {
    if from == |left| then []
    else RowMatches(left[from], from, right, on, 0) + PairsFrom(left, right, on, from + 1)
  }

  /** Every pair PairsFrom lists matches, and its left position is at least `from`. */
  lemma {:induction false} PairsFromSound<L, R>(left: seq<L>, right: seq<R>, on: (L, R) -> bool, from: nat)
    requires from <= |left|
    ensures forall k | 0 <= k < |PairsFrom(left, right, on, from)| ::
      && from <= PairsFrom(left, right, on, from)[k].0 < |left|
      && PairsFrom(left, right, on, from)[k].1 < |right|
      && on(left[PairsFrom(left, right, on, from)[k].0], right[PairsFrom(left, right, on, from)[k].1])
    decreases |left| - from
  {
    if from < |left| {
      PairsFromSound(left, right, on, from + 1);
      var head := RowMatches(left[from], from, right, on, 0);
      var tail := PairsFrom(left, right, on, from + 1);
      assert PairsFrom(left, right, on, from) == head + tail;
    }
  }

  /** PairsFrom lists every matching pair whose left position is at least `from`. */
  lemma {:induction false} PairsFromComplete<L, R>(left: seq<L>, right: seq<R>, on: (L, R) -> bool, from: nat)
    requires from <= |left|
    ensures forall i, j | from <= i < |left| && 0 <= j < |right| && on(left[i], right[j]) ::
      (i, j) in PairsFrom(left, right, on, from)
    decreases |left| - from
  {
    if from < |left| {
      PairsFromComplete(left, right, on, from + 1);
      var head := RowMatches(left[from], from, right, on, 0);
      var tail := PairsFrom(left, right, on, from + 1);
      assert PairsFrom(left, right, on, from) == head + tail;
    }
  }

  /** PairsFrom lists its pairs in strictly increasing row-major order. */
  lemma {:induction false} PairsFromOrdered<L, R>(left: seq<L>, right: seq<R>, on: (L, R) -> bool, from: nat)
    requires from <= |left|
    ensures forall k, k' | 0 <= k < k' < |PairsFrom(left, right, on, from)| ::
      LexLess(PairsFrom(left, right, on, from)[k], PairsFrom(left, right, on, from)[k'])
    decreases |left| - from
  {
    if from < |left| {
      PairsFromOrdered(left, right, on, from + 1);
      PairsFromSound(left, right, on, from + 1);
      var head := RowMatches(left[from], from, right, on, 0);
      var tail := PairsFrom(left, right, on, from + 1);
      assert PairsFrom(left, right, on, from) == head + tail;
      assert forall k, k' | 0 <= k < |head| && 0 <= k' < |tail| :: head[k].0 < tail[k'].0;
    }
  }

  /**
   * Every pair of positions (i, j) whose rows satisfy the join condition,
   * each exactly once (the pairs are strictly increasing), in row-major order.
   */
  function Pairs<L, R>(left: seq<L>, right: seq<R>, on: (L, R) -> bool): (ps: seq<(nat, nat)>)
    ensures forall k | 0 <= k < |ps| ::
      ps[k].0 < |left| && ps[k].1 < |right| && on(left[ps[k].0], right[ps[k].1])
    ensures forall i, j | 0 <= i < |left| && 0 <= j < |right| && on(left[i], right[j]) :: (i, j) in ps
    ensures forall k, k' | 0 <= k < k' < |ps| :: LexLess(ps[k], ps[k'])
  {
    PairsFromSound(left, right, on, 0);
    PairsFromComplete(left, right, on, 0);
    PairsFromOrdered(left, right, on, 0);
    PairsFrom(left, right, on, 0)
  }

  /**
   * Inner join: one output row, built by `combine`, for every matching
   * pair of positions. A left row that matches nothing yields no row.
   */
  function Join<L, R, O>(left: seq<L>, right: seq<R>, on: (L, R) -> bool, combine: (L, R) -> O): (rows: seq<O>)
    ensures |rows| == |Pairs(left, right, on)|
  {
    var ps := Pairs(left, right, on);
    seq(|ps|, k requires 0 <= k < |ps| => combine(left[ps[k].0], right[ps[k].1]))
  }

  /** A row is in the join exactly when `combine` builds it from some matching pair of rows. */
  lemma JoinMembership<L, R, O(!new)>(left: seq<L>, right: seq<R>, on: (L, R) -> bool, combine: (L, R) -> O)
    ensures forall o :: o in Join(left, right, on, combine) <==>
      exists i, j :: 0 <= i < |left| && 0 <= j < |right| && on(left[i], right[j]) && o == combine(left[i], right[j])
  {
    var ps := Pairs(left, right, on);
    var rows := Join(left, right, on, combine);
    forall i, j | 0 <= i < |left| && 0 <= j < |right| && on(left[i], right[j])
      ensures combine(left[i], right[j]) in rows
    {
      var k :| 0 <= k < |ps| && ps[k] == (i, j);
      assert rows[k] == combine(left[i], right[j]);
    }
  }

  /** Row k of the join is built from the k-th matching pair. */
  lemma JoinRow<L, R, O>(left: seq<L>, right: seq<R>, on: (L, R) -> bool, combine: (L, R) -> O, k: nat)
    requires k < |Pairs(left, right, on)|
    ensures var p := Pairs(left, right, on)[k];
      Join(left, right, on, combine)[k] == combine(left[p.0], right[p.1])
  {
  }

  /** The number of rows of `right` that row `l` satisfies the join condition with. */
  function MatchCount<L, R>(l: L, right: seq<R>, on: (L, R) -> bool): nat
  {
    if |right| == 0 then 0
    else (if on(l, right[0]) then 1 else 0) + MatchCount(l, right[1..], on)
  }

  /** Two rows that agree on the join condition with every right row have equally many matches. */
  lemma {:induction false} MatchCountAgrees<L, R, L', R'>(l: L, right: seq<R>, on: (L, R) -> bool,
                                                           l': L', right': seq<R'>, on': (L', R') -> bool)
    requires |right| == |right'|
    requires forall j | 0 <= j < |right| :: on(l, right[j]) == on'(l', right'[j])
    ensures MatchCount(l, right, on) == MatchCount(l', right', on')
  {
    if |right| > 0 {
      MatchCountAgrees(l, right[1..], on, l', right'[1..], on');
    }
  }

  /** RowMatches lists one pair per matching right row from `from` on. */
  lemma {:induction false} RowMatchesCount<L, R>(l: L, i: nat, right: seq<R>, on: (L, R) -> bool, from: nat)
    requires from <= |right|
    ensures |RowMatches(l, i, right, on, from)| == MatchCount(l, right[from..], on)
    decreases |right| - from
  {
    if from < |right| {
      RowMatchesCount(l, i, right, on, from + 1);
      assert right[from..][1..] == right[from + 1..];
    }
  }

  /**
   * When every left row from `from` on matches exactly n right rows, the
   * pairs from `from` on number (|left| - from) * n.
   */
  lemma {:induction false} PairsFromCount<L, R>(left: seq<L>, right: seq<R>, on: (L, R) -> bool, from: nat, n: nat)
    requires from <= |left|
    requires forall i | from <= i < |left| :: MatchCount(left[i], right, on) == n
    ensures |PairsFrom(left, right, on, from)| == (|left| - from) * n
    decreases |left| - from
  {
    if from < |left| {
      PairsFromCount(left, right, on, from + 1, n);
      RowMatchesCount(left[from], from, right, on, 0);
      assert right[0..] == right;
      MulSucc(|left| - (from + 1), n);
    }
  }

  lemma MulSucc(a: nat, n: nat)
    ensures (a + 1) * n == a * n + n
  {
  }

  /** When every left row matches exactly n right rows, the join has |left| * n rows. */
  lemma JoinCount<L, R, O>(left: seq<L>, right: seq<R>, on: (L, R) -> bool, combine: (L, R) -> O, n: nat)
    requires forall i | 0 <= i < |left| :: MatchCount(left[i], right, on) == n
    ensures |Join(left, right, on, combine)| == |left| * n
  {
    PairsFromCount(left, right, on, 0, n);
  }

  /** Row `l` joins with exactly one row of `right`. */
  predicate MatchesOnce<L, R>(l: L, right: seq<R>, on: (L, R) -> bool)
  {
    && (exists j :: 0 <= j < |right| && on(l, right[j]))
    && (forall j, j' | 0 <= j < |right| && 0 <= j' < |right| && on(l, right[j]) && on(l, right[j']) :: j == j')
  }

  /**
   * When every left row matches exactly one right row, the join keeps the
   * row count and the k-th output row comes from the k-th left row.
   */
  lemma {:induction false} JoinOneToOne<L, R>(left: seq<L>, right: seq<R>, on: (L, R) -> bool)
    requires forall i | 0 <= i < |left| :: MatchesOnce(left[i], right, on)
    ensures |Pairs(left, right, on)| == |left|
    ensures forall k | 0 <= k < |left| :: Pairs(left, right, on)[k].0 == k
  {
    OneToOneFrom(left, right, on, 0);
  }

  lemma {:induction false} OneToOneFrom<L, R>(left: seq<L>, right: seq<R>, on: (L, R) -> bool, from: nat)
    requires from <= |left|
    requires forall i | 0 <= i < |left| :: MatchesOnce(left[i], right, on)
    ensures |PairsFrom(left, right, on, from)| == |left| - from
    ensures forall k | 0 <= k < |left| - from :: PairsFrom(left, right, on, from)[k].0 == from + k
    decreases |left| - from
  {
    if from < |left| {
      var head := RowMatches(left[from], from, right, on, 0);
      assert MatchesOnce(left[from], right, on);
      var j :| 0 <= j < |right| && on(left[from], right[j]);
      assert (from, j) in head;
      assert forall k | 0 <= k < |head| :: head[k].1 == j;
      assert head[0].1 == head[|head| - 1].1;
      assert |head| == 1;
      OneToOneFrom(left, right, on, from + 1);
    }
  }
}
