/** The iteration counters of the morphism search: one counter per pattern
    node, each running over the candidate list of that node, advanced from
    the right like an odometer. The reference definition is the mixed-radix
    rank of a counter tuple (leftmost counter most significant). */
module Odometer {

  /** How many counter tuples there are. */
  function Product(sizes: seq<nat>): nat {
    if |sizes| == 0 then 1 else Product(sizes[..|sizes| - 1]) * sizes[|sizes| - 1]
  }

  predicate InBounds(c: seq<nat>, sizes: seq<nat>) {
    |c| == |sizes| && forall i :: 0 <= i < |c| ==> c[i] < sizes[i]
  }

  function Zeros(n: nat): (r: seq<nat>)
    ensures |r| == n
    ensures forall i :: 0 <= i < n ==> r[i] == 0
  {
    seq(n, _ => 0)
  }

  /** The position of a counter tuple in the odometer's order. */
  function Rank(c: seq<nat>, sizes: seq<nat>): nat
    requires InBounds(c, sizes)
  {
    if |c| == 0 then 0
    else
      var n := |c| - 1;
      Rank(c[..n], sizes[..n]) * sizes[n] + c[n]
  }

  /** `IncrementIterationCounters`: scanning from the right, the first
      counter below its last candidate is advanced and the scan stops with
      true; every counter passed over is reset to zero; when all were at
      their last candidate the result is false (and all counters are zero). */
  function Increment(c: seq<nat>, sizes: seq<nat>): (r: (bool, seq<nat>))
    requires |c| == |sizes|
    ensures |r.1| == |c|
  {
    if |c| == 0 then (false, [])
    else
      var n := |c| - 1;
      if c[n] + 1 < sizes[n] then (true, c[..n] + [c[n] + 1])
      else
        var (more, p) := Increment(c[..n], sizes[..n]);
        (more, p + [0])
  }

  lemma MulSucc(r: nat, s: nat)
    ensures (r + 1) * s == r * s + s
  {
  }

  /** Every in-bounds tuple has a rank below the number of tuples. */
  lemma {:induction false} RankBound(c: seq<nat>, sizes: seq<nat>)
    requires InBounds(c, sizes)
    ensures Rank(c, sizes) < Product(sizes)
  {
    if |c| > 0 {
      var n := |c| - 1;
      RankBound(c[..n], sizes[..n]);
      var r := Rank(c[..n], sizes[..n]);
      var p := Product(sizes[..n]);
      assert r * sizes[n] <= (p - 1) * sizes[n] by { MulMono(r, p - 1, sizes[n]); }
    }
  }

  lemma MulMono(a: nat, b: nat, s: nat)
    requires a <= b
    ensures a * s <= b * s
  {
  }

  /** Distinct in-bounds tuples have distinct ranks. */
  lemma {:induction false} RankInjective(a: seq<nat>, b: seq<nat>, sizes: seq<nat>)
    requires InBounds(a, sizes) && InBounds(b, sizes)
    requires Rank(a, sizes) == Rank(b, sizes)
    ensures a == b
  {
    if |a| > 0 {
      var n := |a| - 1;
      var s := sizes[n];
      var ra, rb := Rank(a[..n], sizes[..n]), Rank(b[..n], sizes[..n]);
      if ra < rb {
        MulMono(ra + 1, rb, s);
        MulSucc(ra, s);
        assert false;
      } else if rb < ra {
        MulMono(rb + 1, ra, s);
        MulSucc(rb, s);
        assert false;
      }
      RankInjective(a[..n], b[..n], sizes[..n]);
      assert a == a[..n] + [a[n]] && b == b[..n] + [b[n]];
    }
  }

  /** Advancing the counters moves one step along the odometer's order; it
      reports false exactly at the last tuple, having reset every counter. */
  lemma {:induction false} IncrementRank(c: seq<nat>, sizes: seq<nat>)
    requires InBounds(c, sizes)
    ensures var r := Increment(c, sizes);
      && (r.0 ==> InBounds(r.1, sizes) && Rank(r.1, sizes) == Rank(c, sizes) + 1)
      && (!r.0 ==> r.1 == Zeros(|c|) && Rank(c, sizes) + 1 == Product(sizes))
  {
    if |c| > 0 {
      var n := |c| - 1;
      var s := sizes[n];
      var r := Increment(c, sizes);
      if c[n] + 1 < s {
        assert r.1[..n] == c[..n];
      } else {
        IncrementRank(c[..n], sizes[..n]);
        CarryRank(c, sizes);
      }
    }
  }

  /** The carry case of `IncrementRank`: the last counter is at its last
      candidate, so it is reset and the step is the prefix's step. */
  lemma CarryRank(c: seq<nat>, sizes: seq<nat>)
    requires InBounds(c, sizes) && |c| > 0 && c[|c| - 1] + 1 >= sizes[|c| - 1]
    requires var n := |c| - 1;
      var q := Increment(c[..n], sizes[..n]);
      && (q.0 ==> InBounds(q.1, sizes[..n]) && Rank(q.1, sizes[..n]) == Rank(c[..n], sizes[..n]) + 1)
      && (!q.0 ==> q.1 == Zeros(n) && Rank(c[..n], sizes[..n]) + 1 == Product(sizes[..n]))
    ensures var r := Increment(c, sizes);
      && (r.0 ==> InBounds(r.1, sizes) && Rank(r.1, sizes) == Rank(c, sizes) + 1)
      && (!r.0 ==> r.1 == Zeros(|c|) && Rank(c, sizes) + 1 == Product(sizes))
  {
    var n := |c| - 1;
    var s := sizes[n];
    var r := Increment(c, sizes);
    var (more, p) := Increment(c[..n], sizes[..n]);
    assert r.1 == p + [0] && r.1[..n] == p;
    var rp := Rank(c[..n], sizes[..n]);
    assert c[n] == s - 1;
    MulSucc(rp, s);
    if more {
      assert Rank(r.1, sizes) == (rp + 1) * s;
    } else {
      assert Product(sizes) == (rp + 1) * s;
    }
  }

  /** The do/while of the search: the tuples visited from c on, c first, until
      the counters report false. */
  function Walk(c: seq<nat>, sizes: seq<nat>): (r: seq<seq<nat>>)
    requires InBounds(c, sizes)
    decreases Product(sizes) - Rank(c, sizes)
  {
    IncrementRank(c, sizes);
    RankBound(c, sizes);
    var (more, next) := Increment(c, sizes);
    [c] + (if more then Walk(next, sizes) else [])
  }

  /** The walk from c visits tuples of consecutive ranks, starting at
      Rank(c), up to the last tuple. */
  lemma {:induction false} WalkRanks(c: seq<nat>, sizes: seq<nat>)
    requires InBounds(c, sizes)
    ensures |Walk(c, sizes)| == Product(sizes) - Rank(c, sizes)
    ensures forall t :: 0 <= t < |Walk(c, sizes)| ==>
      InBounds(Walk(c, sizes)[t], sizes) && Rank(Walk(c, sizes)[t], sizes) == Rank(c, sizes) + t
    decreases Product(sizes) - Rank(c, sizes)
  {
    IncrementRank(c, sizes);
    RankBound(c, sizes);
    var (more, next) := Increment(c, sizes);
    var w := Walk(c, sizes);
    if more {
      WalkRanks(next, sizes);
      forall t | 0 <= t < |w|
        ensures InBounds(w[t], sizes) && Rank(w[t], sizes) == Rank(c, sizes) + t
      {
        if t > 0 {
          assert w[t] == Walk(next, sizes)[t - 1];
        }
      }
    }
  }

  /** The walk from c reaches every in-bounds tuple ranked at or after c. */
  lemma {:induction false} WalkReaches(c: seq<nat>, sizes: seq<nat>, d: seq<nat>)
    requires InBounds(c, sizes) && InBounds(d, sizes)
    requires Rank(c, sizes) <= Rank(d, sizes)
    ensures d in Walk(c, sizes)
    decreases Product(sizes) - Rank(c, sizes)
  {
    IncrementRank(c, sizes);
    RankBound(c, sizes);
    RankBound(d, sizes);
    var (more, next) := Increment(c, sizes);
    if Rank(c, sizes) == Rank(d, sizes) {
      RankInjective(c, d, sizes);
    } else {
      WalkReaches(next, sizes, d);
    }
  }

  /** Starting from all zeros, the walk visits every in-bounds tuple. */
  lemma WalkFromZerosComplete(sizes: seq<nat>, c: seq<nat>)
    requires forall i :: 0 <= i < |sizes| ==> sizes[i] > 0
    requires InBounds(c, sizes)
    ensures InBounds(Zeros(|sizes|), sizes)
    ensures c in Walk(Zeros(|sizes|), sizes)
  {
    RankZeros(sizes);
    WalkReaches(Zeros(|sizes|), sizes, c);
  }

  /** The walk never visits a tuple twice. */
  lemma WalkDistinct(c: seq<nat>, sizes: seq<nat>, s: nat, t: nat)
    requires InBounds(c, sizes)
    requires s < t < |Walk(c, sizes)|
    ensures Walk(c, sizes)[s] != Walk(c, sizes)[t]
  {
    WalkRanks(c, sizes);
  }

  lemma {:induction false} RankZeros(sizes: seq<nat>)
    requires forall i :: 0 <= i < |sizes| ==> sizes[i] > 0
    ensures InBounds(Zeros(|sizes|), sizes)
    ensures Rank(Zeros(|sizes|), sizes) == 0
  {
    if |sizes| > 0 {
      var n := |sizes| - 1;
      RankZeros(sizes[..n]);
      assert Zeros(|sizes|)[..n] == Zeros(n);
    }
  }
}
