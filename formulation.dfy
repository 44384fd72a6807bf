/**
 * The covering program that solveILP and solveLP_Rounding hand to their
 * backends, evaluated at an assignment instead of being solved: one variable
 * per set, one constraint per element, a weighted-sum objective.
 */
module Formulation {
  import opened Seqs

  /** Every 1-based set index of e names one of the n variables. */
  predicate IndicesIn(e: seq<int>, n: int)
  {
    forall k :: 0 <= k < |e| ==> 1 <= e[k] <= n
  }

  predicate WellIndexed(elements: seq<seq<int>>, n: int)
  {
    forall k :: 0 <= k < |elements| ==> IndicesIn(elements[k], n)
  }

  /** Left-hand side of an element's constraint: x[idx - 1] added once per occurrence of idx. */
  function CoverSum(x: seq<real>, e: seq<int>): (r: real)
    requires IndicesIn(e, |x|)
    ensures (forall i :: 0 <= i < |x| ==> 0.0 <= x[i] <= 1.0) ==> 0.0 <= r <= |e| as real
  {
    if e == [] then 0.0 else x[e[0] - 1] + CoverSum(x, e[1..])
  }

  /** The element's constraint `sum >= 1` holds at x. */
  predicate Covers(x: seq<real>, e: seq<int>)
    requires IndicesIn(e, |x|)
    ensures Covers(x, e) ==> e != []
  {
    CoverSum(x, e) >= 1.0
  }

  /** Every element lists at least one set. */
  predicate AllNonEmpty(elements: seq<seq<int>>)
  {
    forall k :: 0 <= k < |elements| ==> elements[k] != []
  }

  /** Every element's constraint holds at x. */
  predicate Feasible(x: seq<real>, elements: seq<seq<int>>)
    requires WellIndexed(elements, |x|)
    ensures Feasible(x, elements) ==> AllNonEmpty(elements)
  {
    forall k :: 0 <= k < |elements| ==> Covers(x, elements[k])
  }

  /** The objective: weights[i] * x[i] summed over all sets. */
  function Objective(w: seq<int>, x: seq<real>): (r: real)
    requires |x| == |w|
    ensures NonNegative(w) && (forall i :: 0 <= i < |x| ==> 0.0 <= x[i] <= 1.0) ==>
      0.0 <= r <= Sum(w) as real
  {
    if w == [] then 0.0
    else
      var k := |w| - 1;
      var r := Objective(w[..k], x[..k]) + (w[k] as real) * x[k];
      assert NonNegative(w) && (forall i :: 0 <= i < |x| ==> 0.0 <= x[i] <= 1.0) ==>
        0.0 <= r <= Sum(w) as real by {
        if NonNegative(w) && (forall i :: 0 <= i < |x| ==> 0.0 <= x[i] <= 1.0) {
          assert forall i :: 0 <= i < k ==> w[..k][i] == w[i] && x[..k][i] == x[i];
          ScaleBound(w[k] as real, x[k]);
          calc {
            r;
            <= Sum(w[..k]) as real + (w[k] as real) * x[k];
            <= Sum(w[..k]) as real + w[k] as real;
            == Sum(w) as real;
          }
        }
      }
      r
  }

  /** A non-negative amount scaled by a factor in [0, 1] stays within [0, amount]. */
  lemma ScaleBound(a: real, b: real)
    requires a >= 0.0 && 0.0 <= b <= 1.0
    ensures 0.0 <= a * b <= a
  {
  }

  predicate Binary(x: seq<real>)
  {
    forall i :: 0 <= i < |x| ==> x[i] == 0.0 || x[i] == 1.0
  }

  /** The sets assigned 1. */
  function Selected(x: seq<real>): seq<bool>
  {
    seq(|x|, i requires 0 <= i < |x| => x[i] == 1.0)
  }

  /**
   * The constraint of a concatenation is the sum of the two constraints, so an
   * index listed twice contributes its variable twice.
   */
  lemma {:induction false} CoverSumAppend(x: seq<real>, a: seq<int>, b: seq<int>)
    requires IndicesIn(a, |x|) && IndicesIn(b, |x|)
    ensures IndicesIn(a + b, |x|)
    ensures CoverSum(x, a + b) == CoverSum(x, a) + CoverSum(x, b)
  {
    if a != [] {
      assert (a + b)[0] == a[0];
      assert (a + b)[1..] == a[1..] + b;
      CoverSumAppend(x, a[1..], b);
    } else {
      assert a + b == b;
    }
  }

  /**
   * At a 0/1 assignment the constraint of e holds exactly when some set listed
   * in e is assigned 1.
   */
  lemma {:induction false} CoverSumBinary(x: seq<real>, e: seq<int>)
    requires Binary(x) && IndicesIn(e, |x|)
    ensures CoverSum(x, e) >= 0.0
    ensures Covers(x, e) <==> exists k :: 0 <= k < |e| && x[e[k] - 1] == 1.0
  {
    if e != [] {
      CoverSumBinary(x, e[1..]);
      if x[e[0] - 1] == 1.0 {
      } else if exists k :: 0 <= k < |e[1..]| && x[e[1..][k] - 1] == 1.0 {
        var k :| 0 <= k < |e[1..]| && x[e[1..][k] - 1] == 1.0;
        assert x[e[k + 1] - 1] == 1.0;
      } else {
        forall k | 0 <= k < |e| ensures x[e[k] - 1] != 1.0 {
          if k > 0 {
            assert e[k] == e[1..][k - 1];
          }
        }
      }
    }
  }

  /** At a 0/1 assignment the objective is the total weight of the sets assigned 1. */
  lemma {:induction false} ObjectiveBinary(w: seq<int>, x: seq<real>)
    requires |x| == |w| && Binary(x)
    ensures Objective(w, x) == SumWhere(w, Selected(x)) as real
  {
    if w != [] {
      var k := |w| - 1;
      assert Selected(x)[..k] == Selected(x[..k]);
      ObjectiveBinary(w[..k], x[..k]);
    }
  }
}
