/** Sequence helpers shared by the parser and the two solvers. */
module Seqs {

  /** Concatenation of a list of token lists, in order. */
  function Flatten(ls: seq<seq<int>>): seq<int>
  {
    if ls == [] then [] else ls[0] + Flatten(ls[1..])
  }

  lemma {:induction false} FlattenAppend(a: seq<seq<int>>, b: seq<seq<int>>)
    ensures Flatten(a + b) == Flatten(a) + Flatten(b)
  {
    if a == [] {
      assert a + b == b;
    } else {
      assert (a + b)[0] == a[0];
      assert (a + b)[1..] == a[1..] + b;
      FlattenAppend(a[1..], b);
    }
  }

  /** Flattening the first i lines is the first line followed by the next i - 1. */
  lemma FlattenPrefix(body: seq<seq<int>>, i: nat)
    requires 1 <= i <= |body|
    ensures Flatten(body[..i]) == body[0] + Flatten(body[1..][..i - 1])
  {
    assert body[..i][0] == body[0];
    assert body[..i][1..] == body[1..][..i - 1];
  }

  predicate NonNegative(w: seq<int>)
  {
    forall i :: 0 <= i < |w| ==> w[i] >= 0
  }

  /** Total of all weights. */
  function Sum(w: seq<int>): int
  {
    if w == [] then 0 else Sum(w[..|w| - 1]) + w[|w| - 1]
  }

  /** Total of w[i] over the indices i for which chosen[i] holds. */
  function SumWhere(w: seq<int>, chosen: seq<bool>): int
    requires |chosen| == |w|
  {
    if w == [] then 0
    else SumWhere(w[..|w| - 1], chosen[..|w| - 1]) + (if chosen[|w| - 1] then w[|w| - 1] else 0)
  }

  /** With non-negative weights, choosing more sets never lowers the total. */
  lemma {:induction false} SumWhereMonotone(w: seq<int>, p: seq<bool>, q: seq<bool>)
    requires |p| == |w| && |q| == |w| && NonNegative(w)
    requires forall i :: 0 <= i < |w| && p[i] ==> q[i]
    ensures SumWhere(w, p) <= SumWhere(w, q)
  {
    if w != [] {
      var k := |w| - 1;
      SumWhereMonotone(w[..k], p[..k], q[..k]);
    }
  }

  /** Choosing every set gives the full total, choosing none gives zero. */
  lemma {:induction false} SumWhereExtremes(w: seq<int>, chosen: seq<bool>)
    requires |chosen| == |w|
    ensures (forall i :: 0 <= i < |w| ==> chosen[i]) ==> SumWhere(w, chosen) == Sum(w)
    ensures (forall i :: 0 <= i < |w| ==> !chosen[i]) ==> SumWhere(w, chosen) == 0
  {
    if w != [] {
      var k := |w| - 1;
      SumWhereExtremes(w[..k], chosen[..k]);
    }
  }

  /** With non-negative weights, any selection costs between zero and the full total. */
  lemma {:induction false} SumWhereBounds(w: seq<int>, chosen: seq<bool>)
    requires |chosen| == |w| && NonNegative(w)
    ensures 0 <= SumWhere(w, chosen) <= Sum(w)
  {
    var none := seq(|w|, i => false);
    var all := seq(|w|, i => true);
    SumWhereExtremes(w, none);
    SumWhereExtremes(w, all);
    SumWhereMonotone(w, none, chosen);
    SumWhereMonotone(w, chosen, all);
  }
}
