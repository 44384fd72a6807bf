/**
 * solveILP: the exact backend's status and its 0/1 variable values are inputs;
 * what the model computes is the answer loop run on a proven-optimal result.
 */
module ExactSolver {
  import opened Wrappers
  import opened Seqs
  import opened Formulation
  import opened Parser

  /** The values a boolean variable can take. */
  predicate ZeroOne(v: seq<int>)
  {
    forall j :: 0 <= j < |v| ==> v[j] == 0 || v[j] == 1
  }

  function AsReals(v: seq<int>): seq<real>
  {
    seq(|v|, j requires 0 <= j < |v| => v[j] as real)
  }

  /**
   * The answer loop: weights[j] times the value of variable j, summed over the
   * sets. The total is the weight of the sets assigned 1 and the objective's
   * value at the assignment.
   */
  method OptimalWeight(w: seq<int>, v: seq<int>) returns (answer: int)
    requires |v| == |w| && ZeroOne(v)
    ensures answer == SumWhere(w, Selected(AsReals(v)))
    ensures answer as real == Objective(w, AsReals(v))
  {
    ghost var chosen := Selected(AsReals(v));
    answer := 0;
    var j := 0;
    while j < |w|
      invariant 0 <= j <= |w|
      invariant answer == SumWhere(w[..j], chosen[..j])
    {
      assert w[..j + 1][..j] == w[..j] && chosen[..j + 1][..j] == chosen[..j];
      assert v[j] * w[j] == if chosen[j] then w[j] else 0;
      answer := answer + v[j] * w[j];
      j := j + 1;
    }
    assert w[..j] == w && chosen[..j] == chosen;
    ObjectiveBinary(w, AsReals(v));
  }

  /**
   * solveILP once the model is built: an answer exists only when the backend
   * reports OPTIMAL, and it is the weight of the sets the backend assigned 1.
   */
  method SolveILP(inst: Instance, optimal: bool, v: seq<int>) returns (r: Option<int>)
    requires |inst.weights| == inst.n && WellIndexed(inst.elements, inst.n)
    requires optimal ==> |v| == inst.n && ZeroOne(v)
    ensures r.Some? <==> optimal
    ensures r.Some? ==> r.value == SumWhere(inst.weights, Selected(AsReals(v)))
    ensures r.Some? ==> r.value as real == Objective(inst.weights, AsReals(v))
  {
    if optimal {
      var answer := OptimalWeight(inst.weights, v);
      r := Some(answer);
    } else {
      r := None;
    }
  }

  /** Some set listed in e is assigned 1. */
  predicate HasChosen(v: seq<int>, e: seq<int>)
    requires IndicesIn(e, |v|)
  {
    exists i :: 0 <= i < |e| && v[e[i] - 1] == 1
  }

  /**
   * A 0/1 assignment satisfies every constraint exactly when each element lists
   * a set assigned 1.
   */
  lemma FeasibleBinary(v: seq<int>, elements: seq<seq<int>>)
    requires ZeroOne(v) && WellIndexed(elements, |v|)
    ensures Feasible(AsReals(v), elements)
        <==> forall k :: 0 <= k < |elements| ==> HasChosen(v, elements[k])
  {
    forall k | 0 <= k < |elements|
      ensures Covers(AsReals(v), elements[k]) <==> HasChosen(v, elements[k])
    {
      var e := elements[k];
      CoverSumBinary(AsReals(v), e);
      assert forall i :: 0 <= i < |e| ==> (AsReals(v)[e[i] - 1] == 1.0 <==> v[e[i] - 1] == 1);
    }
    assert Feasible(AsReals(v), elements)
        <==> forall k :: 0 <= k < |elements| ==> Covers(AsReals(v), elements[k]);
  }

  /**
   * Weights [1, 5] with elements {1}, {1, 2}, {2}: the only 0/1 assignment that
   * meets every constraint takes both sets, so a proven optimum weighs 6.
   */
  lemma BothSetsNeeded(v: seq<int>)
    requires |v| == 2 && ZeroOne(v)
    requires Feasible(AsReals(v), [[1], [1, 2], [2]])
    ensures v == [1, 1]
    ensures SumWhere([1, 5], Selected(AsReals(v))) == 6
  {
    var els: seq<seq<int>> := [[1], [1, 2], [2]];
    FeasibleBinary(v, els);
    assert HasChosen(v, els[0]) && HasChosen(v, els[2]);
    assert v == [1, 1];
    var w := [1, 5];
    var c := Selected(AsReals(v));
    assert c == [true, true];
    assert w[..1] == [1] && c[..1] == [true];
    assert w[..1][..0] == [] && c[..1][..0] == [];
    assert SumWhere(w[..1], c[..1]) == 1;
  }
}
