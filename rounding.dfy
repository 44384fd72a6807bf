/**
 * solveLP_Rounding after the relaxation is solved. The relaxation's status and
 * values, the draws of the random source and the per-element uncovered
 * verdicts are inputs. One rounding pass charges the weight of each set whose
 * draw falls below its value; the repair pass then charges, for every element
 * judged uncovered, the least weight among the sets listed for it.
 */
module Rounding {
  import opened Wrappers
  import opened Seqs
  import opened Formulation
  import opened Parser

  /** The sets the rounding pass charges: set i when draws[i] < x[i]. */
  function Charged(x: seq<real>, draws: seq<real>): (c: seq<bool>)
    requires |draws| == |x|
    ensures |c| == |x|
    ensures forall i :: 0 <= i < |x| && 0.0 <= draws[i] < 1.0 ==>
      (x[i] <= 0.0 ==> !c[i]) && (x[i] >= 1.0 ==> c[i])
  {
    seq(|x|, i requires 0 <= i < |x| => draws[i] < x[i])
  }

  /**
   * The rounding loop, one draw per set in index order. With non-negative
   * weights the total lies between zero and the weight of all sets.
   */
  method Round(w: seq<int>, x: seq<real>, draws: seq<real>) returns (answer: int)
    requires |x| == |w| && |draws| == |w|
    ensures answer == SumWhere(w, Charged(x, draws))
    ensures NonNegative(w) ==> 0 <= answer <= Sum(w)
  {
    ghost var charged := Charged(x, draws);
    answer := 0;
    var setElem := 0;
    while setElem < |w|
      invariant 0 <= setElem <= |w|
      invariant answer == SumWhere(w[..setElem], charged[..setElem])
    {
      assert w[..setElem + 1][..setElem] == w[..setElem];
      assert charged[..setElem + 1][..setElem] == charged[..setElem];
      if draws[setElem] < x[setElem] {
        answer := answer + w[setElem];
      }
      setElem := setElem + 1;
    }
    assert w[..setElem] == w && charged[..setElem] == charged;
    if NonNegative(w) {
      SumWhereBounds(w, charged);
    }
  }

  predicate UnitDraws(draws: seq<real>)
  {
    forall i :: 0 <= i < |draws| ==> 0.0 <= draws[i] < 1.0
  }

  /**
   * With draws in [0, 1) and non-negative weights, the pass charges at least
   * the sets valued 1 or more and at most the sets valued above 0; a set valued
   * 0 is never charged and a set valued 1 always is.
   */
  lemma RoundBetween(w: seq<int>, x: seq<real>, draws: seq<real>)
    requires |x| == |w| && |draws| == |w| && UnitDraws(draws) && NonNegative(w)
    ensures var sure := seq(|x|, i requires 0 <= i < |x| => x[i] >= 1.0);
      var possible := seq(|x|, i requires 0 <= i < |x| => x[i] > 0.0);
      SumWhere(w, sure) <= SumWhere(w, Charged(x, draws)) <= SumWhere(w, possible)
  {
    var sure := seq(|x|, i requires 0 <= i < |x| => x[i] >= 1.0);
    var possible := seq(|x|, i requires 0 <= i < |x| => x[i] > 0.0);
    SumWhereMonotone(w, sure, Charged(x, draws));
    SumWhereMonotone(w, Charged(x, draws), possible);
  }

  /**
   * Rounding a 0/1 relaxation value with draws in [0, 1) reproduces it: the
   * charge equals the objective at x.
   */
  lemma RoundIntegral(w: seq<int>, x: seq<real>, draws: seq<real>)
    requires |x| == |w| && |draws| == |w| && UnitDraws(draws) && Binary(x)
    ensures Charged(x, draws) == Selected(x)
    ensures SumWhere(w, Charged(x, draws)) as real == Objective(w, x)
  {
    ObjectiveBinary(w, x);
  }

  /** The least weight among the sets listed for element e (the `min` of the comprehension). */
  function MinWeight(w: seq<int>, e: seq<int>): (r: int)
    requires e != [] && IndicesIn(e, |w|)
    ensures exists k :: 0 <= k < |e| && r == w[e[k] - 1]
    ensures forall k :: 0 <= k < |e| ==> r <= w[e[k] - 1]
  {
    if |e| == 1 then w[e[0] - 1]
    else
      var rest := MinWeight(w, e[1..]);
      if w[e[0] - 1] <= rest then w[e[0] - 1]
      else
        assert exists k :: 1 <= k < |e| && rest == w[e[k] - 1] by {
          var k :| 0 <= k < |e[1..]| && rest == w[e[1..][k] - 1];
          assert e[1..][k] == e[k + 1];
        }
        rest
  }

  /**
   * The repair charge: for each element judged uncovered, its least incident
   * weight, once per element.
   */
  function RepairCost(w: seq<int>, elements: seq<seq<int>>, uncovered: seq<bool>): (r: int)
    requires |uncovered| == |elements| && WellIndexed(elements, |w|) && AllNonEmpty(elements)
    ensures NonNegative(w) ==> r >= 0
  {
    if elements == [] then 0
    else
      var k := |elements| - 1;
      RepairCost(w, elements[..k], uncovered[..k])
        + (if uncovered[k] then MinWeight(w, elements[k]) else 0)
  }

  /**
   * The repair loop. An empty element keeps its constraint at the integer 0, is
   * always judged uncovered and makes `min` fail, so the loop fails exactly when
   * some element is empty; otherwise it adds the repair charge to `answer`.
   */
  method Repair(w: seq<int>, elements: seq<seq<int>>, uncovered: seq<bool>, answer: int)
    returns (r: Option<int>)
    requires |uncovered| == |elements| && WellIndexed(elements, |w|)
    ensures r.None? <==> !AllNonEmpty(elements)
    ensures r.Some? ==> r.value == answer + RepairCost(w, elements, uncovered)
  {
    var total := answer;
    var i := 0;
    while i < |elements|
      invariant 0 <= i <= |elements|
      invariant AllNonEmpty(elements[..i])
      invariant total == answer + RepairCost(w, elements[..i], uncovered[..i])
    {
      var element := elements[i];
      if element == [] {
        return None;
      }
      assert elements[..i + 1][..i] == elements[..i];
      assert uncovered[..i + 1][..i] == uncovered[..i];
      if uncovered[i] {
        total := total + MinWeight(w, element);
      }
      i := i + 1;
    }
    assert elements[..i] == elements && uncovered[..i] == uncovered;
    r := Some(total);
  }

  /**
   * Charges are per element: the charge of a list of elements is the sum of the
   * charges of its parts, so an element listed again, or a set already charged,
   * is charged again.
   */
  lemma {:induction false} RepairCostAppend(w: seq<int>, e1: seq<seq<int>>, u1: seq<bool>, e2: seq<seq<int>>, u2: seq<bool>)
    requires |u1| == |e1| && WellIndexed(e1, |w|) && AllNonEmpty(e1)
    requires |u2| == |e2| && WellIndexed(e2, |w|) && AllNonEmpty(e2)
    ensures WellIndexed(e1 + e2, |w|) && AllNonEmpty(e1 + e2)
    ensures RepairCost(w, e1 + e2, u1 + u2) == RepairCost(w, e1, u1) + RepairCost(w, e2, u2)
    decreases |e2|
  {
    var es, us := e1 + e2, u1 + u2;
    assert forall k :: 0 <= k < |e2| ==> es[|e1| + k] == e2[k];
    if e2 == [] {
      assert es == e1 && us == u1;
    } else {
      var k := |e2| - 1;
      RepairCostAppend(w, e1, u1, e2[..k], u2[..k]);
      assert es[..|es| - 1] == e1 + e2[..k];
      assert us[..|us| - 1] == u1 + u2[..k];
    }
  }

  /**
   * With non-negative weights the repair charge is non-negative and judging
   * more elements uncovered never lowers it.
   */
  lemma {:induction false} RepairMonotone(w: seq<int>, elements: seq<seq<int>>, u: seq<bool>, u': seq<bool>)
    requires |u| == |elements| && |u'| == |elements| && WellIndexed(elements, |w|) && AllNonEmpty(elements)
    requires NonNegative(w)
    requires forall k :: 0 <= k < |elements| && u[k] ==> u'[k]
    ensures 0 <= RepairCost(w, elements, u) <= RepairCost(w, elements, u')
  {
    if elements != [] {
      var k := |elements| - 1;
      RepairMonotone(w, elements[..k], u[..k], u'[..k]);
    }
  }

  datatype SolveError = Unsolvable | MinOfEmpty

  /**
   * solveLP_Rounding once the relaxation is built: no answer unless the
   * backend reports OPTIMAL, a failure when some element is empty, and
   * otherwise the rounding charge plus the repair charge.
   */
  method SolveLPRounding(inst: Instance, optimal: bool, x: seq<real>, draws: seq<real>, uncovered: seq<bool>)
    returns (r: Result<int, SolveError>)
    requires |inst.weights| == inst.n && WellIndexed(inst.elements, inst.n)
    requires |x| == inst.n && |draws| == inst.n && |uncovered| == |inst.elements|
    ensures !optimal ==> r == Failure(Unsolvable)
    ensures optimal && !AllNonEmpty(inst.elements) ==> r == Failure(MinOfEmpty)
    ensures optimal && AllNonEmpty(inst.elements) ==>
      r == Success(SumWhere(inst.weights, Charged(x, draws))
                   + RepairCost(inst.weights, inst.elements, uncovered))
  {
    if !optimal {
      return Failure(Unsolvable);
    }
    var answer := Round(inst.weights, x, draws);
    var repaired := Repair(inst.weights, inst.elements, uncovered, answer);
    if repaired.None? {
      r := Failure(MinOfEmpty);
    } else {
      r := Success(repaired.value);
    }
  }

  /**
   * With non-negative weights the reported weight is at least the rounding
   * charge, and with a 0/1 relaxation value, draws in [0, 1) and no element
   * judged uncovered it is exactly the objective at x.
   */
  lemma TotalBounds(inst: Instance, x: seq<real>, draws: seq<real>, uncovered: seq<bool>)
    requires |inst.weights| == inst.n && WellIndexed(inst.elements, inst.n) && AllNonEmpty(inst.elements)
    requires |x| == inst.n && |draws| == inst.n && |uncovered| == |inst.elements|
    requires NonNegative(inst.weights)
    ensures var total := SumWhere(inst.weights, Charged(x, draws)) + RepairCost(inst.weights, inst.elements, uncovered);
      SumWhere(inst.weights, Charged(x, draws)) <= total
    ensures (forall k :: 0 <= k < |uncovered| ==> !uncovered[k]) && Binary(x) && UnitDraws(draws) ==>
      (SumWhere(inst.weights, Charged(x, draws)) + RepairCost(inst.weights, inst.elements, uncovered)) as real
        == Objective(inst.weights, x)
  {
    var none := seq(|uncovered|, k => false);
    RepairMonotone(inst.weights, inst.elements, none, uncovered);
    if (forall k :: 0 <= k < |uncovered| ==> !uncovered[k]) && Binary(x) && UnitDraws(draws) {
      RepairMonotone(inst.weights, inst.elements, uncovered, none);
      assert none == uncovered;
      RepairNothing(inst.weights, inst.elements, uncovered);
      RoundIntegral(inst.weights, x, draws);
    }
  }

  /** No element judged uncovered: nothing is charged. */
  lemma {:induction false} RepairNothing(w: seq<int>, elements: seq<seq<int>>, u: seq<bool>)
    requires |u| == |elements| && WellIndexed(elements, |w|) && AllNonEmpty(elements)
    requires forall k :: 0 <= k < |u| ==> !u[k]
    ensures RepairCost(w, elements, u) == 0
  {
    if elements != [] {
      var k := |elements| - 1;
      RepairNothing(w, elements[..k], u[..k]);
    }
  }

  lemma ExampleRounding()
    ensures SumWhere([1, 5], Charged([1.0, 1.0], [0.0, 0.0])) == 6
  {
    var w := [1, 5];
    var c := Charged([1.0, 1.0], [0.0, 0.0]);
    assert c == [true, true];
    assert w[..1] == [1] && c[..1] == [true];
    assert w[..1][..0] == [] && c[..1][..0] == [];
  }

  lemma ExampleMinWeights()
    ensures MinWeight([1, 5], [1]) == 1 && MinWeight([1, 5], [2]) == 5 && MinWeight([1, 5], [1, 2]) == 1
  {
    assert [1, 2][1..] == [2];
  }

  lemma ExampleRepairFirst()
    ensures RepairCost([1, 5], [[1]], [true]) == 1
  {
    var e1: seq<seq<int>> := [[1]];
    assert e1[..0] == [] && [true][..0] == [];
  }

  lemma ExampleRepairTwo()
    ensures RepairCost([1, 5], [[1], [1, 2]], [true, true]) == 2
  {
    var e2: seq<seq<int>> := [[1], [1, 2]];
    ExampleRepairFirst();
    ExampleMinWeights();
    assert e2[..1] == [[1]] && [true, true][..1] == [true];
  }

  lemma ExampleRepair()
    ensures RepairCost([1, 5], [[1], [1, 2], [2]], [true, true, true]) == 7
  {
    var els: seq<seq<int>> := [[1], [1, 2], [2]];
    var u := [true, true, true];
    ExampleRepairTwo();
    ExampleMinWeights();
    assert els[..2] == [[1], [1, 2]] && u[..2] == [true, true];
  }

  /**
   * Weights [1, 5], elements {1}, {1, 2}, {2}: with both sets rounded in and
   * every element judged uncovered the reported weight is 6 + 1 + 1 + 5 = 13,
   * although the only cover weighs 6.
   */
  lemma ChargedTwice()
    ensures SumWhere([1, 5], Charged([1.0, 1.0], [0.0, 0.0]))
          + RepairCost([1, 5], [[1], [1, 2], [2]], [true, true, true]) == 13
  {
    ExampleRounding();
    ExampleRepair();
  }
}
