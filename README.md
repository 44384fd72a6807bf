# Weighted set cover: instance reader, covering program and LP rounding

This project models the deterministic logic of `set_cover/set_cover.py`. The file has one class, `SetCover`, with three parts:

- `__init__` reads a problem instance.
- `solveILP` solves the 0/1 covering program exactly.
- `solveLP_Rounding` solves the fractional relaxation, rounds the values to pick sets, and then repairs elements left uncovered.

What the model contains:

- **Instance reader** (`Parser`). The file arrives as its lines, already split on whitespace and converted to integers.
  - Line 0 gives `m` and `n`.
  - In the weights phase, every token of each line is a weight. This continues until at least `n` weights have been read, so the last weight line may overshoot.
  - In the membership phase, a line with exactly one token is a group separator and its token is discarded. Any other line adds its tokens to the current group. A separator closes the current group only when that group is non-empty.
  - When the lines run out, the last group is always appended, even if it is empty.
  - `Parse` is a loop over the lines, with inner loops over the tokens, updating `sets`, `elements` and `temp` as the source does.
  - `Parse` is proved equal to `ParseSpec`, a separate description of the result: the weight lines are a prefix, and the groups are the pieces between separators with empty pieces dropped, except the last.
  - Two further lemmas. `RoundTrip`: an instance whose `n >= 1` weights sit on one line, with at least one element and at least two indices per element, reads back unchanged from the count-first layout (one count line per element, then one line with its indices). `SingleIndexIsDropped`: one input where the reader gets the membership wrong.
- **Covering program** (`Formulation`, `ExactSolver`). The backend is not modelled. Instead, the constraints and the objective are evaluated at an assignment given as input.
  - An element's constraint is the sum of `x[idx-1]` over its 1-based indices, and it must be at least 1. A repeated index counts each time it occurs.
  - The objective is `Σ weights[i]*x[i]`.
  - `OptimalWeight` is the answer loop of `solveILP`. It is proved to return the total weight of the sets assigned 1, which is also the objective's value at that assignment.
- **Rounding and repair** (`Rounding`). Three things the source gets at run time are inputs here:
  - the values of the relaxation;
  - the draws of the random source, as reals;
  - a per-element verdict saying whether the element is uncovered.

  `Round` makes one pass over the sets. It adds `weights[i]` when `draws[i] < x[i]`. `Repair` adds, for each element judged uncovered, the least weight among that element's sets (`MinWeight`). These charges are per element and are never de-duplicated. An empty element makes `min` fail.

The backend's status (OPTIMAL or not) is a boolean input. A result is modelled as a return value (`Option` / `Result`), whereas the source prints it.

## Behaviour of the code worth knowing

- The reader validates nothing. It does not compare the weight count with `n` or the group count with `m`, does not range-check indices and does not reject negative weights. Its only failure is a line 0 with fewer than two tokens.
- A membership line that holds a single set index is taken as a separator, so that index is lost (`SingleIndexIsDropped`).
- The final group is always appended, even when it is empty.
  - At lines 85-89 an empty group becomes the constant constraint `0 >= 1`, which is the Python value `False`; no assignment meets it (`Formulation.Feasible`).
  - At lines 112-120 it makes `min` fail (`Repair`). `SolveLPRounding` therefore reaches `MinOfEmpty` only when the backend nonetheless reports OPTIMAL.
- There is a single rounding pass and no record of which sets were chosen.
- Repair charges each element separately. The same set can therefore be paid for several times, and also on top of its rounding charge.
  - Example: weights `[1, 5]` with elements `{1}, {1,2}, {2}`. The only cover weighs 6, but the total can be 13 (`ChargedTwice`).
- Whether an element counts as uncovered is not computed from the rounding outcome (see "Left out").

## Model

| member | source | states |
|---|---|---|
| `Parser.Step` | set_cover/set_cover.py:20-32 | one turn of the reading loop: `sets` and `elements` only grow, `sets` is frozen once it holds `n` weights, and every group it closes is non-empty |
| `Parser.Run` | set_cover/set_cover.py:19-32 | the reading loop over the remaining lines: `sets` and `elements` only grow, `sets` is frozen once it holds `n` weights, and every group added is non-empty |
| `Parser.ParseSpec` | set_cover/set_cover.py:6-33 | the reference result: none exactly when line 0 has fewer than two tokens; `m` and `n` are line 0's first two tokens; either at least `n` weights were read or every later line was read as weights; at least one group, all but the last non-empty |
| `Parser.Parse` | set_cover/set_cover.py:6-35 | the reading loop returns exactly `ParseSpec(lines)`; it fails exactly when line 0 has fewer than two tokens; `m` and `n` are the first two tokens of line 0 |
| `Parser.ParseMachineMatchesSpec` | set_cover/set_cover.py:19-33 | running the loop over all lines yields the weight prefix as `sets`, and `elements` plus the pending `temp` equals the reference grouping of the remaining lines |
| `Parser.WeightLinesSpec` | set_cover/set_cover.py:21-23 | the weights phase takes the shortest run of lines whose token count reaches `n` (which may overshoot it); every shorter run falls short; if the lines run out first, all of them are weights |
| `Parser.RunWeights` | set_cover/set_cover.py:21-23 | while fewer than `n` weights are present, every token of each line is appended to `sets` in order, and the groups stay empty |
| `Parser.RunMembership` | set_cover/set_cover.py:24-33 | once `sets` has `n` or more weights it never changes again; the closed groups plus the pending group follow the pieces between separators, with the pending tokens glued to the first piece |
| `Parser.SeparatorStep` | set_cover/set_cover.py:24-29 | a single-token line adds no index; it closes the pending group only when that group is non-empty |
| `Parser.TokenStep` | set_cover/set_cover.py:30-32 | a line of 0 or at least 2 tokens appends all of its tokens to the pending group |
| `Parser.NonEmpty` | set_cover/set_cover.py:25-27 | keeping only non-empty groups leaves no empty entry and never lengthens the list |
| `Parser.Groups` | set_cover/set_cover.py:24-33 | there is at least one group; every group except the last is non-empty; the last is the tokens after the last separator, kept even when empty |
| `Parser.GroupsFlatten` | set_cover/set_cover.py:30-33 | the groups concatenated are exactly the tokens of the non-separator lines, in input order |
| `Parser.GroupsCount` | set_cover/set_cover.py:24-33 | the number of groups is at least 1 and at most one more than the number of separator lines; it is not tied to `m` |
| `Parser.GroupsEncode` | set_cover/set_cover.py:24-33 | membership written as a count line plus one index line per element, each element with at least two indices, reads back as the same list of groups |
| `Parser.RoundTrip` | set_cover/set_cover.py:6-33 | an instance with `n >= 1` weights on one line and elements of at least two indices reads back exactly from its count-first encoding |
| `Parser.SingleIndexIsDropped` | set_cover/set_cover.py:24-29 | with `m = 1`, `n = 1`, weight 7 and the element `{1}` written as a count line plus an index line, the reader yields one empty element |
| `Formulation.CoverSum` | set_cover/set_cover.py:50-53 | the left-hand side of an element's constraint, `x[idx-1]` summed over its indices; for values in `[0,1]` it lies between 0 and the number of listed indices |
| `Formulation.Covers` | set_cover/set_cover.py:54 | the constraint `sum >= 1` of one element; an empty element never meets it |
| `Formulation.Feasible` | set_cover/set_cover.py:50-54 | every element's constraint holds; an instance with an empty element has no feasible assignment |
| `Formulation.Objective` | set_cover/set_cover.py:57-59 | the objective `Σ weights[i]*x[i]`; with non-negative weights and values in `[0,1]` it lies between 0 and `Σweights` |
| `Formulation.CoverSumAppend` | set_cover/set_cover.py:50-54 | an element's constraint sum is additive over concatenation of index lists, so an index listed twice contributes its variable twice |
| `Formulation.CoverSumBinary` | set_cover/set_cover.py:50-54 | at a 0/1 assignment the constraint sum is non-negative, and the constraint `>= 1` holds exactly when some listed set is assigned 1 |
| `Formulation.ObjectiveBinary` | set_cover/set_cover.py:57-59 | at a 0/1 assignment the objective `Σ weights[i]*x[i]` equals the total weight of the sets assigned 1 |
| `ExactSolver.OptimalWeight` | set_cover/set_cover.py:67-69 | the answer loop returns the total weight of the sets assigned 1, which is also the objective's value at that assignment |
| `ExactSolver.SolveILP` | set_cover/set_cover.py:66-73 | an answer exists exactly when the backend reports OPTIMAL, and it is the total weight of the sets the backend assigned 1 |
| `ExactSolver.FeasibleBinary` | set_cover/set_cover.py:50-54 | a 0/1 assignment meets every element's constraint exactly when each element lists a set assigned 1 |
| `ExactSolver.BothSetsNeeded` | set_cover/set_cover.py:50-60 | for weights `[1, 5]` and elements `{1}, {1,2}, {2}`, the only feasible 0/1 assignment is `[1, 1]`, with weight 6 |
| `Rounding.Charged` | set_cover/set_cover.py:108 | the rounding test `draw < value` per set; with a draw in `[0,1)` a set valued 0 or less is never charged and a set valued 1 or more always is |
| `Rounding.Round` | set_cover/set_cover.py:106-109 | the rounding loop charges exactly the sets whose draw is below their value, using one draw per set in index order; with non-negative weights the result lies in `[0, Σweights]` |
| `Rounding.RoundBetween` | set_cover/set_cover.py:106-109 | with draws in `[0,1)` and non-negative weights, the charge is at least the weight of the sets valued 1 or more and at most the weight of the sets valued above 0 |
| `Rounding.RoundIntegral` | set_cover/set_cover.py:106-109 | with draws in `[0,1)`, rounding a 0/1 value vector charges exactly the sets valued 1, so the charge equals the objective at that vector |
| `Rounding.MinWeight` | set_cover/set_cover.py:119-120 | the `min` over an element's incident weights is one of those weights and no larger than any of them |
| `Rounding.RepairCost` | set_cover/set_cover.py:112-120 | the repair charge: each element judged uncovered adds its minimum incident weight; with non-negative weights the charge is non-negative |
| `Rounding.Repair` | set_cover/set_cover.py:112-120 | the repair loop fails exactly when some element is empty; otherwise it adds, for each element judged uncovered, that element's minimum incident weight |
| `Rounding.RepairCostAppend` | set_cover/set_cover.py:112-120 | the repair charge of concatenated element lists is the sum of their charges, so nothing is de-duplicated across elements |
| `Rounding.RepairMonotone` | set_cover/set_cover.py:112-120 | with non-negative weights the repair charge is non-negative, and judging more elements uncovered never lowers it |
| `Rounding.RepairNothing` | set_cover/set_cover.py:112-120 | when no element is judged uncovered, the repair adds nothing |
| `Rounding.SolveLPRounding` | set_cover/set_cover.py:99-120 | it fails with `Unsolvable` without OPTIMAL and with `MinOfEmpty` when an element is empty; otherwise it returns the rounding charge plus the repair charge |
| `Rounding.TotalBounds` | set_cover/set_cover.py:106-120 | with non-negative weights the total is at least the rounding charge; with a 0/1 relaxation, draws in `[0,1)` and no element judged uncovered, it equals the objective |
| `Rounding.ChargedTwice` | set_cover/set_cover.py:106-120 | for weights `[1, 5]` and elements `{1}, {1,2}, {2}`, with both sets rounded in and every element judged uncovered, the total is 13 although the only cover weighs 6 |

## Left out

- File opening and reading (the model starts from tokenised lines), and every `print`. These are I/O.
- Converting text to integers with `int()`, and the exceptions raised on malformed numbers. Lines are given as integer tokens.
- The OR-Tools calls: building and solving the CP-SAT and GLOP models, `solution_value` and `solver.Value`. These are foreign library calls.
  - The backend's OPTIMAL status is a boolean input.
  - The 0/1 values and the LP values are input sequences.
  - Nothing is assumed about whether those values satisfy the constraints.
- `random.random()`. It is replaced by an input sequence of draws, modelled as reals rather than floats.
- The uncovered test at lines 113-118. It builds OR-Tools expressions from the variables, not from the rounding outcome, and its truth value depends on the library's operator overloading.
  - It is modelled as one boolean verdict per element. The model does not claim it reflects the rounding.
  - The one exception is an empty element: its sum stays the integer 0, so it is always judged uncovered.
- Timing with `timeit`.
- Python quirks that are ruled out by preconditions (`WellIndexed`, `|weights| == n`):
  - an index of 0 or below reads from the end of the list by negative indexing;
  - an index above `n` raises IndexError;
  - with `len(sets) > n`, the objective-building loops at lines 58-59 and 92-93 raise IndexError before any solve.
- `Rounding.Round`: it requires `|x| == |weights|`, although the source would also run with fewer weights than `n`. The precondition keeps the instance consistent with `n`.
- `ExactSolver.SolveILP`: it does not state that the answer is minimal or that it is the weight of a cover. Both rest on the backend, which is not modelled.
