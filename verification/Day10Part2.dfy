/**
 * Day 10, part 2: `solve_part2_matrix` and the part 2 sum.  The counters of
 * a machine must reach their joltage targets exactly; button `c` adds
 * `btn_vec[r]` to counter `r` per press.  The augmented matrix is reduced,
 * the button counts are expressed in terms of free parameters, and the
 * integer search picks values for them.
 */
module Day10Part2 {
  import opened Base
  import opened Day10Parse
  import opened Day10Matrix
  import opened Day10Basis
  import opened Day10Limits
  import opened Day10Search

  /** `btn_vec[r] if r < len(btn_vec) else 0`. */
  function Entry(vec: seq<int>, r: nat): int
  {
    if r < |vec| then vec[r] else 0
  }

  /** The value of counter `r` after pressing each of the first `n` buttons `x[c]` times. */
  function Jolts(buttons: seq<seq<int>>, x: seq<int>, r: nat, n: nat): int
    requires n <= |buttons| && n <= |x|
  {
    if n == 0 then 0 else Jolts(buttons, x, r, n - 1) + Entry(buttons[n - 1], r) * x[n - 1]
  }

  predicate NonNegative(x: seq<int>)
  {
    forall c :: 0 <= c < |x| ==> x[c] >= 0
  }

  /** Press counts for every button that bring every counter exactly to its target. */
  predicate IsPressing(target: seq<int>, buttons: seq<seq<int>>, x: seq<int>)
  {
    |x| == |buttons| && NonNegative(x) &&
    forall r :: 0 <= r < |target| ==> Jolts(buttons, x, r, |buttons|) == target[r]
  }

  ghost predicate Pressable(target: seq<int>, buttons: seq<seq<int>>)
  {
    exists x :: IsPressing(target, buttons, x)
  }

  /** A machine's answer: the total presses of some valid pressing, or 0 when there is none. */
  ghost predicate Acceptable(target: seq<int>, buttons: seq<seq<int>>, total: real)
  {
    (exists x :: IsPressing(target, buttons, x) && Sum(x) as real == total) ||
    (total == 0.0 && !Pressable(target, buttons))
  }

  /** Row `r` of the augmented matrix `[Buttons | Target]`. */
  function AugmentedRow(target: seq<int>, buttons: seq<seq<int>>, r: nat): (row: Row)
    requires r < |target|
    ensures |row| == |buttons| + 1
  {
    seq(|buttons|, c requires 0 <= c < |buttons| => Entry(buttons[c], r) as real) + [target[r] as real]
  }

  function Augmented(target: seq<int>, buttons: seq<seq<int>>): (m: seq<Row>)
    ensures |m| == |target| && Rectangular(m, |buttons| + 1)
  {
    seq(|target|, r requires 0 <= r < |target| => AugmentedRow(target, buttons, r))
  }

  lemma {:induction false} JoltsDot(target: seq<int>, buttons: seq<seq<int>>, x: seq<int>, r: nat, n: nat)
    requires r < |target| && n <= |buttons| == |x|
    ensures Dot(AugmentedRow(target, buttons, r), Reals(x), n) == Jolts(buttons, x, r, n) as real
  {
    if n > 0 {
      JoltsDot(target, buttons, x, r, n - 1);
    }
  }

  /** A pressing is exactly a non-negative integer solution of the augmented system. */
  lemma PressingSolves(target: seq<int>, buttons: seq<seq<int>>, x: seq<int>)
    requires |x| == |buttons|
    ensures IsPressing(target, buttons, x) <==> NonNegative(x) && SolvesAll(Augmented(target, buttons), Reals(x))
  {
    var m := Augmented(target, buttons);
    forall r | 0 <= r < |target|
      ensures Satisfies(m[r], Reals(x)) <==> Jolts(buttons, x, r, |buttons|) == target[r]
    {
      JoltsDot(target, buttons, x, r, |buttons|);
    }
  }

  lemma {:induction false} SumReals(x: seq<int>)
    ensures RealSum(Reals(x)) == Sum(x) as real
  {
    if x != [] {
      SumReals(x[..|x| - 1]);
      assert Reals(x[..|x| - 1]) == Reals(x)[..|x| - 1];
    }
  }

  /** The matrix build: one row per counter, one column per button, and the target last. */
  method BuildMatrix(target: seq<int>, buttons: seq<seq<int>>) returns (matrix: array<Row>)
    ensures fresh(matrix) && matrix[..] == Augmented(target, buttons)
  {
    matrix := new Row[|target|](_ => []);
    for r := 0 to |target|
      invariant forall q :: 0 <= q < r ==> matrix[q] == AugmentedRow(target, buttons, q)
    {
      var row: Row := [];
      for c := 0 to |buttons|
        invariant |row| == c && forall j :: 0 <= j < c ==> row[j] == Entry(buttons[j], r) as real
      {
        var btnVec := buttons[c];
        var val := if r < |btnVec| then btnVec[r] else 0;
        row := row + [val as real];
      }
      matrix[r] := row + [target[r] as real];
    }
  }

  /** The matrix build and `reduce_matrix`: an echelon form with the same solutions. */
  method Eliminate(target: seq<int>, buttons: seq<seq<int>>) returns (m: seq<Row>, ghost pivots: seq<nat>)
    ensures |m| == |target| && Echelon(m, |buttons| + 1, pivots)
    ensures SameSolutions(Augmented(target, buttons), m, |buttons|)
  {
    var matrix := BuildMatrix(target, buttons);
    pivots := ReduceMatrix(matrix);
    m := matrix[..];
  }

  /** An answer on the reduced system: the total of a non-negative integer solution, or 0 when there is none. */
  ghost predicate Answered(m: seq<Row>, variables: nat, total: real, found: seq<int>)
  {
    (|found| == variables && NonNegative(found) && SolvesAll(m, Reals(found)) && Sum(found) as real == total) ||
    (total == 0.0 && forall x: seq<int> :: |x| == variables && NonNegative(x) ==> !SolvesAll(m, Reals(x)))
  }

  /** `result if result != math.inf else 0`. */
  function Reported(result: Outcome): Outcome
  {
    if result.Infeasible? then Cost(0.0) else result
  }

  /** A solution of the search gives a non-negative integer solution of the reduced system with the same total. */
  lemma CountsOfSolution(m: seq<Row>, variables: nat, pivots: seq<nat>, basis: seq<Row>, free: seq<Option<int>>, p: seq<int>)
    returns (x: seq<int>)
    requires Echelon(m, variables + 1, pivots) && Consistent(pivots, variables)
    requires Expresses(m, variables, pivots, basis, |p| + 1) && Solution(basis, free, p)
    ensures |x| == variables && NonNegative(x) && SolvesAll(m, Reals(x))
    ensures Sum(x) as real == RealSum(Unknowns(basis, Reals(p)))
  {
    var counts := Unknowns(basis, Reals(p));
    x := seq(|counts|, c requires 0 <= c < |counts| => counts[c].Floor);
    assert Reals(x) == counts;
    RoundTrip(m, variables, pivots, basis, Reals(p));
    SumReals(x);
  }

  /** The free values of a solution are non-negative, one per free column, each read from its own slot. */
  lemma FreeValsOfCounts(x: seq<int>, pivots: seq<nat>, variables: nat)
    requires Increasing(pivots) && |pivots| <= variables && Consistent(pivots, variables)
    requires |x| == variables && NonNegative(x)
    ensures |FreeVals(x, pivots, variables)| == variables - |pivots|
    ensures forall j :: 0 <= j < |FreeVals(x, pivots, variables)| ==> FreeVals(x, pivots, variables)[j] >= 0
    ensures forall c :: 0 <= c < variables && c !in pivots ==>
      0 <= FreeIndex(pivots, c) < |FreeVals(x, pivots, variables)| &&
      Reals(FreeVals(x, pivots, variables))[FreeIndex(pivots, c)] == Reals(x)[c]
  {
    FreeValsLength(x, pivots, variables);
    BelowSplit(pivots, variables, |pivots|);
    FreeValsIndex(x, pivots, variables);
    FreeValsNonNegative(x, pivots, variables);
  }

  /** Parameters at which every button count is a non-negative whole number are a solution of the search. */
  lemma WholeCounts(basis: seq<Row>, p: seq<int>, x: seq<int>)
    requires Shaped(basis, |p| + 1) && |basis| == |x| && NonNegative(x)
    requires forall j :: 0 <= j < |p| ==> p[j] >= 0
    requires Unknowns(basis, Reals(p)) == Reals(x)
    ensures Solution(basis, Unconstrained(|p|), p)
  {
    var t := Reals(p);
    forall r | 0 <= r < |basis|
      ensures NonNegativeAt(basis[r], p) && Whole(Value(basis[r], t))
    {
      assert Value(basis[r], t) == Unknowns(basis, t)[r] == x[r] as real;
    }
  }

  /** Every non-negative integer solution of the reduced system is found by the search at its free values. */
  lemma SolutionOfCounts(m: seq<Row>, variables: nat, pivots: seq<nat>, basis: seq<Row>, x: seq<int>)
    requires Echelon(m, variables + 1, pivots) && Consistent(pivots, variables) && |pivots| <= variables
    requires Expresses(m, variables, pivots, basis, variables - |pivots| + 1)
    requires |x| == variables && NonNegative(x) && SolvesAll(m, Reals(x))
    ensures Solution(basis, Unconstrained(variables - |pivots|), FreeVals(x, pivots, variables))
  {
    var p := FreeVals(x, pivots, variables);
    assert Increasing(pivots);
    FreeValsOfCounts(x, pivots, variables);
    Parameterize(m, variables, pivots, basis, Reals(x), Reals(p));
    WholeCounts(basis, p, x);
  }

  /** The search's promise, carried back to the reduced system: a total is the total of a solution, and `inf` means there is none. */
  lemma SearchAnswered(m: seq<Row>, variables: nat, pivots: seq<nat>, basis: seq<Row>, result: Outcome, p: seq<int>)
    returns (found: seq<int>)
    requires Echelon(m, variables + 1, pivots) && Consistent(pivots, variables) && |pivots| <= variables
    requires Expresses(m, variables, pivots, basis, variables - |pivots| + 1) && variables > 0
    requires Answers(basis, Unconstrained(variables - |pivots|), result, p)
    ensures Reported(result).Cost? ==> Answered(m, variables, Reported(result).total, found)
  {
    found := [];
    if result.Cost? {
      found := CountsOfSolution(m, variables, pivots, basis, Unconstrained(variables - |pivots|), p);
    } else if result.Infeasible? {
      forall x: seq<int> | |x| == variables && NonNegative(x)
        ensures !SolvesAll(m, Reals(x))
      {
        if SolvesAll(m, Reals(x)) {
          SolutionOfCounts(m, variables, pivots, basis, x);
        }
      }
    }
  }

  /**
   * `solve_part2_matrix` from the reduced matrix on, as written.  When the
   * reduced system is consistent its answer is the total of a valid
   * pressing, or 0 when there is none; an inconsistent system with as many
   * constraints as buttons is answered from the base case alone.
   */
  method SolveReducedAsWritten(m: seq<Row>, variables: nat, ghost pivots: seq<nat>, fuel: nat)
    returns (outcome: Outcome, ghost basis: seq<Row>, ghost found: seq<int>)
    requires Echelon(m, variables + 1, pivots)
    ensures !outcome.Infeasible?
    ensures variables < |pivots| ==> outcome == Cost(0.0)
    ensures variables >= |pivots| ==> Expresses(m, variables, pivots, basis, variables - |pivots| + 1)
    ensures 0 < variables == |pivots| ==> outcome == Reported(BaseOutcome(basis, []))
    ensures Consistent(pivots, variables) && outcome.Cost? ==> Answered(m, variables, outcome.total, found)
  {
    found := [];
    var constraints := NonZeroRows(m);
    ConstraintsArePivots(m, variables + 1, pivots);
    if variables < constraints {
      // Over-constrained.
      if Consistent(pivots, variables) {
        ConstraintsFit(m, variables, pivots);
        assert false;
      }
      return Cost(0.0), [], found;
    }
    var dims := variables - constraints + 1;
    var basis0 := MarkFree(m, variables, constraints, dims, pivots);
    var basisVectors := BackSubstitute(m, variables, constraints, dims, basis0, pivots);
    basis := basisVectors;
    var gradient := CostGradient(basisVectors, dims);
    var result;
    ghost var p;
    result, p := RecursiveSolver(basisVectors, gradient, fuel);
    outcome := Reported(result);
    if Consistent(pivots, variables) && variables > 0 {
      found := SearchAnswered(m, variables, pivots, basis, result, p);
    }
  }

  /**
   * The inconsistent machine `[..] (0,1) (0,1) {1,2}`: both buttons bump
   * counters 0 and 1, which would need 1 and 2 presses in total at once.
   * `reduce_matrix` turns `[[1,1,1],[1,1,2]]` into `[[1,1,1],[0,0,1]]`, whose
   * second pivot is the constant column; it still counts as a constraint, so
   * the basis has no parameter slot, column 1 is marked in the constant slot,
   * and the base case reports 1 press for a machine no pressing solves.
   */
  lemma InconsistentMachineCounted(basis: seq<Row>)
    requires Expresses([[1.0, 1.0, 1.0], [0.0, 0.0, 1.0]], 2, [0, 2], basis, 1)
    ensures Echelon([[1.0, 1.0, 1.0], [0.0, 0.0, 1.0]], 3, [0, 2])
    ensures SameSolutions(Augmented([1, 2], [[1, 1], [1, 1]]), [[1.0, 1.0, 1.0], [0.0, 0.0, 1.0]], 2)
    ensures !RealSolvable([1, 2], [[1, 1], [1, 1]])
    ensures Reported(BaseOutcome(basis, [])) == Cost(1.0)
    ensures !Acceptable([1, 2], [[1, 1], [1, 1]], 1.0)
  {
    var target, buttons := [1, 2], [[1, 1], [1, 1]];
    var m := [[1.0, 1.0, 1.0], [0.0, 0.0, 1.0]];
    forall x: seq<real> | |x| == 2
      ensures !SolvesAll(Augmented(target, buttons), x) && !SolvesAll(m, x)
    {
      ExampleUnsolvable(x);
    }
    forall x | IsPressing(target, buttons, x)
      ensures false
    {
      PressingSolves(target, buttons, x);
      ExampleUnsolvable(Reals(x));
    }
    ExampleEchelon();
    ExampleBasis(basis);
    ExampleBase();
  }

  lemma ExampleEchelon()
    ensures Echelon([[1.0, 1.0, 1.0], [0.0, 0.0, 1.0]], 3, [0, 2])
    ensures !Consistent([0, 2], 2)
  {
    var m := [[1.0, 1.0, 1.0], [0.0, 0.0, 1.0]];
    assert m[1][0] == 0.0 && m[1][1] == 0.0;
  }

  /** The base case on the example's basis: both counts are valid, 0 and 1. */
  lemma ExampleBase()
    ensures BaseOutcome([[0.0], [1.0]], []) == Cost(1.0)
  {
    var basis := [[0.0], [1.0]];
    assert Reals([]) == [];
    assert Value(basis[0], []) == 0.0 && Value(basis[1], []) == 1.0;
    assert Unknowns(basis, []) == [0.0, 1.0];
    assert RealSum([0.0, 1.0]) == RealSum([0.0]) + 1.0;
  }

  /** The as-written basis of the example: button 0 is 0 presses and button 1 is 1 press, whatever the parameters. */
  lemma ExampleBasis(basis: seq<Row>)
    requires Expresses([[1.0, 1.0, 1.0], [0.0, 0.0, 1.0]], 2, [0, 2], basis, 1)
    ensures basis == [[0.0], [1.0]]
  {
    var m := [[1.0, 1.0, 1.0], [0.0, 0.0, 1.0]];
    assert Below([0, 2], 1) == 1;
    assert basis[1] == Unit(1, 0) == [1.0];
    assert BackRow(m[0], basis, 0, 1, 1) == Const(1, 1.0) == [1.0];
    assert basis[0] == BackRow(m[0], basis, 0, 2, 1) == [0.0];
  }

  /** Neither the example's augmented system nor its reduced form has a solution. */
  lemma ExampleUnsolvable(x: seq<real>)
    requires |x| == 2
    ensures !SolvesAll(Augmented([1, 2], [[1, 1], [1, 1]]), x)
    ensures !SolvesAll([[1.0, 1.0, 1.0], [0.0, 0.0, 1.0]], x)
  {
    var aug := Augmented([1, 2], [[1, 1], [1, 1]]);
    var r0, r1 := aug[0], aug[1];
    assert r0[0] == 1.0 && r0[1] == 1.0 && r0[2] == 1.0;
    assert r1[0] == 1.0 && r1[1] == 1.0 && r1[2] == 2.0;
    assert Dot(r0, x, 1) == x[0] && Dot(r1, x, 1) == x[0];
    assert Dot(r0, x, 2) == Dot(r1, x, 2);
    assert !Satisfies(r0, x) || !Satisfies(r1, x);
    var z := [0.0, 0.0, 1.0];
    assert Dot(z, x, 1) == 0.0;
    assert Dot(z, x, 2) == 0.0;
    assert !Satisfies(z, x);
    assert [[1.0, 1.0, 1.0], [0.0, 0.0, 1.0]][1] == z;
  }

  /** The missing check: a reduced row with no coefficients but a non-zero constant. */
  method Inconsistent(m: seq<Row>, variables: nat, ghost pivots: seq<nat>) returns (bad: bool)
    requires Echelon(m, variables + 1, pivots)
    ensures bad <==> !Consistent(pivots, variables)
  {
    var k := 0;
    while k < |m|
      invariant 0 <= k <= |m|
      invariant forall q :: 0 <= q < k && q < |pivots| ==> pivots[q] < variables
    {
      var pivotCol := PivotColumn(m[k], variables);
      if pivotCol == variables && m[k][variables] != 0.0 {
        assert k < |pivots| && pivots[k] == variables;
        return true;
      }
      if k < |pivots| {
        assert pivots[k] != variables;
      }
      k := k + 1;
    }
    return false;
  }

  /** `solve_part2_matrix` with the consistency check added: every answer is the total of a valid pressing, or 0 when there is none. */
  method SolveReduced(m: seq<Row>, variables: nat, ghost pivots: seq<nat>, fuel: nat)
    returns (outcome: Outcome, ghost found: seq<int>)
    requires Echelon(m, variables + 1, pivots)
    ensures !outcome.Infeasible?
    ensures outcome.Cost? ==> Answered(m, variables, outcome.total, found)
  {
    var bad := Inconsistent(m, variables, pivots);
    if bad {
      forall x: seq<int> | |x| == variables && NonNegative(x)
        ensures !SolvesAll(m, Reals(x))
      {
        if SolvesAll(m, Reals(x)) {
          SolvableConsistent(m, variables, pivots, Reals(x));
        }
      }
      return Cost(0.0), [];
    }
    ghost var basis;
    outcome, basis, found := SolveReducedAsWritten(m, variables, pivots, fuel);
  }

  /** The reduced system's answer is the machine's answer. */
  lemma AnsweredAcceptable(target: seq<int>, buttons: seq<seq<int>>, m: seq<Row>, total: real, found: seq<int>)
    requires SameSolutions(Augmented(target, buttons), m, |buttons|) && Answered(m, |buttons|, total, found)
    ensures Acceptable(target, buttons, total)
  {
    if |found| == |buttons| && NonNegative(found) && SolvesAll(m, Reals(found)) && Sum(found) as real == total {
      PressingSolves(target, buttons, found);
    } else {
      forall x | IsPressing(target, buttons, x)
        ensures false
      {
        PressingSolves(target, buttons, x);
      }
    }
  }

  /** Some real button counts, not necessarily whole or non-negative, meet every target. */
  ghost predicate RealSolvable(target: seq<int>, buttons: seq<seq<int>>)
  {
    exists x: seq<real> :: |x| == |buttons| && SolvesAll(Augmented(target, buttons), x)
  }

  /** `solve_part2_matrix` as written: its answer can be trusted only when the system has a real solution. */
  method SolveMachineAsWritten(machine: Counters, fuel: nat) returns (answer: Outcome)
    ensures RealSolvable(machine.joltage, machine.vectors) && answer.Cost? ==> Acceptable(machine.joltage, machine.vectors, answer.total)
  {
    var m, pivots := Eliminate(machine.joltage, machine.vectors);
    ghost var basis, found;
    answer, basis, found := SolveReducedAsWritten(m, |machine.vectors|, pivots, fuel);
    if RealSolvable(machine.joltage, machine.vectors) && answer.Cost? {
      var x: seq<real> :| |x| == |machine.vectors| && SolvesAll(Augmented(machine.joltage, machine.vectors), x);
      SolvableConsistent(m, |machine.vectors|, pivots, x);
      AnsweredAcceptable(machine.joltage, machine.vectors, m, answer.total, found);
    }
  }

  /** `solve_part2_matrix` with the consistency check: the answer of a machine, when the search completes. */
  method SolveMachine(machine: Counters, fuel: nat) returns (answer: Outcome)
    ensures !answer.Infeasible?
    ensures answer.Cost? ==> Acceptable(machine.joltage, machine.vectors, answer.total)
  {
    var m, pivots := Eliminate(machine.joltage, machine.vectors);
    ghost var found;
    answer, found := SolveReduced(m, |machine.vectors|, pivots, fuel);
    if answer.Cost? {
      AnsweredAcceptable(machine.joltage, machine.vectors, m, answer.total, found);
    }
  }

  /** An answer that is acceptable whenever the machine's equations have a real solution. */
  ghost predicate Trusted(machine: Counters, total: real)
  {
    RealSolvable(machine.joltage, machine.vectors) ==> Acceptable(machine.joltage, machine.vectors, total)
  }

  /** `sum(map(solve_part2_matrix, p2_data))` as written: an exception in any machine ends the sum, and the
      answers can be trusted only when every machine's equations have a real solution. */
  method PartTwo(machines: seq<Counters>, fuel: nat) returns (total: Outcome, ghost answers: seq<real>)
    ensures total.Cost? ==> |answers| == |machines| && total.total == RealSum(answers)
    ensures total.Cost? ==> forall k :: 0 <= k < |machines| && RealSolvable(machines[k].joltage, machines[k].vectors) ==>
      Acceptable(machines[k].joltage, machines[k].vectors, answers[k])
  {
    var sum := 0.0;
    answers := [];
    for k := 0 to |machines|
      invariant |answers| == k && sum == RealSum(answers)
      invariant forall q :: 0 <= q < k ==> Trusted(machines[q], answers[q])
    {
      var answer := SolveMachineAsWritten(machines[k], fuel);
      if !answer.Cost? {
        return answer, answers;
      }
      assert Trusted(machines[k], answer.total);
      RealSumAppend(answers, [answer.total]);
      answers := answers + [answer.total];
      sum := sum + answer.total;
    }
    return Cost(sum), answers;
  }

  /** The part 2 sum over the solver with the consistency check. */
  method PartTwoFixed(machines: seq<Counters>, fuel: nat) returns (total: Outcome, ghost answers: seq<real>)
    ensures total.Cost? ==> |answers| == |machines| && total.total == RealSum(answers)
    ensures total.Cost? ==> forall k :: 0 <= k < |machines| ==> Acceptable(machines[k].joltage, machines[k].vectors, answers[k])
    ensures !total.Infeasible?
  {
    var sum := 0.0;
    answers := [];
    for k := 0 to |machines|
      invariant |answers| == k && sum == RealSum(answers)
      invariant forall q :: 0 <= q < k ==> Acceptable(machines[q].joltage, machines[q].vectors, answers[q])
    {
      var answer := SolveMachine(machines[k], fuel);
      if !answer.Cost? {
        return answer, answers;
      }
      RealSumAppend(answers, [answer.total]);
      answers := answers + [answer.total];
      sum := sum + answer.total;
    }
    return Cost(sum), answers;
  }
}
