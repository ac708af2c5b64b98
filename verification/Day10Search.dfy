/**
 * Day 10, part 2, step 4: `recursive_solver`, a branch-and-bound search over
 * integer values of the free parameters.  Each call narrows the limits, picks
 * the unset parameter with the tightest range, and tries its values in the
 * direction the cost gradient favours, recursing with the parameter set.
 */
module Day10Search {
  import opened Base
  import opened Day10Matrix
  import opened Day10Basis
  import opened Day10Limits

  /**
   * What a call ends with: a finite total, `math.inf` (no valid assignment
   * found), a raised exception, or, in the model only, exhausted fuel.
   */
  datatype Outcome = Cost(total: real) | Infeasible | Raised | OutOfFuel

  /** `res < min_total` for the two kinds of result that are numbers. */
  predicate Better(res: Outcome, best: Outcome)
  {
    res.Cost? && (best.Infeasible? || (best.Cost? && res.total < best.total))
  }

  /** Every parameter is set. */
  predicate AllSet(free: seq<Option<int>>)
  {
    forall j :: 0 <= j < |free| ==> free[j].Some?
  }

  /** The values of fully set parameters. */
  function Params(free: seq<Option<int>>): (p: seq<int>)
    requires AllSet(free)
    ensures Extends(p, free)
  {
    seq(|free|, j requires 0 <= j < |free| => free[j].value)
  }

  /** A rational with denominator 1. */
  predicate Whole(x: real)
  {
    x.Floor as real == x
  }

  /** A button count is valid: non-negative and whole. */
  predicate ValidCount(x: real)
  {
    x >= 0.0 && Whole(x)
  }

  /** The base case of `recursive_solver`: `inf` if some button count is invalid, otherwise their total. */
  function BaseOutcome(basis: seq<Row>, p: seq<int>): Outcome
    requires Shaped(basis, |p| + 1)
  {
    var counts := Unknowns(basis, Reals(p));
    if forall r :: 0 <= r < |counts| ==> ValidCount(counts[r]) then Cost(RealSum(counts)) else Infeasible
  }

  /** A solution of the search: it extends the set parameters, its unset ones are non-negative, and every button count is valid. */
  ghost predicate Solution(basis: seq<Row>, free: seq<Option<int>>, p: seq<int>)
  {
    Admissible(basis, free, p) &&
    Shaped(basis, |p| + 1) &&
    forall r :: 0 <= r < |basis| ==> Whole(Value(basis[r], Reals(p)))
  }

  /** With every parameter set, the base case gives a total exactly when those parameters are a solution. */
  lemma BaseOutcomeSolution(basis: seq<Row>, free: seq<Option<int>>)
    requires AllSet(free) && Shaped(basis, |free| + 1)
    ensures BaseOutcome(basis, Params(free)).Cost? <==> Solution(basis, free, Params(free))
    ensures forall p :: Solution(basis, free, p) ==> p == Params(free)
  {
    var p := Params(free);
    forall q | Solution(basis, free, q)
      ensures q == p
    {
    }
  }

  /** The base case loop: each button count is checked and added to the total. */
  method Evaluate(basis: seq<Row>, free: seq<Option<int>>) returns (outcome: Outcome)
    requires AllSet(free) && Shaped(basis, |free| + 1)
    ensures outcome == BaseOutcome(basis, Params(free))
  {
    ghost var counts := Unknowns(basis, Reals(Params(free)));
    var t := seq(|free|, j requires 0 <= j < |free| => free[j].value as real);
    assert t == Reals(Params(free));
    var total := 0.0;
    var r := 0;
    while r < |basis|
      invariant 0 <= r <= |basis|
      invariant forall q :: 0 <= q < r ==> ValidCount(counts[q])
      invariant total == RealSum(counts[..r])
    {
      var row := basis[r];
      var val := row[|row| - 1] + Dot(row, t, |t|);
      if val < 0.0 || !Whole(val) {
        return Infeasible;
      }
      assert counts[..r + 1] == counts[..r] + [val];
      RealSumAppend(counts[..r], [val]);
      total := total + val;
      r := r + 1;
    }
    assert counts[..r] == counts;
    return Cost(total);
  }

  /** The number of unset parameters: the depth the search can still go. */
  function Unset(free: seq<Option<int>>): nat
  {
    if free == [] then 0 else Unset(free[..|free| - 1]) + (if free[|free| - 1].None? then 1 else 0)
  }

  lemma {:induction false} UnsetDecreases(free: seq<Option<int>>, idx: nat, v: int)
    requires idx < |free| && free[idx].None?
    ensures Unset(free[idx := Some(v)]) < Unset(free)
  {
    var free' := free[idx := Some(v)];
    if idx < |free| - 1 {
      assert free'[..|free| - 1] == free[..|free| - 1][idx := Some(v)];
      UnsetDecreases(free[..|free| - 1], idx, v);
    } else {
      assert free'[..|free| - 1] == free[..|free| - 1];
    }
  }

  lemma {:induction false} AllSetUnset(free: seq<Option<int>>)
    requires AllSet(free)
    ensures Unset(free) == 0
  {
    if free != [] {
      AllSetUnset(free[..|free| - 1]);
    }
  }

  lemma {:induction false} NoneUnset(free: seq<Option<int>>)
    requires Unset(free) == 0
    ensures AllSet(free)
  {
    if free != [] {
      NoneUnset(free[..|free| - 1]);
      assert forall j :: 0 <= j < |free| - 1 ==> free[j] == free[..|free| - 1][j];
    }
  }

  /** `l[1]` as the key of `min`: `1e9` stands in for an infinite upper limit. */
  function Width(l: Limit): int
  {
    (if l.hi.Finite? then l.hi.n else 1000000000) - l.lo
  }

  /** `min(candidates, key=...)` over the unset parameters before `n`: the first of least width. */
  function Tightest(free: seq<Option<int>>, limits: seq<Limit>, n: nat): (best: Option<nat>)
    requires n <= |free| == |limits|
    ensures best.None? <==> forall j :: 0 <= j < n ==> free[j].Some?
    ensures best.Some? ==> best.value < n && free[best.value].None?
    ensures best.Some? ==> forall j :: 0 <= j < n && free[j].None? ==> Width(limits[best.value]) <= Width(limits[j])
    ensures best.Some? ==> forall j :: 0 <= j < best.value && free[j].None? ==> Width(limits[j]) > Width(limits[best.value])
  {
    if n == 0 then None
    else
      var b := Tightest(free, limits, n - 1);
      if free[n - 1].None? && (b.None? || Width(limits[n - 1]) < Width(limits[b.value])) then Some(n - 1) else b
  }

  /** The dead-path check: some limit has its lower end above its finite upper end. */
  method AnyEmpty(limits: seq<Limit>) returns (empty: bool)
    ensures empty == Dead(limits)
  {
    var j := 0;
    while j < |limits|
      invariant 0 <= j <= |limits|
      invariant forall q :: 0 <= q < j ==> !(limits[q].hi.Finite? && limits[q].lo > limits[q].hi.n)
    {
      if limits[j].hi.Finite? && limits[j].lo > limits[j].hi.n {
        return true;
      }
      j := j + 1;
    }
    return false;
  }

  /** A solution of the search with one more parameter set is a solution of the search, provided that parameter is non-negative. */
  lemma SolutionWiden(basis: seq<Row>, free: seq<Option<int>>, idx: nat, guess: int, p: seq<int>)
    requires idx < |free| && free[idx].None? && guess >= 0 && Solution(basis, free[idx := Some(guess)], p)
    ensures Solution(basis, free, p)
  {
    var free' := free[idx := Some(guess)];
    forall j | 0 <= j < |p| && free[j].Some?
      ensures p[j] == free[j].value
    {
      assert free'[j] == free[j];
    }
    forall j | 0 <= j < |p| && free[j].None?
      ensures p[j] >= 0
    {
      if j != idx {
        assert free'[j] == free[j];
      }
    }
  }

  /** A solution of the search whose parameter `idx` is `guess` is a solution once `idx` is set to `guess`. */
  lemma SolutionNarrow(basis: seq<Row>, free: seq<Option<int>>, idx: nat, p: seq<int>)
    requires idx < |free| && Solution(basis, free, p)
    ensures Solution(basis, free[idx := Some(p[idx])], p)
  {
  }

  /** What the search promises at parameters `free`: the found of a total is a solution with that total, and `inf` means there is none. */
  ghost predicate Answers(basis: seq<Row>, free: seq<Option<int>>, outcome: Outcome, found: seq<int>)
  {
    (outcome.Cost? ==> Solution(basis, free, found) && outcome.total == RealSum(Unknowns(basis, Reals(found)))) &&
    (outcome.Infeasible? ==> forall p :: !Solution(basis, free, p))
  }

  /**
   * `recursive_solver` with the free parameters `free` (`None` for unset).
   * A total is always the total of a solution, `inf` comes only when there
   * is no solution, and the exception is raised only when some unset
   * parameter has a negative gradient.  The total is not claimed to be the
   * least: an unbounded scan stops at the first total it finds.
   */
  method Solver(basis: seq<Row>, gradient: Row, free: seq<Option<int>>, fuel: nat) returns (outcome: Outcome, ghost found: seq<int>)
    requires Shaped(basis, |free| + 1) && |gradient| == |free| + 1
    ensures AllSet(free) && |basis| > 0 ==> outcome == BaseOutcome(basis, Params(free))
    ensures Answers(basis, free, outcome, found)
    ensures outcome.Raised? ==> |basis| == 0 || exists j :: 0 <= j < |free| && free[j].None? && gradient[j] < 0.0
    decreases Unset(free), 2
  {
    found := [];
    if |basis| == 0 {
      // `basis_vectors[0]` raises `IndexError`.
      return Raised, found;
    }
    if Unset(free) == 0 {
      NoneUnset(free);
      outcome := Evaluate(basis, free);
      BaseOutcomeSolution(basis, free);
      found := Params(free);
      return;
    }
    if AllSet(free) {
      AllSetUnset(free);
    }
    var reduced := ReduceLimits(basis, free, fuel);
    if reduced.None? {
      return OutOfFuel, found;
    }
    var limits := reduced.value;
    var dead := AnyEmpty(limits);
    if dead {
      forall p | Solution(basis, free, p)
        ensures false
      {
        DeadEmpty(limits, p);
      }
      return Infeasible, found;
    }
    var idx := Tightest(free, limits, |free|).value;
    assert limits[idx].lo >= 0 by {
      assert Narrower(limits[idx], Initial(free)[idx]);
    }
    // The limits are integers, so the least common multiple of their
    // denominators is 1 and the scans step by 1.
    if gradient[idx] >= 0.0 {
      outcome, found := ScanUp(basis, gradient, free, fuel, limits, idx);
    } else {
      if limits[idx].hi.Infinity? {
        return Raised, found;
      }
      outcome, found := ScanDown(basis, gradient, free, fuel, limits, idx);
    }
  }

  /** No parameter set yet: `[None] * n`. */
  function Unconstrained(n: nat): (free: seq<Option<int>>)
    ensures |free| == n && forall j :: 0 <= j < n ==> free[j].None?
  {
    seq(n, _ => None)
  }

  /**
   * The first call, `recursive_solver(basis_vectors, cost_gradient)`, with
   * every parameter unset; `basis_vectors[0]` raises on an empty basis.
   */
  method RecursiveSolver(basis: seq<Row>, gradient: Row, fuel: nat) returns (outcome: Outcome, ghost found: seq<int>)
    requires |basis| > 0 ==> |basis[0]| >= 1 && Shaped(basis, |basis[0]|) && |gradient| == |basis[0]|
    ensures |basis| == 0 ==> outcome.Raised?
    ensures |basis| > 0 ==> Answers(basis, Unconstrained(|basis[0]| - 1), outcome, found)
    ensures |basis| > 0 && |basis[0]| == 1 ==> outcome == BaseOutcome(basis, [])
    ensures outcome.Raised? ==> |basis| == 0 || exists j :: 0 <= j < |gradient| - 1 && gradient[j] < 0.0
  {
    if |basis| == 0 {
      return Raised, [];
    }
    var dims := |basis[0]|;
    var freeVars := Unconstrained(dims - 1);
    outcome, found := Solver(basis, gradient, freeVars, fuel);
    if dims == 1 {
      assert Params(freeVars) == [];
    }
  }

  /** The facts the scans rely on: the chosen parameter is unset, its limits are sound, and its lower limit is non-negative. */
  ghost predicate ScanReady(basis: seq<Row>, gradient: Row, free: seq<Option<int>>, limits: seq<Limit>, idx: nat)
  {
    Shaped(basis, |free| + 1) && |basis| > 0 && |gradient| == |free| + 1 && |limits| == |free| &&
    idx < |free| && free[idx].None? && limits[idx].lo >= 0 &&
    (limits[idx].hi.Finite? ==> limits[idx].lo <= limits[idx].hi.n) &&
    forall p :: Solution(basis, free, p) ==> Within(p, limits)
  }

  /** One value of the scanned parameter: recurse with it set, and keep the better result. */
  method Try(basis: seq<Row>, gradient: Row, free: seq<Option<int>>, fuel: nat, idx: nat, guess: int,
             minTotal: Outcome, ghost best: seq<int>)
    returns (stop: bool, minTotal': Outcome, ghost best': seq<int>)
    requires Shaped(basis, |free| + 1) && |basis| > 0 && |gradient| == |free| + 1 && idx < |free| && free[idx].None? && guess >= 0
    requires !minTotal.Raised? && !minTotal.OutOfFuel?
    requires minTotal.Cost? ==> Solution(basis, free, best) && minTotal.total == RealSum(Unknowns(basis, Reals(best)))
    ensures stop ==> (minTotal'.Raised? || minTotal'.OutOfFuel?)
    ensures minTotal'.Raised? ==> exists j :: 0 <= j < |free| && free[j].None? && gradient[j] < 0.0
    ensures !stop ==> !minTotal'.Raised? && !minTotal'.OutOfFuel?
    ensures !stop && minTotal'.Cost? ==> Solution(basis, free, best') && minTotal'.total == RealSum(Unknowns(basis, Reals(best')))
    ensures !stop && minTotal.Cost? ==> minTotal'.Cost?
    ensures !stop ==> forall p :: Solution(basis, free, p) && p[idx] == guess ==> minTotal'.Cost?
    decreases Unset(free), 0
  {
    var freeVars := free[idx := Some(guess)];
    UnsetDecreases(free, idx, guess);
    var res, w := Solver(basis, gradient, freeVars, fuel);
    if res.Raised? || res.OutOfFuel? {
      return true, res, w;
    }
    stop, minTotal', best' := false, minTotal, best;
    if Better(res, minTotal) {
      minTotal', best' := res, w;
      SolutionWiden(basis, free, idx, guess, w);
    }
    forall p | Solution(basis, free, p) && p[idx] == guess
      ensures minTotal'.Cost?
    {
      SolutionNarrow(basis, free, idx, p);
      assert freeVars == free[idx := Some(p[idx])];
    }
  }

  /** The search upwards from the lower limit, to the upper limit or, with no upper limit, to the first total found. */
  method ScanUp(basis: seq<Row>, gradient: Row, free: seq<Option<int>>, fuel: nat, limits: seq<Limit>, idx: nat)
    returns (outcome: Outcome, ghost found: seq<int>)
    requires ScanReady(basis, gradient, free, limits, idx)
    ensures Answers(basis, free, outcome, found)
    ensures outcome.Raised? ==> exists j :: 0 <= j < |free| && free[j].None? && gradient[j] < 0.0
    decreases Unset(free), 1
  {
    var minLim, maxLim := limits[idx].lo, limits[idx].hi;
    var minTotal := Infeasible;
    found := [];
    var guess := minLim;
    var isUnbounded := maxLim.Infinity?;
    var steps := 0;
    while isUnbounded || guess <= maxLim.n
      invariant minLim <= guess && (!isUnbounded ==> guess <= maxLim.n + 1) && (isUnbounded ==> steps <= fuel)
      invariant !minTotal.Raised? && !minTotal.OutOfFuel?
      invariant minTotal.Cost? ==> Solution(basis, free, found) && minTotal.total == RealSum(Unknowns(basis, Reals(found)))
      invariant forall p :: Solution(basis, free, p) && p[idx] < guess ==> minTotal.Cost?
      decreases if isUnbounded then fuel - steps else maxLim.n + 1 - guess
    {
      if isUnbounded && steps == fuel {
        return OutOfFuel, found;
      }
      steps := steps + 1;
      var stop;
      ghost var before := minTotal;
      stop, minTotal, found := Try(basis, gradient, free, fuel, idx, guess, minTotal, found);
      if stop {
        return minTotal, found;
      }
      forall p | Solution(basis, free, p) && p[idx] < guess + 1
        ensures minTotal.Cost?
      {
        if p[idx] < guess {
          assert before.Cost?;
        }
      }
      guess := guess + 1;
      if minTotal.Cost? && isUnbounded {
        break;
      }
    }
    forall p | Solution(basis, free, p)
      ensures minTotal.Cost?
    {
      assert Within(p, limits);
      assert InLimit(p[idx], limits[idx]);
    }
    return minTotal, found;
  }

  /** The search downwards from the finite upper limit to the lower limit. */
  method ScanDown(basis: seq<Row>, gradient: Row, free: seq<Option<int>>, fuel: nat, limits: seq<Limit>, idx: nat)
    returns (outcome: Outcome, ghost found: seq<int>)
    requires ScanReady(basis, gradient, free, limits, idx) && limits[idx].hi.Finite?
    ensures Answers(basis, free, outcome, found)
    ensures outcome.Raised? ==> exists j :: 0 <= j < |free| && free[j].None? && gradient[j] < 0.0
    decreases Unset(free), 1
  {
    var minLim, maxLim := limits[idx].lo, limits[idx].hi.n;
    var minTotal := Infeasible;
    found := [];
    var guess := maxLim;
    // `is_unbounded` is always false here: a lower limit starts at 0 or a set value and only rises.
    while guess >= minLim
      invariant guess <= maxLim
      invariant !minTotal.Raised? && !minTotal.OutOfFuel?
      invariant minTotal.Cost? ==> Solution(basis, free, found) && minTotal.total == RealSum(Unknowns(basis, Reals(found)))
      invariant forall p :: Solution(basis, free, p) && guess < p[idx] <= maxLim ==> minTotal.Cost?
      decreases guess - minLim
    {
      var stop;
      ghost var before := minTotal;
      stop, minTotal, found := Try(basis, gradient, free, fuel, idx, guess, minTotal, found);
      if stop {
        return minTotal, found;
      }
      forall p | Solution(basis, free, p) && guess - 1 < p[idx] <= maxLim
        ensures minTotal.Cost?
      {
        if guess < p[idx] {
          assert before.Cost?;
        }
      }
      guess := guess - 1;
    }
    forall p | Solution(basis, free, p)
      ensures minTotal.Cost?
    {
      assert Within(p, limits);
      assert InLimit(p[idx], limits[idx]);
    }
    return minTotal, found;
  }
}
