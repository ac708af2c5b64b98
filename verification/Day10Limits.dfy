/**
 * Day 10, part 2, step 3: `reduce_limits`, interval bounds for the free
 * parameters.  Every button count (a form of the basis) must stay
 * non-negative; from one form and the current limits of the other parameters
 * a parameter gets a new lower bound (positive coefficient) or upper bound
 * (negative coefficient).  Passes repeat until nothing changes or some limit
 * is empty.  The arithmetic mixes exact rationals with the float infinities,
 * so it is modelled over `Ext`.
 */
module Day10Limits {
  import opened Base
  import opened Day10Matrix
  import opened Day10Basis

  /** A Python number as this computation meets it: an exact rational, `math.inf`, `-math.inf` or NaN. */
  datatype Ext = Fin(v: real) | PosInf | NegInf | NaN

  /** `a - b`, with `inf - inf` giving NaN. */
  function Sub(a: Ext, b: Ext): Ext
  {
    match (a, b)
    case (NaN, _) => NaN
    case (_, NaN) => NaN
    case (Fin(x), Fin(y)) => Fin(x - y)
    case (PosInf, PosInf) => NaN
    case (NegInf, NegInf) => NaN
    case (PosInf, _) => PosInf
    case (NegInf, _) => NegInf
    case (Fin(_), PosInf) => NegInf
    case (Fin(_), NegInf) => PosInf
  }

  /** `a * e` for a non-zero rational `a`. */
  function Scale(a: real, e: Ext): Ext
    requires a != 0.0
  {
    match e
    case Fin(x) => Fin(a * x)
    case PosInf => if a > 0.0 then PosInf else NegInf
    case NegInf => if a > 0.0 then NegInf else PosInf
    case NaN => NaN
  }

  /** `e / a` for a non-zero rational `a`. */
  function Divide(e: Ext, a: real): Ext
    requires a != 0.0
  {
    match e
    case Fin(x) => Fin(x / a)
    case PosInf => if a > 0.0 then PosInf else NegInf
    case NegInf => if a > 0.0 then NegInf else PosInf
    case NaN => NaN
  }

  /** `a < b`; every comparison with NaN is false. */
  predicate Less(a: Ext, b: Ext)
  {
    match (a, b)
    case (Fin(x), Fin(y)) => x < y
    case (NegInf, Fin(_)) => true
    case (NegInf, PosInf) => true
    case (Fin(_), PosInf) => true
    case _ => false
  }

  /** `sorted([a, b])`: the second goes first only when it is smaller. */
  function Sort2(a: Ext, b: Ext): (Ext, Ext)
  {
    if Less(b, a) then (b, a) else (a, b)
  }

  /** `math.ceil` and `math.floor` of a rational. */
  function Ceil(x: real): (n: int)
    ensures n as real >= x && (n - 1) as real < x
  {
    -((-x).Floor)
  }

  function Floor(x: real): (n: int)
    ensures n as real <= x && x < (n + 1) as real
  {
    x.Floor
  }

  /** An upper limit: an integer or `math.inf`. */
  datatype Bound = Finite(n: int) | Infinity

  function HiExt(b: Bound): Ext
  {
    match b
    case Finite(n) => Fin(n as real)
    case Infinity => PosInf
  }

  /** The `[lo, hi]` pair of one parameter; the lower limit is always an integer. */
  datatype Limit = Limit(lo: int, hi: Bound)

  /** The starting limits: `[0, inf]` for an unset parameter, `[p, p]` for one set to `p`. */
  function Initial(free: seq<Option<int>>): (limits: seq<Limit>)
    ensures |limits| == |free|
  {
    seq(|free|, j requires 0 <= j < |free| => if free[j].None? then Limit(0, Infinity) else Limit(free[j].value, Finite(free[j].value)))
  }

  /** `x` lies in limit `l`. */
  predicate InLimit(x: int, l: Limit)
  {
    l.lo <= x && (l.hi.Finite? ==> x <= l.hi.n)
  }

  /** Every parameter of `p` lies in its limit. */
  predicate Within(p: seq<int>, limits: seq<Limit>)
  {
    |p| == |limits| && forall j :: 0 <= j < |p| ==> InLimit(p[j], limits[j])
  }

  /** `l'` is no wider than `l`: the lower limit only rises and the upper limit only falls. */
  predicate Narrower(l': Limit, l: Limit)
  {
    l'.lo >= l.lo && (l.hi.Finite? ==> l'.hi.Finite? && l'.hi.n <= l.hi.n)
  }

  /** Some limit is empty: its lower limit is above its finite upper limit. */
  predicate Dead(limits: seq<Limit>)
  {
    exists j :: 0 <= j < |limits| && limits[j].hi.Finite? && limits[j].lo > limits[j].hi.n
  }

  /** Parameters as rationals. */
  function Reals(p: seq<int>): (t: seq<real>)
    ensures |t| == |p| && forall j :: 0 <= j < |p| ==> t[j] == p[j] as real
  {
    seq(|p|, j requires 0 <= j < |p| => p[j] as real)
  }

  /** `p` keeps every parameter that is already set. */
  predicate Extends(p: seq<int>, free: seq<Option<int>>)
  {
    |p| == |free| && forall j :: 0 <= j < |p| && free[j].Some? ==> p[j] == free[j].value
  }

  /** The button count of form `row` is non-negative at `p`. */
  predicate NonNegativeAt(row: Row, p: seq<int>)
  {
    |row| == |p| + 1 && Value(row, Reals(p)) >= 0.0
  }

  /**
   * The parameter vectors the limits must keep: they extend the set
   * parameters, the unset ones are non-negative, and every button count is
   * non-negative.
   */
  ghost predicate Admissible(basis: seq<Row>, free: seq<Option<int>>, p: seq<int>)
  {
    Extends(p, free) &&
    (forall j :: 0 <= j < |p| && free[j].None? ==> p[j] >= 0) &&
    (forall r :: 0 <= r < |basis| ==> NonNegativeAt(basis[r], p))
  }

  /** The range of the term `coeff_j * p_j`: a single value for a set parameter, the sorted scaled limits for an unset one. */
  function TermRange(row: Row, free: seq<Option<int>>, limits: seq<Limit>, j: nat): (Ext, Ext)
    requires j < |free| && j < |row| && j < |limits| && row[j] != 0.0
  {
    if free[j].Some? then
      var val := Fin(free[j].value as real * row[j]);
      (val, val)
    else Sort2(Scale(row[j], Fin(limits[j].lo as real)), Scale(row[j], HiExt(limits[j].hi)))
  }

  /** The range of `-constant - sum(coeff_j * p_j)` over the terms `j < n` other than `i`, as the source computes it. */
  function PartialBounds(row: Row, free: seq<Option<int>>, limits: seq<Limit>, i: nat, n: nat): (Ext, Ext)
    requires |row| == |free| + 1 && |limits| == |free| && n <= |free|
  {
    if n == 0 then (Fin(-row[|row| - 1]), Fin(-row[|row| - 1]))
    else
      var prev := PartialBounds(row, free, limits, i, n - 1);
      if n - 1 == i || row[n - 1] == 0.0 then prev
      else
        var t := TermRange(row, free, limits, n - 1);
        (Sub(prev.0, t.0), Sub(prev.1, t.1))
  }

  /** `e` is a rational at most `x`, or `-inf`. */
  predicate AtMost(e: Ext, x: real)
  {
    e == NegInf || (e.Fin? && e.v <= x)
  }

  /** `e` is a rational at least `x`, or `inf`. */
  predicate AtLeast(e: Ext, x: real)
  {
    e == PosInf || (e.Fin? && e.v >= x)
  }

  /** The term range: its low end is rational or `-inf`, its high end rational or `inf`. */
  lemma TermShape(row: Row, free: seq<Option<int>>, limits: seq<Limit>, j: nat)
    requires j < |free| && j < |row| && j < |limits| && row[j] != 0.0
    ensures var t := TermRange(row, free, limits, j);
      (t.0.Fin? || t.0 == NegInf) && (t.1.Fin? || t.1 == PosInf)
  {
  }

  /** The term range holds the term at every parameter vector within the limits. */
  lemma TermSound(row: Row, free: seq<Option<int>>, limits: seq<Limit>, j: nat, p: seq<int>)
    requires j < |free| && j < |row| && |limits| == |free| && row[j] != 0.0
    requires Within(p, limits) && Extends(p, free)
    ensures var t := TermRange(row, free, limits, j);
      AtMost(t.0, row[j] * p[j] as real) && AtLeast(t.1, row[j] * p[j] as real)
  {
    if free[j].None? {
      assert InLimit(p[j], limits[j]);
      ScaledSound(row[j], limits[j], p[j]);
    }
  }

  /** Multiplying by a positive rational keeps an order; by a negative one, reverses it. */
  lemma MulOrder(a: real, u: real, v: real)
    requires u <= v
    ensures a > 0.0 ==> a * u <= a * v
    ensures a < 0.0 ==> a * v <= a * u
  {
    assert a * v - a * u == a * (v - u);
  }

  /** The sorted scaled limits hold the scaled value of everything in the limit. */
  lemma ScaledSound(a: real, l: Limit, x: int)
    requires a != 0.0 && InLimit(x, l)
    ensures var t := Sort2(Scale(a, Fin(l.lo as real)), Scale(a, HiExt(l.hi)));
      AtMost(t.0, a * x as real) && AtLeast(t.1, a * x as real)
  {
    var lo, xr := l.lo as real, x as real;
    MulOrder(a, lo, xr);
    assert Scale(a, Fin(lo)) == Fin(a * lo);
    if l.hi.Finite? {
      var hi := l.hi.n as real;
      MulOrder(a, xr, hi);
      assert Scale(a, HiExt(l.hi)) == Fin(a * hi);
      if a > 0.0 {
        assert !Less(Fin(a * hi), Fin(a * lo));
        assert Sort2(Fin(a * lo), Fin(a * hi)) == (Fin(a * lo), Fin(a * hi));
      } else if a * hi < a * lo {
        assert Sort2(Fin(a * lo), Fin(a * hi)) == (Fin(a * hi), Fin(a * lo));
      } else {
        assert a * hi == a * xr == a * lo;
      }
    }
  }

  /** The high end of the partial range is rational or `inf`, the low end rational or `-inf`: no NaN arises. */
  lemma {:induction false} PartialShape(row: Row, free: seq<Option<int>>, limits: seq<Limit>, i: nat, n: nat)
    requires |row| == |free| + 1 && |limits| == |free| && n <= |free|
    ensures var (b0, b1) := PartialBounds(row, free, limits, i, n);
      (b0.Fin? || b0 == PosInf) && (b1.Fin? || b1 == NegInf)
  {
    if n > 0 {
      PartialShape(row, free, limits, i, n - 1);
      var j := n - 1;
      if j != i && row[j] != 0.0 {
        TermShape(row, free, limits, j);
        SubHigh(PartialBounds(row, free, limits, i, n - 1).0, TermRange(row, free, limits, j).0);
      }
    }
  }

  /** `-constant - sum(coeff_j * p_j)` over the terms `j < n` other than `i`. */
  function Rest(row: Row, p: seq<int>, i: nat, n: nat): real
    requires |row| == |p| + 1 && n <= |p|
  {
    if n == 0 then -row[|row| - 1]
    else Rest(row, p, i, n - 1) - (if n - 1 == i then 0.0 else row[n - 1] * p[n - 1] as real)
  }

  /** Subtracting a term at least `y` from a low end at most `x` leaves a low end at most `x - y`. */
  lemma SubAtMost(b: Ext, x: real, t: Ext, y: real)
    requires AtMost(b, x) && AtLeast(t, y)
    ensures AtMost(Sub(b, t), x - y)
  {
  }

  /** Subtracting a rational or `-inf` from a rational or `inf` gives a rational or `inf`. */
  lemma SubHigh(b: Ext, t: Ext)
    requires (b.Fin? || b == PosInf) && (t.Fin? || t == NegInf)
    ensures var d := Sub(b, t); d.Fin? || d == PosInf
  {
  }

  /** One step of the partial range keeps the low end below the rest. */
  lemma PartialStep(row: Row, free: seq<Option<int>>, limits: seq<Limit>, i: nat, n: nat, p: seq<int>)
    requires |row| == |free| + 1 && |limits| == |free| && 0 < n <= |free|
    requires Within(p, limits) && Extends(p, free)
    requires AtMost(PartialBounds(row, free, limits, i, n - 1).1, Rest(row, p, i, n - 1))
    ensures AtMost(PartialBounds(row, free, limits, i, n).1, Rest(row, p, i, n))
  {
    var j := n - 1;
    if j != i && row[j] != 0.0 {
      TermSound(row, free, limits, j, p);
      SubAtMost(PartialBounds(row, free, limits, i, n - 1).1, Rest(row, p, i, n - 1), TermRange(row, free, limits, j).1, row[j] * p[j] as real);
    }
  }

  /** The low end of the partial range never exceeds the actual rest at a parameter vector within the limits. */
  lemma {:induction false} PartialSound(row: Row, free: seq<Option<int>>, limits: seq<Limit>, i: nat, n: nat, p: seq<int>)
    requires |row| == |free| + 1 && |limits| == |free| && n <= |free|
    requires Within(p, limits) && Extends(p, free)
    ensures AtMost(PartialBounds(row, free, limits, i, n).1, Rest(row, p, i, n))
  {
    if n > 0 {
      PartialSound(row, free, limits, i, n - 1, p);
      PartialStep(row, free, limits, i, n, p);
    }
  }

  /** The rest is the button count's value without the term of parameter `i`. */
  lemma {:induction false} RestDot(row: Row, p: seq<int>, i: nat, n: nat)
    requires |row| == |p| + 1 && n <= |p|
    ensures Dot(row, Reals(p), n) == (if i < n then row[i] * p[i] as real else 0.0) - Rest(row, p, i, n) - row[|row| - 1]
  {
    if n > 0 {
      RestDot(row, p, i, n - 1);
    }
  }

  /** The new limit of parameter `i` from form `row`: a raised lower limit for a positive coefficient, a lowered upper limit otherwise. */
  function NewLimit(row: Row, free: seq<Option<int>>, limits: seq<Limit>, i: nat): Limit
    requires |row| == |free| + 1 && |limits| == |free| && i < |free| && row[i] != 0.0
  {
    PartialShape(row, free, limits, i, |free|);
    Decide(PartialBounds(row, free, limits, i, |free|), row[i], limits[i])
  }

  /**
   * The update from the partial range `b` and coefficient `a`: scale the range,
   * sort it, and raise the lower limit to the ceiling of its low end (`a > 0`)
   * or lower the upper limit to the floor of its high end (`a < 0`).
   */
  function Decide(b: (Ext, Ext), a: real, l: Limit): Limit
    requires a != 0.0 && (b.0.Fin? || b.0 == PosInf) && (b.1.Fin? || b.1 == NegInf)
  {
    var s := Sort2(Divide(b.0, a), Divide(b.1, a));
    if a > 0.0 then
      if Less(Fin(l.lo as real), s.0) then Limit(Ceil(s.0.v), l.hi) else l
    else
      if Less(s.1, HiExt(l.hi)) then Limit(l.lo, Finite(Floor(s.1.v))) else l
  }

  /** The update keeps every value `x` of the limit with `a * x` at least the rest, when the range's low end is at most the rest. */
  lemma DecideSound(b: (Ext, Ext), a: real, l: Limit, rest: real, x: int)
    requires a != 0.0 && (b.0.Fin? || b.0 == PosInf) && (b.1.Fin? || b.1 == NegInf)
    requires AtMost(b.1, rest) && a * x as real >= rest && InLimit(x, l)
    ensures InLimit(x, Decide(b, a, l))
  {
    if a > 0.0 {
      LowerSound(b.0, b.1, a, rest, x);
    } else {
      UpperSound(b.0, b.1, a, rest, x);
    }
  }

  /** A non-negative button count leaves the term of parameter `i` at least the rest. */
  lemma RestBound(row: Row, p: seq<int>, i: nat)
    requires i < |p| && NonNegativeAt(row, p)
    ensures row[i] * p[i] as real >= Rest(row, p, i, |p|)
  {
    RestDot(row, p, i, |p|);
  }

  /** A new limit is never wider than the old one. */
  lemma NewLimitNarrower(row: Row, free: seq<Option<int>>, limits: seq<Limit>, i: nat)
    requires |row| == |free| + 1 && |limits| == |free| && i < |free| && row[i] != 0.0
    ensures Narrower(NewLimit(row, free, limits, i), limits[i])
  {
    PartialShape(row, free, limits, i, |free|);
  }

  /** For a positive coefficient the scaled low end of the range is a lower bound of every value `x` with `a * x >= rest`. */
  lemma LowerSound(b0: Ext, b1: Ext, a: real, rest: real, x: int)
    requires a > 0.0 && (b0.Fin? || b0 == PosInf) && AtMost(b1, rest) && a * x as real >= rest
    ensures var s0 := Sort2(Divide(b0, a), Divide(b1, a)).0;
      (s0.Fin? || s0 == NegInf) && (s0.Fin? ==> s0.v <= x as real)
  {
    if b1.Fin? {
      assert b1.v / a <= x as real by {
        assert b1.v <= a * x as real;
        assert b1.v / a <= (a * x as real) / a;
      }
    }
  }

  /** For a negative coefficient the scaled high end of the range is an upper bound of every value `x` with `a * x >= rest`. */
  lemma UpperSound(b0: Ext, b1: Ext, a: real, rest: real, x: int)
    requires a < 0.0 && (b0.Fin? || b0 == PosInf) && AtMost(b1, rest) && a * x as real >= rest
    ensures var s1 := Sort2(Divide(b0, a), Divide(b1, a)).1;
      (s1.Fin? || s1 == PosInf) && (s1.Fin? ==> s1.v >= x as real)
  {
    if b1.Fin? {
      assert b1.v / a >= x as real by {
        assert b1.v <= a * x as real;
        assert b1.v / a >= (a * x as real) / a;
      }
    }
  }

  /** A new limit never excludes a parameter vector within the limits at which this button count is non-negative. */
  lemma NewLimitSound(row: Row, free: seq<Option<int>>, limits: seq<Limit>, i: nat, p: seq<int>)
    requires |row| == |free| + 1 && |limits| == |free| && i < |free| && row[i] != 0.0
    requires Within(p, limits) && Extends(p, free) && NonNegativeAt(row, p)
    ensures InLimit(p[i], NewLimit(row, free, limits, i))
  {
    PartialShape(row, free, limits, i, |free|);
    PartialSound(row, free, limits, i, |free|, p);
    RestBound(row, p, i);
    assert InLimit(p[i], limits[i]);
    DecideSound(PartialBounds(row, free, limits, i, |free|), row[i], limits[i], Rest(row, p, i, |p|), p[i]);
  }

  /** The interval arithmetic over the other parameters, for parameter `i` of form `row`. */
  method PartialSums(row: Row, free: seq<Option<int>>, limits: seq<Limit>, i: nat) returns (b0: Ext, b1: Ext)
    requires |row| == |free| + 1 && |limits| == |free|
    ensures (b0, b1) == PartialBounds(row, free, limits, i, |free|)
  {
    var constant := row[|row| - 1];
    b0, b1 := Fin(-constant), Fin(-constant);
    var j := 0;
    while j < |free|
      invariant 0 <= j <= |free|
      invariant (b0, b1) == PartialBounds(row, free, limits, i, j)
    {
      if j == i || row[j] == 0.0 {
        j := j + 1;
        continue;
      }
      var coeff := row[j];
      ghost var t := TermRange(row, free, limits, j);
      if free[j].Some? {
        var val := Fin(free[j].value as real * coeff);
        assert t.0 == val == t.1;
        b0, b1 := Sub(b0, val), Sub(b1, val);
      } else {
        var termBounds := Sort2(Scale(coeff, Fin(limits[j].lo as real)), Scale(coeff, HiExt(limits[j].hi)));
        assert t == termBounds;
        b0, b1 := Sub(b0, termBounds.0), Sub(b1, termBounds.1);
      }
      assert (b0, b1) == PartialBounds(row, free, limits, i, j + 1);
      j := j + 1;
    }
  }

  /** Bounding parameter `i` from form `row`; `changed` is `limit_updated` being set. */
  method Tighten(row: Row, free: seq<Option<int>>, limits: seq<Limit>, i: nat) returns (limits': seq<Limit>, changed: bool)
    requires |row| == |free| + 1 && |limits| == |free| && i < |free| && row[i] != 0.0
    ensures limits' == limits[i := NewLimit(row, free, limits, i)]
    ensures changed <==> limits' != limits
  {
    var b0, b1 := PartialSums(row, free, limits, i);
    PartialShape(row, free, limits, i, |free|);
    var coeffI := row[i];
    var (s0, s1) := Sort2(Divide(b0, coeffI), Divide(b1, coeffI));
    limits', changed := limits, false;
    if coeffI > 0.0 {
      if Less(Fin(limits[i].lo as real), s0) {
        limits' := limits[i := Limit(Ceil(s0.v), limits[i].hi)];
        changed := true;
        assert limits'[i] != limits[i];
      }
    } else {
      if Less(s1, HiExt(limits[i].hi)) {
        limits' := limits[i := Limit(limits[i].lo, Finite(Floor(s1.v)))];
        changed := true;
        assert limits'[i] != limits[i];
      }
    }
  }

  /** How a pass may change the limits: set parameters keep theirs, the others only narrow, and no admissible vector is lost. */
  ghost predicate Refines(basis: seq<Row>, free: seq<Option<int>>, limits': seq<Limit>, limits: seq<Limit>)
  {
    |limits'| == |limits| == |free| &&
    (forall j :: 0 <= j < |limits| && free[j].Some? ==> limits'[j] == limits[j]) &&
    (forall j :: 0 <= j < |limits| ==> Narrower(limits'[j], limits[j])) &&
    (forall p :: Admissible(basis, free, p) && Within(p, limits) ==> Within(p, limits'))
  }

  lemma RefinesTrans(basis: seq<Row>, free: seq<Option<int>>, l3: seq<Limit>, l2: seq<Limit>, l1: seq<Limit>)
    requires Refines(basis, free, l3, l2) && Refines(basis, free, l2, l1)
    ensures Refines(basis, free, l3, l1)
  {
  }

  /** One update of the limits is a refinement. */
  lemma TightenRefines(basis: seq<Row>, r: nat, free: seq<Option<int>>, limits: seq<Limit>, i: nat)
    requires r < |basis| && Shaped(basis, |free| + 1) && |limits| == |free| && i < |free|
    requires free[i].None? && basis[r][i] != 0.0
    ensures Refines(basis, free, limits[i := NewLimit(basis[r], free, limits, i)], limits)
  {
    var limits' := limits[i := NewLimit(basis[r], free, limits, i)];
    NewLimitNarrower(basis[r], free, limits, i);
    forall p | Admissible(basis, free, p) && Within(p, limits)
      ensures Within(p, limits')
    {
      assert NonNegativeAt(basis[r], p);
      NewLimitSound(basis[r], free, limits, i, p);
    }
  }

  /** The limits of nothing changed. */
  lemma RefinesSelf(basis: seq<Row>, free: seq<Option<int>>, limits: seq<Limit>)
    requires |limits| == |free|
    ensures Refines(basis, free, limits, limits)
  {
  }

  /** The inner loops of one pass for form `r`: every unset parameter with a non-zero coefficient is bounded in turn. */
  method RowPass(basis: seq<Row>, r: nat, free: seq<Option<int>>, limits: seq<Limit>) returns (limits': seq<Limit>, updated: bool)
    requires r < |basis| && Shaped(basis, |free| + 1) && |limits| == |free|
    ensures Refines(basis, free, limits', limits)
    ensures !updated ==> limits' == limits
  {
    limits', updated := limits, false;
    RefinesSelf(basis, free, limits);
    var i := 0;
    while i < |free|
      invariant 0 <= i <= |free| && |limits'| == |free|
      invariant Refines(basis, free, limits', limits)
      invariant !updated ==> limits' == limits
    {
      if free[i].Some? || basis[r][i] == 0.0 {
        i := i + 1;
        continue;
      }
      var next, changed := Tighten(basis[r], free, limits', i);
      TightenRefines(basis, r, free, limits', i);
      RefinesTrans(basis, free, next, limits', limits);
      limits' := next;
      updated := updated || changed;
      i := i + 1;
    }
  }

  /** One pass of the `while limit_updated` loop over every form. */
  method Pass(basis: seq<Row>, free: seq<Option<int>>, limits: seq<Limit>) returns (limits': seq<Limit>, updated: bool)
    requires Shaped(basis, |free| + 1) && |limits| == |free|
    ensures Refines(basis, free, limits', limits)
    ensures !updated ==> limits' == limits
  {
    limits', updated := limits, false;
    RefinesSelf(basis, free, limits);
    var r := 0;
    while r < |basis|
      invariant 0 <= r <= |basis| && |limits'| == |free|
      invariant Refines(basis, free, limits', limits)
      invariant !updated ==> limits' == limits
    {
      var next, changed := RowPass(basis, r, free, limits');
      RefinesTrans(basis, free, next, limits', limits);
      limits' := next;
      updated := updated || changed;
      r := r + 1;
    }
  }

  /** Every admissible vector lies within the starting limits. */
  lemma InitialSound(basis: seq<Row>, free: seq<Option<int>>, p: seq<int>)
    requires Admissible(basis, free, p)
    ensures Within(p, Initial(free))
  {
  }

  /**
   * `reduce_limits`: passes until one changes nothing or some limit is empty.
   * The source's loop need not stop (two forms can keep raising each other's
   * lower limits when the upper limits are infinite), so at most `fuel`
   * passes are made and `None` stands for running out.  The result keeps the
   * set parameters at `[p, p]`, only narrows the starting limits, and keeps
   * every admissible parameter vector.
   */
  method ReduceLimits(basis: seq<Row>, free: seq<Option<int>>, fuel: nat) returns (result: Option<seq<Limit>>)
    requires Shaped(basis, |free| + 1)
    ensures result.Some? ==> Refines(basis, free, result.value, Initial(free))
    ensures result.Some? ==> forall p :: Admissible(basis, free, p) ==> Within(p, result.value)
  {
    var limits := Initial(free);
    RefinesSelf(basis, free, limits);
    var limitUpdated := true;
    var passes := 0;
    while limitUpdated
      invariant |limits| == |free| && passes <= fuel
      invariant Refines(basis, free, limits, Initial(free))
      decreases fuel - passes
    {
      if passes == fuel {
        return None;
      }
      passes := passes + 1;
      var next, updated := Pass(basis, free, limits);
      RefinesTrans(basis, free, next, limits, Initial(free));
      limits, limitUpdated := next, updated;
      if Dead(limits) {
        break;
      }
    }
    forall p | Admissible(basis, free, p)
      ensures Within(p, limits)
    {
      InitialSound(basis, free, p);
    }
    return Some(limits);
  }

  /** An empty limit leaves no parameter vector within the limits. */
  lemma DeadEmpty(limits: seq<Limit>, p: seq<int>)
    requires Dead(limits)
    ensures !Within(p, limits)
  {
  }
}
