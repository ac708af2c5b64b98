/**
 * Day 10, part 2, step 2: from the reduced system to `basis_vectors`.  Each
 * button count is written as an affine form in the free parameters: a free
 * button is one parameter, a pivot button is what its row leaves once the
 * buttons to its right are known.  Row `c` of the basis holds the
 * coefficients of button `c` for each parameter, then its constant.
 */
module Day10Basis {
  import opened Base
  import opened Day10Matrix

  /** The value of an affine form (coefficients for the parameters, then the constant) at parameters `t`. */
  function Value(form: Row, t: seq<real>): real
    requires |form| == |t| + 1
  {
    Dot(form, t, |t|) + form[|t|]
  }

  /** Every form of `basis` has `dims` entries. */
  predicate Shaped(basis: seq<Row>, dims: nat)
  {
    forall c :: 0 <= c < |basis| ==> |basis[c]| == dims
  }

  /** The button counts the basis gives for parameters `t`. */
  function Unknowns(basis: seq<Row>, t: seq<real>): (x: seq<real>)
    requires Shaped(basis, |t| + 1)
    ensures |x| == |basis|
    ensures forall c :: 0 <= c < |basis| ==> x[c] == Value(basis[c], t)
  {
    seq(|basis|, c requires 0 <= c < |basis| => Value(basis[c], t))
  }

  function Zeros(n: nat): (r: Row)
    ensures |r| == n && forall c :: 0 <= c < n ==> r[c] == 0.0
  {
    seq(n, _ => 0.0)
  }

  /** The form of a free button: 1 on parameter `i`, 0 elsewhere. */
  function Unit(n: nat, i: int): (r: Row)
    ensures |r| == n && forall c :: 0 <= c < n ==> r[c] == if c == i then 1.0 else 0.0
  {
    seq(n, c => if c == i then 1.0 else 0.0)
  }

  lemma {:induction false} DotZero(r: Row, x: seq<real>, n: nat)
    requires n <= |r| && n <= |x| && forall c :: 0 <= c < n ==> r[c] == 0.0
    ensures Dot(r, x, n) == 0.0
  {
    if n > 0 {
      DotZero(r, x, n - 1);
    }
  }

  lemma {:induction false} DotUnit(n: nat, i: nat, x: seq<real>, k: nat)
    requires k <= n && k <= |x| && i < |x|
    ensures Dot(Unit(n, i), x, k) == if i < k then x[i] else 0.0
  {
    if k > 0 {
      DotUnit(n, i, x, k - 1);
    }
  }

  /** A free button's count is its parameter. */
  lemma UnitValue(n: nat, i: nat, t: seq<real>)
    requires n == |t| + 1 && i < |t|
    ensures Value(Unit(n, i), t) == t[i]
  {
    DotUnit(n, i, t, |t|);
  }

  /** The value of `r - f * s` is the value of `r` minus `f` times the value of `s`. */
  lemma ValueSub(r: Row, s: Row, f: real, t: seq<real>)
    requires |r| == |t| + 1 && |s| == |r|
    ensures Value(SubRow(r, s, f), t) == Value(r, t) - f * Value(s, t)
  {
    DotSub(r, s, f, t, |t|);
  }

  predicate NonZeroRow(row: Row)
  {
    exists c :: 0 <= c < |row| && row[c] != 0.0
  }

  /** `sum(any(x != 0 for x in row) for row in matrix)`. */
  function NonZeroRows(m: seq<Row>): nat
  {
    CountIf(m, NonZeroRow)
  }

  lemma {:induction false} NonZeroPrefix(m: seq<Row>, cols: nat, pivots: seq<nat>, n: nat)
    requires Echelon(m, cols, pivots) && n <= |m|
    ensures CountIf(m[..n], NonZeroRow) == if n <= |pivots| then n else |pivots|
  {
    if n > 0 {
      assert m[..n][..n - 1] == m[..n - 1];
      NonZeroPrefix(m, cols, pivots, n - 1);
      if n - 1 < |pivots| {
        assert m[n - 1][pivots[n - 1]] != 0.0;
      } else {
        assert !NonZeroRow(m[n - 1]);
      }
    }
  }

  /** In echelon form the non-zero rows are exactly the pivot rows: `constraints` is the rank. */
  lemma ConstraintsArePivots(m: seq<Row>, cols: nat, pivots: seq<nat>)
    requires Echelon(m, cols, pivots)
    ensures NonZeroRows(m) == |pivots|
  {
    NonZeroPrefix(m, cols, pivots, |m|);
    assert m[..|m|] == m;
  }

  /** No pivot sits in the constant column: the system has no row `0 = b` with `b != 0`. */
  predicate Consistent(pivots: seq<nat>, variables: nat)
  {
    forall k :: 0 <= k < |pivots| ==> pivots[k] < variables
  }

  /** A reduced system with a solution is consistent. */
  lemma SolvableConsistent(m: seq<Row>, variables: nat, pivots: seq<nat>, x: seq<real>)
    requires Echelon(m, variables + 1, pivots) && |x| == variables && SolvesAll(m, x)
    ensures Consistent(pivots, variables)
  {
    forall k | 0 <= k < |pivots|
      ensures pivots[k] < variables
    {
      if pivots[k] == variables {
        DotZero(m[k], x, variables);
        assert false;
      }
    }
  }

  lemma {:induction false} Spread(pivots: seq<nat>, i: nat, j: nat)
    requires forall a, b :: 0 <= a < b < |pivots| ==> pivots[a] < pivots[b]
    requires i <= j < |pivots|
    ensures pivots[j] >= pivots[i] + (j - i)
    decreases j - i
  {
    if i < j {
      Spread(pivots, i + 1, j);
    }
  }

  /** A consistent system has no more constraints than buttons, so `dims` is at least 1. */
  lemma ConstraintsFit(m: seq<Row>, variables: nat, pivots: seq<nat>)
    requires Echelon(m, variables + 1, pivots) && Consistent(pivots, variables)
    ensures |pivots| <= variables
  {
    if |pivots| > 0 {
      Spread(pivots, 0, |pivots| - 1);
    }
  }

  /** The number of pivot columns before column `c`. */
  function Below(pivots: seq<nat>, c: nat): (n: nat)
    ensures n <= |pivots|
  {
    if pivots == [] then 0
    else Below(pivots[..|pivots| - 1], c) + (if pivots[|pivots| - 1] < c then 1 else 0)
  }

  lemma {:induction false} BelowSplit(pivots: seq<nat>, c: nat, r: nat)
    requires r <= |pivots|
    requires forall k :: 0 <= k < r ==> pivots[k] < c
    requires forall k :: r <= k < |pivots| ==> pivots[k] >= c
    ensures Below(pivots, c) == r
  {
    if pivots != [] {
      var init := pivots[..|pivots| - 1];
      if r == |pivots| {
        BelowSplit(init, c, r - 1);
      } else {
        BelowSplit(init, c, r);
      }
    }
  }

  /** The parameter slot of free column `c`: the number of free columns before it. */
  function FreeIndex(pivots: seq<nat>, c: nat): int
  {
    c - Below(pivots, c)
  }

  /** The form every button has once the free columns are marked: a unit for a free button, zeros for a pivot button. */
  function Marked(pivots: seq<nat>, dims: nat, c: nat): Row
  {
    if c in pivots then Zeros(dims) else Unit(dims, FreeIndex(pivots, c))
  }

  /**
   * The free-column loop of `solve_part2_matrix`: `row_ptr` walks down the
   * pivot rows, and every column that is not the next pivot gets a 1 in the
   * next parameter slot.
   */
  method MarkFree(m: seq<Row>, variables: nat, constraints: nat, dims: nat, ghost pivots: seq<nat>) returns (basis: seq<Row>)
    requires Echelon(m, variables + 1, pivots) && constraints == |pivots|
    requires constraints <= variables && dims == variables - constraints + 1
    ensures |basis| == variables && Shaped(basis, dims)
    ensures forall c :: 0 <= c < variables ==> basis[c] == Marked(pivots, dims, c)
    ensures forall c :: 0 <= c < variables && c !in pivots ==> FreeIndex(pivots, c) < dims
  {
    basis := seq(variables, _ => Zeros(dims));
    var paramIdx := 0;
    var rowPtr := 0;
    var col := 0;
    while col < variables
      invariant 0 <= col <= variables && Walked(pivots, rowPtr, col)
      invariant paramIdx == col - rowPtr
      invariant basis == MarkedUpTo(pivots, dims, col, variables)
      invariant forall c :: 0 <= c < col && c !in pivots ==> FreeIndex(pivots, c) < dims
    {
      basis, rowPtr, paramIdx := MarkColumn(m, variables, constraints, dims, pivots, basis, col, rowPtr, paramIdx);
      col := col + 1;
    }
  }

  /** One pass of the free-column loop: column `col` is either the next pivot or the next free parameter. */
  method MarkColumn(m: seq<Row>, variables: nat, constraints: nat, dims: nat, ghost pivots: seq<nat>,
                    basis: seq<Row>, col: nat, rowPtr: nat, paramIdx: nat)
    returns (basis': seq<Row>, rowPtr': nat, paramIdx': nat)
    requires Echelon(m, variables + 1, pivots) && constraints == |pivots|
    requires constraints <= variables && dims == variables - constraints + 1
    requires col < variables && Walked(pivots, rowPtr, col) && paramIdx == col - rowPtr
    requires basis == MarkedUpTo(pivots, dims, col, variables)
    ensures Walked(pivots, rowPtr', col + 1) && paramIdx' == col + 1 - rowPtr'
    ensures basis' == MarkedUpTo(pivots, dims, col + 1, variables)
    ensures col !in pivots ==> FreeIndex(pivots, col) < dims
  {
    BelowSplit(pivots, col, rowPtr);
    basis', rowPtr', paramIdx' := basis, rowPtr, paramIdx;
    if rowPtr < constraints && m[rowPtr][col] != 0.0 {
      PivotColumnTaken(m, variables, pivots, col, rowPtr);
      MarkedStep(pivots, dims, col, variables, basis);
      rowPtr' := rowPtr + 1;
    } else {
      FreeColumn(m, variables, pivots, col, rowPtr);
      assert basis[col] == Zeros(dims);
      basis' := basis[col := basis[col][paramIdx := 1.0]];
      assert basis'[col] == Unit(dims, paramIdx);
      MarkedStep(pivots, dims, col, variables, basis');
      paramIdx' := paramIdx + 1;
    }
  }

  /** `row_ptr` has passed exactly the pivots before column `col`. */
  ghost predicate Walked(pivots: seq<nat>, rowPtr: nat, col: nat)
  {
    rowPtr <= |pivots| &&
    (forall k :: 0 <= k < rowPtr ==> pivots[k] < col) &&
    (forall k :: rowPtr <= k < |pivots| ==> pivots[k] >= col)
  }

  /** The basis once the columns before `col` are marked. */
  function MarkedUpTo(pivots: seq<nat>, dims: nat, col: nat, variables: nat): (b: seq<Row>)
    ensures |b| == variables && Shaped(b, dims)
  {
    seq(variables, (c: nat) => if c < col then Marked(pivots, dims, c) else Zeros(dims))
  }

  /** Marking column `col`: the basis form of `col` becomes its marked form, nothing else changes. */
  lemma MarkedStep(pivots: seq<nat>, dims: nat, col: nat, variables: nat, basis: seq<Row>)
    requires col < variables && |basis| == variables
    requires forall c :: 0 <= c < variables && c != col ==> basis[c] == MarkedUpTo(pivots, dims, col, variables)[c]
    requires basis[col] == Marked(pivots, dims, col)
    ensures basis == MarkedUpTo(pivots, dims, col + 1, variables)
  {
  }

  /** A column the free-column loop takes as the next pivot is that pivot. */
  lemma PivotColumnTaken(m: seq<Row>, variables: nat, pivots: seq<nat>, col: nat, rowPtr: nat)
    requires Echelon(m, variables + 1, pivots) && col < variables && Walked(pivots, rowPtr, col)
    requires rowPtr < |pivots| && m[rowPtr][col] != 0.0
    ensures pivots[rowPtr] == col && col in pivots
    ensures Walked(pivots, rowPtr + 1, col + 1)
  {
    forall k | rowPtr + 1 <= k < |pivots|
      ensures pivots[k] >= col + 1
    {
      assert pivots[rowPtr] < pivots[k];
    }
  }

  /** A column the free-column loop does not take as the next pivot is free, and its slot is a parameter slot. */
  lemma FreeColumn(m: seq<Row>, variables: nat, pivots: seq<nat>, col: nat, rowPtr: nat)
    requires Echelon(m, variables + 1, pivots) && col < variables && Walked(pivots, rowPtr, col)
    requires !(rowPtr < |pivots| && m[rowPtr][col] != 0.0)
    ensures col !in pivots
    ensures col - rowPtr < variables - |pivots| + 1
    ensures Walked(pivots, rowPtr, col + 1)
  {
    if rowPtr < |pivots| {
      assert pivots[rowPtr] != col;
      forall k | rowPtr < k < |pivots|
        ensures pivots[k] != col
      {
        assert pivots[rowPtr] < pivots[k];
      }
      Spread(pivots, rowPtr, |pivots| - 1);
    }
  }

  /** The constant form `v`. */
  function Const(dims: nat, v: real): (r: Row)
    requires dims >= 1
    ensures |r| == dims
  {
    Zeros(dims)[dims - 1 := v]
  }

  /**
   * The form of pivot button `pc` after the back substitution of its row has
   * gone up to column `l`: the row's constant minus, for each later column,
   * the row's entry times that button's form.
   */
  ghost function BackRow(row: Row, basis: seq<Row>, pc: nat, l: nat, dims: nat): (r: Row)
    requires pc < l <= |basis| && l < |row| && dims >= 1 && Shaped(basis, dims)
    ensures |r| == dims
    decreases l
  {
    if l == pc + 1 then Const(dims, row[|row| - 1])
    else SubRow(BackRow(row, basis, pc, l - 1, dims), basis[l - 1], row[l - 1])
  }

  /** `BackRow` reads only the forms to the right of the pivot. */
  lemma {:induction false} BackRowFrame(row: Row, b1: seq<Row>, b2: seq<Row>, pc: nat, l: nat, dims: nat)
    requires pc < l <= |b1| && |b1| == |b2| && l < |row| && dims >= 1 && Shaped(b1, dims) && Shaped(b2, dims)
    requires forall j :: pc < j < l ==> b1[j] == b2[j]
    ensures BackRow(row, b1, pc, l, dims) == BackRow(row, b2, pc, l, dims)
    decreases l
  {
    if l > pc + 1 {
      BackRowFrame(row, b1, b2, pc, l - 1, dims);
    }
  }

  /** `sum(r[c] * x[c] for lo <= c < hi)`. */
  function Span(r: Row, x: seq<real>, lo: nat, hi: nat): real
    requires lo <= hi <= |r| && hi <= |x|
    decreases hi
  {
    if hi == lo then 0.0 else Span(r, x, lo, hi - 1) + r[hi - 1] * x[hi - 1]
  }

  lemma {:induction false} SpanFirst(r: Row, x: seq<real>, lo: nat, hi: nat)
    requires lo < hi <= |r| && hi <= |x|
    ensures Span(r, x, lo, hi) == r[lo] * x[lo] + Span(r, x, lo + 1, hi)
    decreases hi
  {
    if hi > lo + 1 {
      SpanFirst(r, x, lo, hi - 1);
    }
  }

  lemma {:induction false} SpanDot(r: Row, x: seq<real>, n: nat)
    requires n <= |r| && n <= |x|
    ensures Span(r, x, 0, n) == Dot(r, x, n)
  {
    if n > 0 {
      SpanDot(r, x, n - 1);
    }
  }

  /** Leading zeros add nothing. */
  lemma {:induction false} SpanSkipZeros(r: Row, x: seq<real>, lo: nat, hi: nat)
    requires lo <= hi <= |r| && hi <= |x| && forall c :: 0 <= c < lo ==> r[c] == 0.0
    ensures Span(r, x, 0, hi) == Span(r, x, lo, hi)
    decreases lo
  {
    if lo > 0 {
      SpanFirst(r, x, lo - 1, hi);
      SpanSkipZeros(r, x, lo - 1, hi);
    }
  }

  /** The pivot button's value is the row's constant minus the later buttons' contributions. */
  lemma {:induction false} BackRowValue(row: Row, basis: seq<Row>, pc: nat, l: nat, t: seq<real>)
    requires pc < l <= |basis| && l < |row| && Shaped(basis, |t| + 1)
    ensures Value(BackRow(row, basis, pc, l, |t| + 1), t) == row[|row| - 1] - Span(row, Unknowns(basis, t), pc + 1, l)
    decreases l
  {
    var dims := |t| + 1;
    if l == pc + 1 {
      DotZero(Const(dims, row[|row| - 1]), t, |t|);
    } else {
      var prev := BackRow(row, basis, pc, l - 1, dims);
      var x := Unknowns(basis, t);
      BackRowValue(row, basis, pc, l - 1, t);
      ValueSub(prev, basis[l - 1], row[l - 1], t);
      assert BackRow(row, basis, pc, l, dims) == SubRow(prev, basis[l - 1], row[l - 1]);
      assert x[l - 1] == Value(basis[l - 1], t);
      assert Span(row, x, pc + 1, l) == Span(row, x, pc + 1, l - 1) + row[l - 1] * x[l - 1];
    }
  }

  /** The inner loop of the back substitution: `form[m] -= factor * other[m]` for every slot. */
  method SubtractForm(form: Row, other: Row, factor: real) returns (form': Row)
    requires |other| == |form|
    ensures form' == SubRow(form, other, factor)
  {
    form' := form;
    var m := 0;
    while m < |form|
      invariant 0 <= m <= |form| && |form'| == |form|
      invariant forall d :: 0 <= d < |form| ==> form'[d] == if d < m then form[d] - other[d] * factor else form[d]
    {
      form' := form'[m := form'[m] - factor * other[m]];
      m := m + 1;
    }
    assert forall d :: 0 <= d < |form| ==> form'[d] == SubRow(form, other, factor)[d];
  }

  /** The pivot search of the back substitution: the first non-zero coefficient, or `variables`. */
  method PivotColumn(row: Row, variables: nat) returns (pivotCol: nat)
    requires variables <= |row|
    ensures pivotCol <= variables
    ensures forall c :: 0 <= c < pivotCol ==> row[c] == 0.0
    ensures pivotCol < variables ==> row[pivotCol] != 0.0
  {
    pivotCol := 0;
    while pivotCol < variables && row[pivotCol] == 0.0
      invariant pivotCol <= variables
      invariant forall c :: 0 <= c < pivotCol ==> row[c] == 0.0
    {
      pivotCol := pivotCol + 1;
    }
  }

  /** The forms of pivot rows `k` and later are final; the others are still as marked. */
  ghost predicate BackDone(m: seq<Row>, variables: nat, dims: nat, pivots: seq<nat>, basis: seq<Row>, k: nat)
    requires Echelon(m, variables + 1, pivots) && |basis| == variables && Shaped(basis, dims) && dims >= 1
  {
    (forall c :: 0 <= c < variables && c !in pivots ==> basis[c] == Marked(pivots, dims, c)) &&
    (forall j :: 0 <= j < k && j < |pivots| && pivots[j] < variables ==> basis[pivots[j]] == Zeros(dims)) &&
    (forall j :: k <= j < |pivots| && pivots[j] < variables ==> basis[pivots[j]] == BackRow(m[j], basis, pivots[j], variables, dims))
  }

  /** The loop over the later columns of one pivot row: the pivot button's form becomes `BackRow`, the others stay. */
  method PivotForm(row: Row, basis: seq<Row>, pc: nat, variables: nat, dims: nat) returns (basis': seq<Row>)
    requires pc < variables == |basis| && |row| == variables + 1 && dims >= 1
    requires Shaped(basis, dims) && basis[pc] == Zeros(dims)
    ensures |basis'| == variables && Shaped(basis', dims)
    ensures forall j :: 0 <= j < variables && j != pc ==> basis'[j] == basis[j]
    ensures basis'[pc] == BackRow(row, basis', pc, variables, dims)
  {
    basis' := basis[pc := basis[pc][dims - 1 := row[variables]]];
    assert basis'[pc] == BackRow(row, basis', pc, pc + 1, dims);
    var l := pc + 1;
    while l < variables
      invariant pc + 1 <= l <= variables && |basis'| == variables && Shaped(basis', dims)
      invariant forall j :: 0 <= j < variables && j != pc ==> basis'[j] == basis[j]
      invariant basis'[pc] == BackRow(row, basis', pc, l, dims)
    {
      var factor := row[l];
      var form := SubtractForm(basis'[pc], basis'[l], factor);
      ghost var before := basis';
      basis' := basis'[pc := form];
      BackRowFrame(row, before, basis', pc, l + 1, dims);
      l := l + 1;
    }
  }

  /** The back substitution for one pivot row `k` whose pivot is a button column. */
  method SubstituteRow(m: seq<Row>, variables: nat, dims: nat, ghost pivots: seq<nat>, basis: seq<Row>, k: nat, pc: nat)
    returns (basis': seq<Row>)
    requires Echelon(m, variables + 1, pivots) && |basis| == variables && Shaped(basis, dims) && dims >= 1
    requires k < |pivots| && pc == pivots[k] < variables && BackDone(m, variables, dims, pivots, basis, k + 1)
    ensures |basis'| == variables && Shaped(basis', dims)
    ensures BackDone(m, variables, dims, pivots, basis', k)
  {
    basis' := PivotForm(m[k], basis, pc, variables, dims);
    assert pc !in pivots[..k] && pc !in pivots[k + 1..] by {
      forall j | 0 <= j < |pivots| && j != k
        ensures pivots[j] != pc
      {
      }
    }
    forall j | k < j < |pivots| && pivots[j] < variables
      ensures basis'[pivots[j]] == BackRow(m[j], basis', pivots[j], variables, dims)
    {
      assert pivots[k] < pivots[j];
      BackRowFrame(m[j], basis, basis', pivots[j], variables, dims);
    }
  }

  /**
   * The back substitution of `solve_part2_matrix`: from the last pivot row
   * up, each pivot button's form becomes its row's constant minus the later
   * buttons' forms times the row's entries.  A row whose only non-zero entry
   * is its constant is skipped.
   */
  method BackSubstitute(m: seq<Row>, variables: nat, constraints: nat, dims: nat, basis0: seq<Row>, ghost pivots: seq<nat>)
    returns (basis: seq<Row>)
    requires Echelon(m, variables + 1, pivots) && constraints == |pivots| && dims >= 1
    requires |basis0| == variables && Shaped(basis0, dims)
    requires forall c :: 0 <= c < variables ==> basis0[c] == Marked(pivots, dims, c)
    ensures |basis| == variables && Shaped(basis, dims)
    ensures forall c :: 0 <= c < variables && c !in pivots ==> basis[c] == basis0[c]
    ensures forall k :: 0 <= k < constraints && pivots[k] < variables ==>
      basis[pivots[k]] == BackRow(m[k], basis, pivots[k], variables, dims)
  {
    basis := basis0;
    var k := constraints;
    while k > 0
      invariant 0 <= k <= constraints && |basis| == variables && Shaped(basis, dims)
      invariant BackDone(m, variables, dims, pivots, basis, k)
    {
      k := k - 1;
      var pivotCol := PivotColumn(m[k], variables);
      if pivotCol == variables {
        assert pivots[k] >= variables;
        continue;
      }
      assert pivotCol == pivots[k];
      basis := SubstituteRow(m, variables, dims, pivots, basis, k, pivotCol);
    }
  }

  /**
   * The round trip of the basis: when the reduced system is consistent, every
   * choice of parameters gives button counts that solve it.
   */
  lemma RoundTrip(m: seq<Row>, variables: nat, pivots: seq<nat>, basis: seq<Row>, t: seq<real>)
    requires Echelon(m, variables + 1, pivots) && Consistent(pivots, variables)
    requires |basis| == variables && Shaped(basis, |t| + 1)
    requires forall k :: 0 <= k < |pivots| ==> basis[pivots[k]] == BackRow(m[k], basis, pivots[k], variables, |t| + 1)
    ensures SolvesAll(m, Unknowns(basis, t))
  {
    var x := Unknowns(basis, t);
    forall k | 0 <= k < |m|
      ensures Satisfies(m[k], x)
    {
      SpanDot(m[k], x, variables);
      if k < |pivots| {
        var pc := pivots[k];
        SpanSkipZeros(m[k], x, pc, variables);
        SpanFirst(m[k], x, pc, variables);
        BackRowValue(m[k], basis, pc, variables, t);
      } else {
        DotZero(m[k], x, variables);
      }
    }
  }

  /** Pivot columns in increasing order, as `Echelon` lays them out. */
  predicate Increasing(pivots: seq<nat>)
  {
    forall j, k :: 0 <= j < k < |pivots| ==> pivots[j] < pivots[k]
  }

  /** Passing column `c` adds one to the pivots below exactly when `c` is a pivot column. */
  lemma {:induction false} BelowStep(pivots: seq<nat>, c: nat)
    requires Increasing(pivots)
    ensures Below(pivots, c + 1) == Below(pivots, c) + (if c in pivots then 1 else 0)
  {
    if pivots != [] {
      var init, last := pivots[..|pivots| - 1], pivots[|pivots| - 1];
      assert pivots == init + [last];
      BelowStep(init, c);
      if c in init {
        var j :| 0 <= j < |init| && init[j] == c;
        assert pivots[j] < pivots[|pivots| - 1];
      }
    }
  }

  /** The values of `x` at the free columns before `n`, in column order. */
  function FreeVals(x: seq<int>, pivots: seq<nat>, n: nat): (t: seq<int>)
    requires n <= |x|
  {
    if n == 0 then [] else FreeVals(x, pivots, n - 1) + (if n - 1 in pivots then [] else [x[n - 1]])
  }

  lemma {:induction false} FreeValsLength(x: seq<int>, pivots: seq<nat>, n: nat)
    requires n <= |x| && Increasing(pivots)
    ensures |FreeVals(x, pivots, n)| == n - Below(pivots, n)
  {
    if n == 0 {
      BelowSplit(pivots, 0, 0);
    } else {
      FreeValsLength(x, pivots, n - 1);
      BelowStep(pivots, n - 1);
      var extra := if n - 1 in pivots then [] else [x[n - 1]];
      assert FreeVals(x, pivots, n) == FreeVals(x, pivots, n - 1) + extra;
      assert |extra| == if n - 1 in pivots then 0 else 1;
    }
  }

  /** Free column `c` reads its value from slot `FreeIndex(pivots, c)` of the free values. */
  lemma {:induction false} FreeValsIndex(x: seq<int>, pivots: seq<nat>, n: nat)
    requires n <= |x| && Increasing(pivots)
    ensures forall c :: 0 <= c < n && c !in pivots ==>
      0 <= FreeIndex(pivots, c) < |FreeVals(x, pivots, n)| && FreeVals(x, pivots, n)[FreeIndex(pivots, c)] == x[c]
  {
    if n > 0 {
      FreeValsIndex(x, pivots, n - 1);
      FreeValsLength(x, pivots, n - 1);
      BelowStep(pivots, n - 1);
      var prev := FreeVals(x, pivots, n - 1);
      var extra := if n - 1 in pivots then [] else [x[n - 1]];
      var cur := prev + extra;
      assert cur == FreeVals(x, pivots, n);
      forall c | 0 <= c < n && c !in pivots
        ensures 0 <= FreeIndex(pivots, c) < |cur| && cur[FreeIndex(pivots, c)] == x[c]
      {
        if c < n - 1 {
          assert cur[FreeIndex(pivots, c)] == prev[FreeIndex(pivots, c)];
        } else {
          assert FreeIndex(pivots, c) == |prev|;
        }
      }
    }
  }

  lemma {:induction false} FreeValsNonNegative(x: seq<int>, pivots: seq<nat>, n: nat)
    requires n <= |x| && forall c :: 0 <= c < |x| ==> x[c] >= 0
    ensures forall i :: 0 <= i < |FreeVals(x, pivots, n)| ==> FreeVals(x, pivots, n)[i] >= 0
  {
    if n > 0 {
      FreeValsNonNegative(x, pivots, n - 1);
    }
  }

  /** Two unknown vectors that agree on the columns of a span give it the same value. */
  lemma {:induction false} SpanAgree(r: Row, x: seq<real>, y: seq<real>, lo: nat, hi: nat)
    requires lo <= hi <= |r| && hi <= |x| && hi <= |y|
    requires forall j :: lo <= j < hi ==> x[j] == y[j]
    ensures Span(r, x, lo, hi) == Span(r, y, lo, hi)
    decreases hi
  {
    if hi > lo {
      SpanAgree(r, x, y, lo, hi - 1);
    }
  }

  /** What the free-column loop and the back substitution leave in the basis. */
  ghost predicate Expresses(m: seq<Row>, variables: nat, pivots: seq<nat>, basis: seq<Row>, dims: nat)
  {
    |basis| == variables && dims >= 1 && Shaped(basis, dims) && |pivots| <= |m| && Rectangular(m, variables + 1) &&
    (forall c :: 0 <= c < variables && c !in pivots ==> basis[c] == Unit(dims, FreeIndex(pivots, c))) &&
    (forall k :: 0 <= k < |pivots| && pivots[k] < variables ==> basis[pivots[k]] == BackRow(m[k], basis, pivots[k], variables, dims))
  }

  /** The button values from column `c` on are reproduced by the parameters. */
  lemma {:induction false} AgreeFrom(m: seq<Row>, variables: nat, pivots: seq<nat>, basis: seq<Row>, x: seq<real>, t: seq<real>, c: nat)
    requires Echelon(m, variables + 1, pivots) && Consistent(pivots, variables)
    requires |x| == variables && SolvesAll(m, x) && Expresses(m, variables, pivots, basis, |t| + 1)
    requires forall j :: 0 <= j < variables && j !in pivots ==> 0 <= FreeIndex(pivots, j) < |t| && t[FreeIndex(pivots, j)] == x[j]
    requires c <= variables
    ensures forall j :: c <= j < variables ==> Unknowns(basis, t)[j] == x[j]
    decreases variables - c
  {
    if c < variables {
      AgreeFrom(m, variables, pivots, basis, x, t, c + 1);
      if c in pivots {
        var k :| 0 <= k < |pivots| && pivots[k] == c;
        assert Satisfies(m[k], x);
        PivotAgrees(m[k], basis, x, t, c);
      } else {
        UnitValue(|t| + 1, FreeIndex(pivots, c), t);
      }
    }
  }

  /** A row whose first non-zero coefficient is a 1 in column `c`, solved for that column. */
  lemma SolvedFor(row: Row, x: seq<real>, c: nat)
    requires c < |x| && |row| == |x| + 1 && Satisfies(row, x)
    requires row[c] == 1.0 && forall j :: 0 <= j < c ==> row[j] == 0.0
    ensures x[c] == row[|x|] - Span(row, x, c + 1, |x|)
  {
    var n := |x|;
    SpanDot(row, x, n);
    SpanSkipZeros(row, x, c, n);
    SpanFirst(row, x, c, n);
    assert row[c] * x[c] == x[c];
  }

  /** A pivot button gets its value right once every later button does: its row, solved for it. */
  lemma PivotAgrees(row: Row, basis: seq<Row>, x: seq<real>, t: seq<real>, c: nat)
    requires c < |x| && |row| == |x| + 1 && |basis| == |x| && Shaped(basis, |t| + 1)
    requires row[c] == 1.0 && (forall j :: 0 <= j < c ==> row[j] == 0.0) && Satisfies(row, x)
    requires basis[c] == BackRow(row, basis, c, |x|, |t| + 1)
    requires forall j :: c < j < |x| ==> Unknowns(basis, t)[j] == x[j]
    ensures Unknowns(basis, t)[c] == x[c]
  {
    var n := |x|;
    var xs := Unknowns(basis, t);
    SolvedFor(row, x, c);
    SpanAgree(row, xs, x, c + 1, n);
    BackRowValue(row, basis, c, n, t);
  }

  /**
   * The basis covers every solution: for a consistent reduced system, any
   * solution is what the basis gives at that solution's free values.
   */
  lemma Parameterize(m: seq<Row>, variables: nat, pivots: seq<nat>, basis: seq<Row>, x: seq<real>, t: seq<real>)
    requires Echelon(m, variables + 1, pivots) && Consistent(pivots, variables)
    requires |x| == variables && SolvesAll(m, x) && Expresses(m, variables, pivots, basis, |t| + 1)
    requires forall c :: 0 <= c < variables && c !in pivots ==> 0 <= FreeIndex(pivots, c) < |t| && t[FreeIndex(pivots, c)] == x[c]
    ensures Unknowns(basis, t) == x
  {
    AgreeFrom(m, variables, pivots, basis, x, t, 0);
  }

  /** `sum(v[d] for v in basis_vectors)`. */
  function ColumnSum(basis: seq<Row>, d: nat): real
    requires forall c :: 0 <= c < |basis| ==> d < |basis[c]|
  {
    if basis == [] then 0.0 else ColumnSum(basis[..|basis| - 1], d) + basis[|basis| - 1][d]
  }

  /** The cost gradient loop: entry `d` is the sum of slot `d` over all forms. */
  method CostGradient(basis: seq<Row>, dims: nat) returns (gradient: Row)
    requires Shaped(basis, dims)
    ensures |gradient| == dims
    ensures forall d :: 0 <= d < dims ==> gradient[d] == ColumnSum(basis, d)
  {
    gradient := Zeros(dims);
    var d := 0;
    while d < dims
      invariant 0 <= d <= dims && |gradient| == dims
      invariant forall e :: 0 <= e < d ==> gradient[e] == ColumnSum(basis, e)
    {
      gradient := gradient[d := ColumnSum(basis, d)];
      d := d + 1;
    }
  }

  /** The gradient's value is the total number of presses: the sum of all button counts. */
  lemma {:induction false} GradientTotal(basis: seq<Row>, gradient: Row, t: seq<real>)
    requires Shaped(basis, |t| + 1) && |gradient| == |t| + 1
    requires forall d :: 0 <= d < |gradient| ==> gradient[d] == ColumnSum(basis, d)
    ensures Value(gradient, t) == RealSum(Unknowns(basis, t))
  {
    if basis == [] {
      DotZero(gradient, t, |t|);
    } else {
      var init := basis[..|basis| - 1];
      var last := basis[|basis| - 1];
      var g := seq(|t| + 1, d requires 0 <= d < |t| + 1 => ColumnSum(init, d));
      GradientTotal(init, g, t);
      assert gradient == SubRow(g, last, -1.0);
      ValueSub(g, last, -1.0, t);
      assert Unknowns(basis, t) == Unknowns(init, t) + [Value(last, t)];
      RealSumAppend(Unknowns(init, t), [Value(last, t)]);
    }
  }
}
