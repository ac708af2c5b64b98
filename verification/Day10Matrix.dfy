/**
 * Day 10, part 2, step 1: `reduce_matrix`, Gaussian elimination of the
 * augmented system `[A | b]` to row echelon form, in place, over exact
 * rationals (Python `Fraction`, here `real`).  Each pivot row gets a leading
 * 1 and everything below a pivot is cleared; the rows above are left as they
 * are, for the back substitution that follows.
 */
module Day10Matrix {

  type Row = seq<real>

  /** `sum(r[c] * x[c] for c < n)`. */
  function Dot(r: Row, x: seq<real>, n: nat): real
    requires n <= |r| && n <= |x|
  {
    if n == 0 then 0.0 else Dot(r, x, n - 1) + r[n - 1] * x[n - 1]
  }

  /** The equation of an augmented row holds at `x`: the coefficients times `x` give the last entry. */
  predicate Satisfies(r: Row, x: seq<real>)
  {
    |r| == |x| + 1 && Dot(r, x, |x|) == r[|x|]
  }

  /** `x` solves every equation of `m`. */
  predicate SolvesAll(m: seq<Row>, x: seq<real>)
  {
    forall k :: 0 <= k < |m| ==> Satisfies(m[k], x)
  }

  /** Two systems with the same unknowns and the same solutions. */
  ghost predicate SameSolutions(m: seq<Row>, m': seq<Row>, unknowns: nat)
  {
    forall x: seq<real> :: |x| == unknowns ==> (SolvesAll(m, x) <==> SolvesAll(m', x))
  }

  predicate Rectangular(m: seq<Row>, cols: nat)
  {
    forall k :: 0 <= k < |m| ==> |m[k]| == cols
  }

  /** `a * r`, entry by entry. */
  function ScaleRow(r: Row, a: real): (s: Row)
    ensures |s| == |r|
  {
    seq(|r|, c requires 0 <= c < |r| => a * r[c])
  }

  /** `r - f * p`, entry by entry. */
  function SubRow(r: Row, p: Row, f: real): (s: Row)
    requires |p| == |r|
    ensures |s| == |r|
  {
    seq(|r|, c requires 0 <= c < |r| => r[c] - p[c] * f)
  }

  lemma {:induction false} DotScale(r: Row, a: real, x: seq<real>, n: nat)
    requires n <= |r| && n <= |x|
    ensures Dot(ScaleRow(r, a), x, n) == a * Dot(r, x, n)
  {
    if n > 0 {
      DotScale(r, a, x, n - 1);
      assert ScaleRow(r, a)[n - 1] * x[n - 1] == a * (r[n - 1] * x[n - 1]);
    }
  }

  lemma {:induction false} DotSub(r: Row, p: Row, f: real, x: seq<real>, n: nat)
    requires |p| == |r| && n <= |r| && n <= |x|
    ensures Dot(SubRow(r, p, f), x, n) == Dot(r, x, n) - f * Dot(p, x, n)
  {
    if n > 0 {
      DotSub(r, p, f, x, n - 1);
      assert SubRow(r, p, f)[n - 1] * x[n - 1] == r[n - 1] * x[n - 1] - f * (p[n - 1] * x[n - 1]);
    }
  }

  /** Scaling an equation by a non-zero factor keeps its solutions. */
  lemma ScaleKeeps(r: Row, a: real, x: seq<real>)
    requires a != 0.0 && |r| == |x| + 1
    ensures Satisfies(ScaleRow(r, a), x) <==> Satisfies(r, x)
  {
    DotScale(r, a, x, |x|);
  }

  /** Subtracting a multiple of an equation that holds keeps the solutions. */
  lemma SubKeeps(r: Row, p: Row, f: real, x: seq<real>)
    requires |r| == |x| + 1 && |p| == |r| && Satisfies(p, x)
    ensures Satisfies(SubRow(r, p, f), x) <==> Satisfies(r, x)
  {
    DotSub(r, p, f, x, |x|);
  }

  /** Exchanging two rows keeps the solutions. */
  lemma SwapKeeps(m: seq<Row>, a: nat, b: nat, unknowns: nat)
    requires a < |m| && b < |m|
    ensures SameSolutions(m, m[a := m[b]][b := m[a]], unknowns)
  {
    var m' := m[a := m[b]][b := m[a]];
    forall x: seq<real> | |x| == unknowns
      ensures SolvesAll(m, x) <==> SolvesAll(m', x)
    {
      if SolvesAll(m, x) {
        forall k | 0 <= k < |m'|
          ensures Satisfies(m'[k], x)
        {
          if k == b {
            assert m'[k] == m[a];
          } else if k == a {
            assert m'[k] == m[b];
          } else {
            assert m'[k] == m[k];
          }
        }
      }
      if SolvesAll(m', x) {
        forall k | 0 <= k < |m|
          ensures Satisfies(m[k], x)
        {
          if k == b {
            assert m[k] == m'[a];
          } else if k == a {
            assert m[k] == m'[b];
          } else {
            assert m[k] == m'[k];
          }
        }
      }
    }
  }

  /** Replacing row `k` by a non-zero multiple of itself keeps the solutions. */
  lemma ScaleRowKeeps(m: seq<Row>, k: nat, a: real, unknowns: nat)
    requires k < |m| && a != 0.0 && |m[k]| == unknowns + 1
    ensures SameSolutions(m, m[k := ScaleRow(m[k], a)], unknowns)
  {
    var m' := m[k := ScaleRow(m[k], a)];
    forall x: seq<real> | |x| == unknowns
      ensures SolvesAll(m, x) <==> SolvesAll(m', x)
    {
      ScaleKeeps(m[k], a, x);
      assert Satisfies(m'[k], x) <==> Satisfies(m[k], x);
      assert forall j :: 0 <= j < |m| && j != k ==> m'[j] == m[j];
    }
  }

  /** Replacing row `k` by itself minus a multiple of another row `p` keeps the solutions. */
  lemma SubRowKeeps(m: seq<Row>, k: nat, p: nat, f: real, unknowns: nat)
    requires k < |m| && p < |m| && k != p && |m[k]| == unknowns + 1 && |m[p]| == |m[k]|
    ensures SameSolutions(m, m[k := SubRow(m[k], m[p], f)], unknowns)
  {
    var m' := m[k := SubRow(m[k], m[p], f)];
    forall x: seq<real> | |x| == unknowns
      ensures SolvesAll(m, x) <==> SolvesAll(m', x)
    {
      assert forall j :: 0 <= j < |m| && j != k ==> m'[j] == m[j];
      if SolvesAll(m, x) || SolvesAll(m', x) {
        assert Satisfies(m[p], x) by {
          assert m'[p] == m[p];
        }
        SubKeeps(m[k], m[p], f, x);
        assert Satisfies(m'[k], x) <==> Satisfies(m[k], x);
      }
    }
  }

  lemma SameTrans(m1: seq<Row>, m2: seq<Row>, m3: seq<Row>, unknowns: nat)
    requires SameSolutions(m1, m2, unknowns) && SameSolutions(m2, m3, unknowns)
    ensures SameSolutions(m1, m3, unknowns)
  {
  }

  /**
   * Row echelon form with pivot columns `pivots`: row `k` of the first
   * `|pivots|` has a leading 1 in column `pivots[k]`, the pivot columns
   * increase, every entry below a pivot is 0, and the remaining rows are 0.
   */
  ghost predicate Echelon(m: seq<Row>, cols: nat, pivots: seq<nat>)
  {
    Rectangular(m, cols) && |pivots| <= |m| &&
    (forall k :: 0 <= k < |pivots| ==> pivots[k] < cols && m[k][pivots[k]] == 1.0) &&
    (forall k, c :: 0 <= k < |pivots| && 0 <= c < pivots[k] ==> m[k][c] == 0.0) &&
    (forall j, k :: 0 <= j < k < |pivots| ==> pivots[j] < pivots[k]) &&
    (forall k, r :: 0 <= k < |pivots| && k < r < |m| ==> m[r][pivots[k]] == 0.0) &&
    (forall r, c :: |pivots| <= r < |m| && 0 <= c < cols ==> m[r][c] == 0.0)
  }

  /**
   * The state of the column loop after column `col`: the first `|pivots|` rows
   * are finished pivot rows with pivots at most `col`, and the rows below are
   * 0 in columns up to `col`.
   */
  ghost predicate Partial(m: seq<Row>, cols: nat, pivots: seq<nat>, col: int)
  {
    Rectangular(m, cols) && |pivots| <= |m| &&
    (forall k :: 0 <= k < |pivots| ==> pivots[k] <= col && pivots[k] < cols && m[k][pivots[k]] == 1.0) &&
    (forall k, c :: 0 <= k < |pivots| && 0 <= c < pivots[k] ==> m[k][c] == 0.0) &&
    (forall j, k :: 0 <= j < k < |pivots| ==> pivots[j] < pivots[k]) &&
    (forall k, r :: 0 <= k < |pivots| && k < r < |m| ==> m[r][pivots[k]] == 0.0) &&
    (forall r, c :: |pivots| <= r < |m| && 0 <= c <= col && c < cols ==> m[r][c] == 0.0)
  }

  /** The first row at or after `from` with a non-zero entry in column `col`, or -1. */
  method FindPivot(mat: array<Row>, from: nat, col: nat) returns (pivotRow: int)
    requires forall r :: from <= r < mat.Length ==> col < |mat[r]|
    ensures pivotRow == -1 || from <= pivotRow < mat.Length
    ensures pivotRow == -1 ==> forall r :: from <= r < mat.Length ==> mat[r][col] == 0.0
    ensures pivotRow != -1 ==> mat[pivotRow][col] != 0.0
  {
    pivotRow := -1;
    var r := from;
    while r < mat.Length
      invariant from <= r <= mat.Length || r == from
      invariant forall q :: from <= q < r ==> mat[q][col] == 0.0
    {
      if mat[r][col] != 0.0 {
        return r;
      }
      r := r + 1;
    }
  }

  /** The normalising loop: multiply the entries from column `from` on by `ratio`. */
  method ScaleFrom(row: Row, from: nat, ratio: real) returns (row': Row)
    requires from <= |row|
    ensures |row'| == |row|
    ensures forall c :: 0 <= c < |row| ==> row'[c] == if c < from then row[c] else row[c] * ratio
  {
    row' := row;
    var c := from;
    while c < |row|
      invariant from <= c <= |row| && |row'| == |row|
      invariant forall d :: 0 <= d < |row| ==> row'[d] == if from <= d < c then row[d] * ratio else row[d]
    {
      row' := row'[c := row'[c] * ratio];
      c := c + 1;
    }
  }

  /** The elimination loop: from the last column down to `from`, subtract `scale` times the pivot row. */
  method SubtractFrom(row: Row, pivot: Row, from: nat, scale: real) returns (row': Row)
    requires |pivot| == |row| && from <= |row|
    ensures |row'| == |row|
    ensures forall c :: 0 <= c < |row| ==> row'[c] == if c < from then row[c] else row[c] - pivot[c] * scale
  {
    row' := row;
    var c := |row| - 1;
    while c >= from
      invariant from - 1 <= c < |row| && |row'| == |row|
      invariant forall d :: 0 <= d < |row| ==> row'[d] == if d > c then row[d] - pivot[d] * scale else row[d]
    {
      row' := row'[c := row'[c] - pivot[c] * scale];
      c := c - 1;
    }
  }

  /** Subtracting a multiple of the pivot row from a row below it keeps the partial echelon shape. */
  lemma ElimKeepsPartial(m: seq<Row>, cols: nat, pivots: seq<nat>, col: nat, r: nat, f: real)
    requires Partial(m, cols, pivots, col - 1) && col < cols
    requires |pivots| < r < |m|
    requires forall c :: 0 <= c < col ==> m[|pivots|][c] == 0.0
    ensures Partial(m[r := SubRow(m[r], m[|pivots|], f)], cols, pivots, col - 1)
  {
    var m' := m[r := SubRow(m[r], m[|pivots|], f)];
    assert forall k :: 0 <= k < |pivots| ==> m[|pivots|][pivots[k]] == 0.0;
    forall k, q | 0 <= k < |pivots| && k < q < |m'|
      ensures m'[q][pivots[k]] == 0.0
    {
    }
  }

  /** A normalised pivot row with nothing left below it closes the column. */
  lemma PivotClosesColumn(m: seq<Row>, cols: nat, pivots: seq<nat>, col: nat)
    requires Partial(m, cols, pivots, col - 1) && col < cols && |pivots| < |m|
    requires m[|pivots|][col] == 1.0
    requires forall c :: 0 <= c < col ==> m[|pivots|][c] == 0.0
    requires forall q :: |pivots| < q < |m| ==> m[q][col] == 0.0
    ensures Partial(m, cols, pivots + [col], col)
  {
    var p' := pivots + [col];
    forall k, q | 0 <= k < |p'| && k < q < |m|
      ensures m[q][p'[k]] == 0.0
    {
      if k < |pivots| {
        assert p'[k] == pivots[k];
      }
    }
  }

  /** A column that is 0 in every unfinished row needs no pivot. */
  lemma NoPivotColumn(m: seq<Row>, cols: nat, pivots: seq<nat>, col: nat)
    requires Partial(m, cols, pivots, col - 1) && col < cols
    requires forall q :: |pivots| <= q < |m| ==> m[q][col] == 0.0
    ensures Partial(m, cols, pivots, col)
  {
  }

  /** Exchanging two unfinished rows keeps the partial echelon shape. */
  lemma SwapKeepsPartial(m: seq<Row>, cols: nat, pivots: seq<nat>, col: int, a: nat, b: nat)
    requires Partial(m, cols, pivots, col) && |pivots| <= a < |m| && |pivots| <= b < |m|
    ensures Partial(m[a := m[b]][b := m[a]], cols, pivots, col)
  {
  }

  /** Scaling an unfinished row keeps the partial echelon shape. */
  lemma ScaleKeepsPartial(m: seq<Row>, cols: nat, pivots: seq<nat>, col: int, a: real)
    requires Partial(m, cols, pivots, col) && |pivots| < |m|
    ensures Partial(m[|pivots| := ScaleRow(m[|pivots|], a)], cols, pivots, col)
  {
  }

  /** When the column loop stops, the matrix is in echelon form. */
  lemma PartialDone(m: seq<Row>, cols: nat, pivots: seq<nat>, col: int)
    requires Partial(m, cols, pivots, col)
    requires |pivots| == |m| || col >= cols - 1
    ensures Echelon(m, cols, pivots)
  {
  }

  /** `SubtractFrom` subtracts the whole pivot row when the pivot row is 0 before `from`. */
  lemma SubtractFromIsSubRow(row: Row, pivot: Row, from: nat, scale: real, row': Row)
    requires |pivot| == |row| == |row'| && from <= |row|
    requires forall c :: 0 <= c < from ==> pivot[c] == 0.0
    requires forall c :: 0 <= c < |row| ==> row'[c] == if c < from then row[c] else row[c] - pivot[c] * scale
    ensures row' == SubRow(row, pivot, scale)
  {
    forall c | 0 <= c < |row|
      ensures row'[c] == SubRow(row, pivot, scale)[c]
    {
      if c < from {
        assert pivot[c] * scale == 0.0;
      }
    }
  }

  /** `ScaleFrom` scales the whole row when the row is 0 before `from`. */
  lemma ScaleFromIsScaleRow(row: Row, from: nat, ratio: real, row': Row)
    requires |row| == |row'| && from <= |row|
    requires forall c :: 0 <= c < from ==> row[c] == 0.0
    requires forall c :: 0 <= c < |row| ==> row'[c] == if c < from then row[c] else row[c] * ratio
    ensures row' == ScaleRow(row, ratio)
  {
    forall c | 0 <= c < |row|
      ensures row'[c] == ScaleRow(row, ratio)[c]
    {
      if c < from {
        assert ratio * row[c] == 0.0;
      } else {
        assert row'[c] == row[c] * ratio;
      }
    }
  }

  /** Clearing column `col` below the pivot row `cur`, row by row. */
  method EliminateBelow(mat: array<Row>, cols: nat, cur: nat, col: nat, ghost pivots: seq<nat>, ghost unknowns: nat)
    requires cur < mat.Length && col < cols && cols == unknowns + 1 && |pivots| == cur
    requires Partial(mat[..], cols, pivots, col - 1) && mat[cur][col] == 1.0
    requires forall c :: 0 <= c < col ==> mat[cur][c] == 0.0
    modifies mat
    ensures Partial(mat[..], cols, pivots + [col], col)
    ensures SameSolutions(old(mat[..]), mat[..], unknowns)
  {
    var r := cur + 1;
    while r < mat.Length
      invariant cur + 1 <= r <= mat.Length
      invariant Partial(mat[..], cols, pivots, col - 1)
      invariant mat[cur] == old(mat[cur])
      invariant forall q :: cur < q < r ==> mat[q][col] == 0.0
      invariant SameSolutions(old(mat[..]), mat[..], unknowns)
    {
      if mat[r][col] != 0.0 {
        var pivotRowRef := mat[cur];
        var scale := mat[r][col] / pivotRowRef[col];
        var newRow := SubtractFrom(mat[r], pivotRowRef, col, scale);
        ghost var before := mat[..];
        SubtractFromIsSubRow(before[r], before[cur], col, scale, newRow);
        SubRowKeeps(before, r, cur, scale, unknowns);
        ElimKeepsPartial(before, cols, pivots, col, r, scale);
        mat[r] := newRow;
        assert mat[..] == before[r := newRow];
        SameTrans(old(mat[..]), before, mat[..], unknowns);
      }
      r := r + 1;
    }
    PivotClosesColumn(mat[..], cols, pivots, col);
  }

  /**
   * `reduce_matrix`: in-place Gaussian elimination to row echelon form.  The
   * shape is kept, and the reduced system has exactly the solutions of the
   * original one.
   */
  method ReduceMatrix(mat: array<Row>) returns (ghost pivots: seq<nat>)
    requires Rectangular(mat[..], if mat.Length == 0 then 0 else |mat[0]|)
    modifies mat
    ensures mat.Length == 0 ==> mat[..] == old(mat[..]) && pivots == []
    ensures mat.Length > 0 ==> |mat[0]| == |old(mat[0])|
    ensures mat.Length > 0 ==> Echelon(mat[..], |mat[0]|, pivots)
    ensures mat.Length > 0 && |mat[0]| > 0 ==> SameSolutions(old(mat[..]), mat[..], |mat[0]| - 1)
  {
    pivots := [];
    var rows := mat.Length;
    if rows == 0 {
      return;
    }
    var cols := |mat[0]|;
    ghost var unknowns: nat := if cols == 0 then 0 else cols - 1;
    var curRow := 0;
    var col := -1;
    while curRow < rows
      invariant 0 <= curRow <= rows && -1 <= col < cols && curRow == |pivots|
      invariant Partial(mat[..], cols, pivots, col)
      invariant cols > 0 ==> SameSolutions(old(mat[..]), mat[..], unknowns)
      decreases cols - col
    {
      col := col + 1;
      if col >= cols {
        break;
      }
      var pivotRow := FindPivot(mat, curRow, col);
      if pivotRow == -1 {
        NoPivotColumn(mat[..], cols, pivots, col);
        continue;
      }
      ghost var before := mat[..];
      if pivotRow != curRow {
        mat[curRow], mat[pivotRow] := mat[pivotRow], mat[curRow];
        SwapKeeps(before, curRow, pivotRow, unknowns);
        SwapKeepsPartial(before, cols, pivots, col - 1, curRow, pivotRow);
        assert mat[..] == before[curRow := before[pivotRow]][pivotRow := before[curRow]];
      }
      SameTrans(old(mat[..]), before, mat[..], unknowns);
      PivotStep(mat, cols, curRow, col, pivots, unknowns);
      pivots := pivots + [col];
      curRow := curRow + 1;
    }
    PartialDone(mat[..], cols, pivots, col);
  }

  /** Normalising the pivot row and clearing below it: one pass of the column loop once a pivot is in place. */
  method PivotStep(mat: array<Row>, cols: nat, cur: nat, col: nat, ghost pivots: seq<nat>, ghost unknowns: nat)
    requires cur < mat.Length && col < cols && cols == unknowns + 1 && |pivots| == cur
    requires Partial(mat[..], cols, pivots, col - 1) && mat[cur][col] != 0.0
    modifies mat
    ensures Partial(mat[..], cols, pivots + [col], col)
    ensures SameSolutions(old(mat[..]), mat[..], unknowns)
  {
    var pivotVal := mat[cur][col];
    if pivotVal != 1.0 {
      var ratio := 1.0 / pivotVal;
      var newRow := ScaleFrom(mat[cur], col, ratio);
      ghost var before := mat[..];
      ScaleFromIsScaleRow(before[cur], col, ratio, newRow);
      ScaleRowKeeps(before, cur, ratio, unknowns);
      ScaleKeepsPartial(before, cols, pivots, col - 1, ratio);
      mat[cur] := newRow;
      assert mat[..] == before[cur := newRow];
    }
    ghost var normalised := mat[..];
    EliminateBelow(mat, cols, cur, col, pivots, unknowns);
    SameTrans(old(mat[..]), normalised, mat[..], unknowns);
  }
}
