/**
 * Day 7: a beam enters a grid below the `S` of the first row and falls one row
 * at a time; a splitter `^` sends it one column left and one column right in
 * the same row.  Part 1 counts the splitters the beam reaches, part 2 the
 * number of distinct paths that leave the grid at the bottom, computed by a
 * memoised recursion.
 */
module Day07 {
  import opened Base

  type Grid = seq<string>
  type Cell = (int, int)

  const Splitter := '^'
  const Source := 'S'

  /** The width every bound check uses: the length of the first row. */
  function Width(grid: Grid): nat
  {
    if grid == [] then 0 else |grid[0]|
  }

  /** No row is shorter than the first, so every in-bounds cell can be read. */
  predicate WellFormed(grid: Grid)
  {
    forall r :: 0 <= r < |grid| ==> |grid[r]| >= Width(grid)
  }

  predicate InBounds(grid: Grid, r: int, c: int)
  {
    0 <= r < |grid| && 0 <= c < Width(grid)
  }

  predicate IsSplitter(grid: Grid, r: int, c: int)
  {
    InBounds(grid, r, c) && c < |grid[r]| && grid[r][c] == Splitter
  }

  /** No splitter has another splitter immediately to its right. */
  predicate NoAdjacentSplitters(grid: Grid)
  {
    forall r, c {:trigger IsSplitter(grid, r, c)} ::
      0 <= r < |grid| && 0 <= c < Width(grid) && IsSplitter(grid, r, c) ==> !IsSplitter(grid, r, c + 1)
  }

  /** One move of the beam: sideways from a splitter, down from any other in-bounds cell. */
  predicate Step(grid: Grid, a: Cell, b: Cell)
  {
    InBounds(grid, a.0, a.1) &&
    if IsSplitter(grid, a.0, a.1) then b == (a.0, a.1 - 1) || b == (a.0, a.1 + 1) else b == (a.0 + 1, a.1)
  }

  /** A sequence of cells, each a move away from the one before it. */
  predicate IsPath(grid: Grid, p: seq<Cell>)
  {
    |p| > 0 && forall i :: 0 <= i < |p| - 1 ==> Step(grid, p[i], p[i + 1])
  }

  /**
   * The cells the beam can be at are safe to visit: the lookup `grid[r][c]` is
   * in range, and a splitter has no splitter beside it (otherwise the two call
   * each other back and forth, see `AdjacentSplittersDiverge`).
   */
  predicate Calm(grid: Grid, a: Cell)
  {
    InBounds(grid, a.0, a.1) ==>
      a.1 < |grid[a.0]| &&
      (IsSplitter(grid, a.0, a.1) ==> !IsSplitter(grid, a.0, a.1 - 1) && !IsSplitter(grid, a.0, a.1 + 1))
  }

  /** Every cell a beam path from (r, c) can end at is calm: the part of the grid the recursion visits. */
  ghost predicate Safe(grid: Grid, r: int, c: int)
  {
    forall p :: IsPath(grid, p) && p[0] == (r, c) ==> Calm(grid, p[|p| - 1])
  }

  /** A safe cell is calm, and the cells it moves to are safe. */
  lemma SafeMoves(grid: Grid, r: int, c: int)
    requires Safe(grid, r, c)
    ensures Calm(grid, (r, c))
    ensures forall b :: Step(grid, (r, c), b) ==> Safe(grid, b.0, b.1)
  {
    assert IsPath(grid, [(r, c)]);
    forall b: Cell, p: seq<Cell> | Step(grid, (r, c), b) && IsPath(grid, p) && p[0] == b
      ensures Calm(grid, p[|p| - 1])
    {
      var p' := [(r, c)] + p;
      assert forall i :: 0 < i < |p'| - 1 ==> p'[i] == p[i - 1] && p'[i + 1] == p[i];
      assert IsPath(grid, p');
      assert p'[|p'| - 1] == p[|p| - 1];
    }
  }

  /** On a grid with no short row and no adjacent splitters, every cell is safe. */
  lemma GridSafe(grid: Grid, r: int, c: int)
    requires WellFormed(grid) && NoAdjacentSplitters(grid)
    ensures Safe(grid, r, c)
  {
    forall p: seq<Cell> | IsPath(grid, p) && p[0] == (r, c)
      ensures Calm(grid, p[|p| - 1])
    {
      var a := p[|p| - 1];
      if InBounds(grid, a.0, a.1) && IsSplitter(grid, a.0, a.1) {
        assert !IsSplitter(grid, a.0, a.1 + 1);
        assert IsSplitter(grid, a.0, a.1 - 1) ==> !IsSplitter(grid, a.0, a.1 - 1 + 1);
      }
    }
  }

  /** A splitter cell ranks above every other cell of its row; sideways moves lower the rank. */
  function Rank(grid: Grid, r: int, c: int): nat
  {
    if IsSplitter(grid, r, c) then 1 else 0
  }

  /**
   * The number of paths from (r, c) out of the bottom of the grid: one once
   * the beam is below the last row, none once it leaves sideways, the two
   * sideways paths at a splitter and the path one row down elsewhere.
   */
  function Paths(grid: Grid, r: nat, c: int): nat
    requires Safe(grid, r, c)
    decreases |grid| - r, Rank(grid, r, c)
  {
    if r >= |grid| then 1
    else if c < 0 || c >= Width(grid) then 0
    else
      SafeMoves(grid, r, c);
      if IsSplitter(grid, r, c) then Paths(grid, r, c - 1) + Paths(grid, r, c + 1)
      else Paths(grid, r + 1, c)
  }

  /** The splitters a beam entering at (r, c) reaches, following the same moves as `Paths`. */
  function Reached(grid: Grid, r: nat, c: int): set<Cell>
    requires Safe(grid, r, c)
    decreases |grid| - r, Rank(grid, r, c)
  {
    if r >= |grid| || c < 0 || c >= Width(grid) then {}
    else
      SafeMoves(grid, r, c);
      if IsSplitter(grid, r, c) then {(r, c)} + Reached(grid, r, c - 1) + Reached(grid, r, c + 1)
      else Reached(grid, r + 1, c)
  }

  // ---------------------------------------------------------------------------
  // Reachability, stated independently of the recursion
  // ---------------------------------------------------------------------------

  /** Every cell `Reached` collects is a splitter at the end of a beam path from (r, c). */
  lemma {:induction false} ReachedSound(grid: Grid, r: nat, c: int, q: Cell)
    requires Safe(grid, r, c) && q in Reached(grid, r, c)
    ensures IsSplitter(grid, q.0, q.1)
    ensures exists p :: IsPath(grid, p) && p[0] == (r, c) && p[|p| - 1] == q
    decreases |grid| - r, Rank(grid, r, c)
  {
    SafeMoves(grid, r, c);
    if IsSplitter(grid, r, c) {
      if q == (r, c) {
        assert IsPath(grid, [q]);
      } else {
        var next := if q in Reached(grid, r, c - 1) then c - 1 else c + 1;
        ReachedSound(grid, r, next, q);
        var p :| IsPath(grid, p) && p[0] == (r, next) && p[|p| - 1] == q;
        var p' := [(r, c)] + p;
        assert forall i :: 0 < i < |p'| - 1 ==> p'[i] == p[i - 1] && p'[i + 1] == p[i];
        assert IsPath(grid, p');
      }
    } else {
      ReachedSound(grid, r + 1, c, q);
      var p :| IsPath(grid, p) && p[0] == (r + 1, c) && p[|p| - 1] == q;
      var p' := [(r, c)] + p;
      assert forall i :: 0 < i < |p'| - 1 ==> p'[i] == p[i - 1] && p'[i + 1] == p[i];
      assert IsPath(grid, p');
    }
  }

  /** Every splitter at the end of a beam path from (r, c) is one `Reached` collects. */
  lemma {:induction false} ReachedComplete(grid: Grid, p: seq<Cell>)
    requires IsPath(grid, p) && p[0].0 >= 0 && Safe(grid, p[0].0, p[0].1)
    requires IsSplitter(grid, p[|p| - 1].0, p[|p| - 1].1)
    ensures p[|p| - 1] in Reached(grid, p[0].0, p[0].1)
    decreases |p|
  {
    if |p| > 1 {
      var rest := p[1..];
      assert Step(grid, p[0], p[1]);
      SafeMoves(grid, p[0].0, p[0].1);
      assert forall i :: 0 <= i < |rest| - 1 ==> Step(grid, rest[i], rest[i + 1]) by {
        forall i | 0 <= i < |rest| - 1 ensures Step(grid, rest[i], rest[i + 1]) {
          assert Step(grid, p[i + 1], p[i + 2]);
        }
      }
      ReachedComplete(grid, rest);
    }
  }

  /** A beam that reaches no splitter falls straight through: one path when it starts inside the grid. */
  lemma {:induction false} NoSplitterOnePath(grid: Grid, r: nat, c: int)
    requires Safe(grid, r, c) && Reached(grid, r, c) == {}
    ensures Paths(grid, r, c) == if r >= |grid| || 0 <= c < Width(grid) then 1 else 0
    decreases |grid| - r
  {
    if r < |grid| && 0 <= c < Width(grid) {
      SafeMoves(grid, r, c);
      NoSplitterOnePath(grid, r + 1, c);
    }
  }

  // ---------------------------------------------------------------------------
  // Termination
  // ---------------------------------------------------------------------------

  /** The recursion cut off after `fuel` nested calls: `None` when it has not finished by then. */
  function PathsFuel(grid: Grid, fuel: nat, r: nat, c: int): Option<nat>
  {
    if fuel == 0 then None
    else if r >= |grid| then Some(1)
    else if c < 0 || c >= Width(grid) then Some(0)
    else if IsSplitter(grid, r, c) then
      match (PathsFuel(grid, fuel - 1, r, c - 1), PathsFuel(grid, fuel - 1, r, c + 1))
      case (Some(left), Some(right)) => Some(left + right)
      case _ => None
    else PathsFuel(grid, fuel - 1, r + 1, c)
  }

  /** Two adjacent splitters call each other back and forth: no amount of fuel finishes either. */
  lemma {:induction false} AdjacentSplittersDiverge(grid: Grid, fuel: nat, r: nat, c: int)
    requires IsSplitter(grid, r, c) && IsSplitter(grid, r, c + 1)
    ensures PathsFuel(grid, fuel, r, c).None? && PathsFuel(grid, fuel, r, c + 1).None?
  {
    if fuel > 0 {
      AdjacentSplittersDiverge(grid, fuel - 1, r, c);
    }
  }

  /** A beam that can reach a splitter with a splitter beside it never finishes, whatever the fuel. */
  lemma {:induction false} ReachedAdjacentDiverges(grid: Grid, fuel: nat, p: seq<Cell>)
    requires IsPath(grid, p) && p[0].0 >= 0
    requires IsSplitter(grid, p[|p| - 1].0, p[|p| - 1].1)
    requires IsSplitter(grid, p[|p| - 1].0, p[|p| - 1].1 - 1) || IsSplitter(grid, p[|p| - 1].0, p[|p| - 1].1 + 1)
    ensures PathsFuel(grid, fuel, p[0].0, p[0].1).None?
    decreases |p|
  {
    var (r, c) := p[0];
    if |p| == 1 {
      if IsSplitter(grid, r, c + 1) {
        AdjacentSplittersDiverge(grid, fuel, r, c);
      } else {
        AdjacentSplittersDiverge(grid, fuel, r, c - 1);
      }
    } else if fuel > 0 {
      var rest := p[1..];
      assert Step(grid, p[0], p[1]);
      assert forall i :: 0 <= i < |rest| - 1 ==> Step(grid, rest[i], rest[i + 1]) by {
        forall i | 0 <= i < |rest| - 1 ensures Step(grid, rest[i], rest[i + 1]) {
          assert Step(grid, p[i + 1], p[i + 2]);
        }
      }
      ReachedAdjacentDiverges(grid, fuel - 1, rest);
    }
  }

  /** The call depth the recursion needs: two calls per row left, plus one for a splitter. */
  function Depth(grid: Grid, r: nat, c: int): nat
  {
    if r >= |grid| then 1 else 2 * (|grid| - r) + Rank(grid, r, c) + 1
  }

  /** From a safe cell the recursion finishes within `Depth` calls, with the value of `Paths`. */
  lemma {:induction false} PathsFuelEnough(grid: Grid, fuel: nat, r: nat, c: int)
    requires Safe(grid, r, c) && fuel >= Depth(grid, r, c)
    ensures PathsFuel(grid, fuel, r, c) == Some(Paths(grid, r, c))
    decreases |grid| - r, Rank(grid, r, c)
  {
    if r < |grid| && 0 <= c < Width(grid) {
      SafeMoves(grid, r, c);
      if IsSplitter(grid, r, c) {
        PathsFuelEnough(grid, fuel - 1, r, c - 1);
        PathsFuelEnough(grid, fuel - 1, r, c + 1);
      } else {
        PathsFuelEnough(grid, fuel - 1, r + 1, c);
      }
    }
  }

  // ---------------------------------------------------------------------------
  // The memoised search
  // ---------------------------------------------------------------------------

  /** `beam_down` with its memo dictionary and its set of splitters hit. */
  class BeamSearch {
    const grid: Grid
    var memo: map<Cell, nat>
    var splitters: set<Cell>

    /** Every memo entry holds the unmemoised value, and its splitters are already recorded. */
    ghost predicate Valid()
      reads this
    {
      forall k :: k in memo ==>
        k.0 >= 0 && Safe(grid, k.0, k.1) && memo[k] == Paths(grid, k.0, k.1) && Reached(grid, k.0, k.1) <= splitters
    }

    constructor(grid: Grid)
      ensures Valid()
      ensures this.grid == grid && memo == map[] && splitters == {}
    {
      this.grid := grid;
      memo := map[];
      splitters := {};
    }

    method BeamDown(r: nat, c: int) returns (result: nat)
      requires Valid() && Safe(grid, r, c)
      modifies this
      ensures Valid()
      ensures result == Paths(grid, r, c)
      ensures splitters == old(splitters) + Reached(grid, r, c)
      ensures old(memo).Keys <= memo.Keys
      decreases |grid| - r, Rank(grid, r, c)
    {
      var maxDepth := |grid|;
      if r >= maxDepth {
        return 1;
      }
      var maxWidth := if |grid| > 0 && |grid[0]| > 0 then |grid[0]| else 0;
      if c < 0 || c >= maxWidth {
        return 0;
      }
      if (r, c) in memo {
        return memo[(r, c)];
      }
      SafeMoves(grid, r, c);
      var currentChar := grid[r][c];
      if currentChar == Splitter {
        splitters := splitters + {(r, c)};
        var left := BeamDown(r, c - 1);
        var right := BeamDown(r, c + 1);
        result := left + right;
      } else {
        result := BeamDown(r + 1, c);
      }
      memo := memo[(r, c) := result];
    }
  }

  /**
   * Both parts: the beam starts one row below the first `S` of the first row.
   * Part 1 is the number of splitters reached, part 2 the number of paths.
   */
  method Both(lines: seq<string>) returns (answer: Option<(nat, nat)>)
    requires lines != [] && Source in lines[0] ==> Safe(lines, 1, IndexOf(lines[0], Source).value)
    ensures answer.None? <==> lines == [] || Source !in lines[0]
    ensures answer.Some? ==>
      var start := IndexOf(lines[0], Source).value;
      answer.value == (|Reached(lines, 1, start)|, Paths(lines, 1, start))
  {
    var grid := lines;
    if grid == [] || grid[0] == [] {
      return None;
    }
    var startJ := IndexOf(grid[0], Source);
    if startJ.None? {
      return None;
    }
    var search := new BeamSearch(grid);
    var newTimelines := search.BeamDown(1, startJ.value);
    answer := Some((|search.splitters|, newTimelines));
  }
}
