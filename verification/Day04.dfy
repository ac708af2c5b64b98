/**
 * Day 4: a grid of paper rolls `@`.  Part 1 counts the rolls whose 3x3 block
 * (centre included) holds at most four rolls; part 2 repeatedly marks such
 * rolls as removable, ignoring rolls already marked, until a round marks none.
 */
module Day04 {
  import opened Base

  type Cell = (int, int)

  const Target: char := '@'
  const Limit: nat := 4


  /** Column count taken from the first row, as the scripts do. */
  function Cols(grid: seq<string>): nat
  {
    if |grid| > 0 then |grid[0]| else 0
  }

  /**
   * Every neighbour lookup `grid[nr][nc]` with `nc < Cols(grid)` is in range
   * exactly when no row is shorter than the first one.
   */
  predicate WellFormed(grid: seq<string>)
  {
    forall r :: 0 <= r < |grid| ==> Cols(grid) <= |grid[r]|
  }

  /** The lookup `grid[nr][nc]` made after the bounds test `0 <= nr < rows and 0 <= nc < cols` is in range. */
  predicate CellReadable(grid: seq<string>, nr: int, nc: int)
  {
    0 <= nr < |grid| && 0 <= nc < Cols(grid) ==> nc < |grid[nr]|
  }

  predicate RowReadable(grid: seq<string>, nr: int, c: int)
  {
    CellReadable(grid, nr, c - 1) && CellReadable(grid, nr, c) && CellReadable(grid, nr, c + 1)
  }

  /** Every lookup of the 3x3 offset loops around (r, c) is in range: the loops raise no `IndexError`. */
  predicate BlockReadable(grid: seq<string>, r: int, c: int)
  {
    RowReadable(grid, r - 1, c) && RowReadable(grid, r, c) && RowReadable(grid, r + 1, c)
  }

  /** Part 1 calls `count_neighbors` on the `@` cells only, so only their blocks must be readable. */
  predicate Part1Readable(grid: seq<string>)
  {
    forall r, c :: 0 <= r < |grid| && 0 <= c < |grid[r]| && grid[r][c] == Target ==> BlockReadable(grid, r, c)
  }

  /** On a grid with no row shorter than the first, every block is readable. */
  lemma WellFormedReadable(grid: seq<string>, r: int, c: int)
    requires WellFormed(grid)
    ensures BlockReadable(grid, r, c)
  {
  }

  predicate Rectangular(grid: seq<string>)
  {
    forall r :: 0 <= r < |grid| ==> |grid[r]| == Cols(grid)
  }

  /** 1 when (nr, nc) is an in-bounds `target` cell outside `excluded`. */
  function Hit(grid: seq<string>, nr: int, nc: int, target: char, excluded: set<Cell>): nat
  {
    if 0 <= nr < |grid| && 0 <= nc < Cols(grid) && nc < |grid[nr]| && grid[nr][nc] == target && (nr, nc) !in excluded
    then 1 else 0
  }

  /** Hits among the first `k` cells (nr, c-1), (nr, c), (nr, c+1). */
  function RowHits(grid: seq<string>, nr: int, c: int, target: char, excluded: set<Cell>, k: nat): (h: nat)
    requires k <= 3
    ensures h <= k
  {
    if k == 0 then 0 else RowHits(grid, nr, c, target, excluded, k - 1) + Hit(grid, nr, c - 2 + k, target, excluded)
  }

  /** Hits among the first `k` rows r-1, r, r+1 of the block around (r, c). */
  function BlockHits(grid: seq<string>, r: int, c: int, target: char, excluded: set<Cell>, k: nat): (h: nat)
    requires k <= 3
    ensures h <= 3 * k
  {
    if k == 0 then 0 else BlockHits(grid, r, c, target, excluded, k - 1) + RowHits(grid, r - 2 + k, c, target, excluded, 3)
  }

  /** Number of `target` cells not in `excluded` in the in-bounds 3x3 block around (r, c). */
  function Neighbors(grid: seq<string>, r: int, c: int, target: char, excluded: set<Cell>): nat
  {
    BlockHits(grid, r, c, target, excluded, 3)
  }

  /** The count lies in [0, 9]. */
  lemma NeighborsBound(grid: seq<string>, r: int, c: int, target: char, excluded: set<Cell>)
    ensures Neighbors(grid, r, c, target, excluded) <= 9
  {
  }

  /** A counted centre cell contributes to its own block. */
  lemma CentreCounts(grid: seq<string>, r: int, c: int, target: char, excluded: set<Cell>)
    requires 0 <= r < |grid| && 0 <= c < Cols(grid) && c < |grid[r]| && grid[r][c] == target && (r, c) !in excluded
    ensures Neighbors(grid, r, c, target, excluded) >= 1
  {
    assert Hit(grid, r, c, target, excluded) == 1;
    assert RowHits(grid, r, c, target, excluded, 2) >= 1;
    assert RowHits(grid, r, c, target, excluded, 3) >= 1;
    assert BlockHits(grid, r, c, target, excluded, 2) >= 1;
  }

  lemma {:induction false} RowHitsAntitone(grid: seq<string>, nr: int, c: int, target: char, small: set<Cell>, large: set<Cell>, k: nat)
    requires k <= 3 && small <= large
    ensures RowHits(grid, nr, c, target, large, k) <= RowHits(grid, nr, c, target, small, k)
  {
    if k > 0 {
      RowHitsAntitone(grid, nr, c, target, small, large, k - 1);
    }
  }

  lemma {:induction false} BlockHitsAntitone(grid: seq<string>, r: int, c: int, target: char, small: set<Cell>, large: set<Cell>, k: nat)
    requires k <= 3 && small <= large
    ensures BlockHits(grid, r, c, target, large, k) <= BlockHits(grid, r, c, target, small, k)
  {
    if k > 0 {
      BlockHitsAntitone(grid, r, c, target, small, large, k - 1);
      RowHitsAntitone(grid, r - 2 + k, c, target, small, large, 3);
    }
  }

  /** Excluding more cells never raises a count. */
  lemma NeighborsAntitone(grid: seq<string>, r: int, c: int, target: char, small: set<Cell>, large: set<Cell>)
    requires small <= large
    ensures Neighbors(grid, r, c, target, large) <= Neighbors(grid, r, c, target, small)
  {
    BlockHitsAntitone(grid, r, c, target, small, large, 3);
  }

  /** `count_neighbors`: the two nested offset loops over the 3x3 block. */
  method CountNeighbors(grid: seq<string>, r: int, c: int, target: char) returns (count: nat)
    requires BlockReadable(grid, r, c)
    ensures count == Neighbors(grid, r, c, target, {})
    ensures count <= 9
  {
    count := 0;
    for dr := -1 to 2
      invariant count == BlockHits(grid, r, c, target, {}, dr + 1)
    {
      for dc := -1 to 2
        invariant count == BlockHits(grid, r, c, target, {}, dr + 1) + RowHits(grid, r + dr, c, target, {}, dc + 1)
      {
        var nr, nc := r + dr, c + dc;
        if 0 <= nr < |grid| && 0 <= nc < Cols(grid) {
          if grid[nr][nc] == target {
            count := count + 1;
          }
        }
      }
    }
  }

  /** Cells counted by part 1: every `@` of every row, whatever the row's length. */
  predicate Accessible(grid: seq<string>, r: int, c: int)
  {
    0 <= r < |grid| && 0 <= c < |grid[r]| && grid[r][c] == Target && Neighbors(grid, r, c, Target, {}) <= Limit
  }

  function AccessibleBefore(grid: seq<string>, row: int, col: int): set<Cell>
  {
    set r, c | 0 <= r < |grid| && 0 <= c < |grid[r]| && (r < row || (r == row && c < col)) && Accessible(grid, r, c) :: (r, c)
  }

  function AccessibleCells(grid: seq<string>): set<Cell>
  {
    set r, c | 0 <= r < |grid| && 0 <= c < |grid[r]| && Accessible(grid, r, c) :: (r, c)
  }

  lemma AccessibleBeforeNext(grid: seq<string>, row: int, col: int)
    requires 0 <= row < |grid| && 0 <= col < |grid[row]|
    ensures AccessibleBefore(grid, row, col + 1)
         == AccessibleBefore(grid, row, col) + (if Accessible(grid, row, col) then {(row, col)} else {})
  {
  }

  lemma AccessibleBeforeRow(grid: seq<string>, row: int)
    requires 0 <= row < |grid|
    ensures AccessibleBefore(grid, row, |grid[row]|) == AccessibleBefore(grid, row + 1, 0)
  {
  }

  lemma AccessibleBeforeEnd(grid: seq<string>)
    ensures AccessibleBefore(grid, |grid|, 0) == AccessibleCells(grid)
  {
  }

  /** Appending a cell not yet listed keeps the list duplicate-free. */
  lemma ListsFresh(valid: seq<Cell>, seen: set<Cell>, x: Cell)
    requires x !in seen && |valid| == |seen| && forall p :: p in valid <==> p in seen
    ensures |valid + [x]| == |seen + {x}| && forall p :: p in valid + [x] <==> p in seen + {x}
  {
  }

  /**
   * Part 1: `valid_indices` lists every accessible roll once, in row-major
   * order; an empty grid gives no answer.
   */
  method Part1(grid: seq<string>) returns (answer: Option<nat>, valid: seq<Cell>)
    requires Part1Readable(grid)
    ensures grid == [] <==> answer == None
    ensures answer.Some? ==> answer.value == |AccessibleCells(grid)| == |valid|
    ensures forall p :: p in valid <==> p in AccessibleCells(grid)
  {
    valid := [];
    if grid == [] {
      return None, valid;
    }
    ghost var seen: set<Cell> := {};
    for r := 0 to |grid|
      invariant seen == AccessibleBefore(grid, r, 0)
      invariant |valid| == |seen| && forall p :: p in valid <==> p in seen
    {
      for c := 0 to |grid[r]|
        invariant seen == AccessibleBefore(grid, r, c)
        invariant |valid| == |seen| && forall p :: p in valid <==> p in seen
      {
        AccessibleBeforeNext(grid, r, c);
        if grid[r][c] == Target {
          var count := CountNeighbors(grid, r, c, Target);
          if count <= Limit {
            ListsFresh(valid, seen, (r, c));
            valid := valid + [(r, c)];
            seen := seen + {(r, c)};
          }
        }
      }
      AccessibleBeforeRow(grid, r);
    }
    AccessibleBeforeEnd(grid);
    answer := Some(|valid|);
  }

  /** The `@` cells part 2 ranges over: columns stop at the first row's length. */
  function Rolls(grid: seq<string>): set<Cell>
  {
    set r, c | 0 <= r < |grid| && 0 <= c < Cols(grid) && c < |grid[r]| && grid[r][c] == Target :: (r, c)
  }

  /** A roll not yet marked whose block holds at most four unmarked rolls. */
  predicate Removable(grid: seq<string>, marked: set<Cell>, r: int, c: int)
  {
    0 <= r < |grid| && 0 <= c < Cols(grid) && c < |grid[r]| && grid[r][c] == Target && (r, c) !in marked
    && Neighbors(grid, r, c, Target, marked) <= Limit
  }

  function CandidatesBefore(grid: seq<string>, marked: set<Cell>, row: int, col: int): set<Cell>
  {
    set r, c | 0 <= r < |grid| && 0 <= c < Cols(grid) && (r < row || (r == row && c < col)) && Removable(grid, marked, r, c) :: (r, c)
  }

  /** The cells one round of part 2 adds to `marked`. */
  function Candidates(grid: seq<string>, marked: set<Cell>): (cands: set<Cell>)
  {
    set r, c | 0 <= r < |grid| && 0 <= c < Cols(grid) && Removable(grid, marked, r, c) :: (r, c)
  }

  /** Candidates are rolls that were not marked yet. */
  lemma CandidatesFresh(grid: seq<string>, marked: set<Cell>)
    ensures Candidates(grid, marked) <= Rolls(grid)
    ensures Candidates(grid, marked) !! marked
  {
  }

  lemma CandidatesBeforeNext(grid: seq<string>, marked: set<Cell>, row: int, col: int)
    requires 0 <= row < |grid| && 0 <= col < Cols(grid)
    ensures CandidatesBefore(grid, marked, row, col + 1)
         == CandidatesBefore(grid, marked, row, col) + (if Removable(grid, marked, row, col) then {(row, col)} else {})
  {
  }

  lemma CandidatesBeforeRow(grid: seq<string>, marked: set<Cell>, row: int)
    requires 0 <= row < |grid|
    ensures CandidatesBefore(grid, marked, row, Cols(grid)) == CandidatesBefore(grid, marked, row + 1, 0)
  {
  }

  lemma CandidatesBeforeEnd(grid: seq<string>, marked: set<Cell>)
    ensures CandidatesBefore(grid, marked, |grid|, 0) == Candidates(grid, marked)
  {
  }

  /** The inner offset loops of part 2: like `CountNeighbors`, skipping marked cells. */
  method CountUnmarked(grid: seq<string>, r: int, c: int, marked: set<Cell>) returns (count: nat)
    requires BlockReadable(grid, r, c)
    ensures count == Neighbors(grid, r, c, Target, marked)
    ensures count <= 9
  {
    count := 0;
    for dr := -1 to 2
      invariant count == BlockHits(grid, r, c, Target, marked, dr + 1)
    {
      for dc := -1 to 2
        invariant count == BlockHits(grid, r, c, Target, marked, dr + 1) + RowHits(grid, r + dr, c, Target, marked, dc + 1)
      {
        var nr, nc := r + dr, c + dc;
        if 0 <= nr < |grid| && 0 <= nc < Cols(grid) {
          if grid[nr][nc] == Target {
            if (nr, nc) !in marked {
              count := count + 1;
            }
          }
        }
      }
    }
  }

  /** One pass of the `while True` body: the set `newly_valid_candidates`. */
  method Round(grid: seq<string>, marked: set<Cell>) returns (cands: set<Cell>)
    requires WellFormed(grid)
    ensures cands == Candidates(grid, marked)
  {
    cands := {};
    for r := 0 to |grid|
      invariant cands == CandidatesBefore(grid, marked, r, 0)
    {
      for c := 0 to Cols(grid)
        invariant cands == CandidatesBefore(grid, marked, r, c)
      {
        CandidatesBeforeNext(grid, marked, r, c);
        if grid[r][c] == Target && (r, c) !in marked {
          WellFormedReadable(grid, r, c);
          var count := CountUnmarked(grid, r, c, marked);
          if count <= Limit {
            cands := cands + {(r, c)};
          }
        }
      }
      CandidatesBeforeRow(grid, marked, r);
    }
    CandidatesBeforeEnd(grid, marked);
  }

  /** Up to `fuel` rounds of `step`, each adding what it returns, stopping at the first empty round. */
  function Iterate(step: set<Cell> -> set<Cell>, marked: set<Cell>, fuel: nat): set<Cell>
    decreases fuel
  {
    if fuel == 0 || step(marked) == {} then marked
    else Iterate(step, marked + step(marked), fuel - 1)
  }

  /** `step` only ever returns cells of `universe` that are not marked yet. */
  ghost predicate AddsFresh(step: set<Cell> -> set<Cell>, universe: set<Cell>)
  {
    forall m :: step(m) <= universe && step(m) !! m
  }

  /**
   * For a step that adds fresh cells of a finite universe, each non-final
   * round grows the marking, so |universe| + 1 rounds reach a fixed point
   * inside the universe.
   */
  lemma {:induction false} IterateReachesFixedPoint(step: set<Cell> -> set<Cell>, universe: set<Cell>, marked: set<Cell>, fuel: nat)
    requires AddsFresh(step, universe) && marked <= universe && |universe| - |marked| < fuel
    ensures Iterate(step, marked, fuel) <= universe
    ensures step(Iterate(step, marked, fuel)) == {}
    decreases fuel
  {
    SubsetCard(marked, universe);
    var added := step(marked);
    if added != {} {
      var x :| x in added;
      SubsetCard(marked + {x}, marked + added);
      SubsetCard(marked + added, universe);
      IterateReachesFixedPoint(step, universe, marked + added, fuel - 1);
    }
  }

  /** Once a round adds nothing, further rounds change nothing. */
  lemma IterateStable(step: set<Cell> -> set<Cell>, marked: set<Cell>, fuel: nat)
    requires step(marked) == {}
    ensures Iterate(step, marked, fuel) == marked
  {
  }

  /** One round of part 2 as a step function. */
  function RoundStep(grid: seq<string>): set<Cell> -> set<Cell>
  {
    marked => Candidates(grid, marked)
  }

  /** At most `fuel` rounds of part 2 starting from `marked`. */
  function Peel(grid: seq<string>, marked: set<Cell>, fuel: nat): set<Cell>
  {
    Iterate(RoundStep(grid), marked, fuel)
  }

  lemma RoundAddsFresh(grid: seq<string>)
    ensures AddsFresh(RoundStep(grid), Rolls(grid))
  {
    forall m {
      CandidatesFresh(grid, m);
    }
  }

  /** A round that finds candidates marks strictly more rolls, and only rolls. */
  lemma RoundGrows(grid: seq<string>, marked: set<Cell>)
    requires marked <= Rolls(grid) && Candidates(grid, marked) != {}
    ensures marked + Candidates(grid, marked) <= Rolls(grid)
    ensures |marked| < |marked + Candidates(grid, marked)| <= |Rolls(grid)|
  {
    var cands := Candidates(grid, marked);
    CandidatesFresh(grid, marked);
    var x :| x in cands;
    SubsetCard(marked + {x}, marked + cands);
    SubsetCard(marked + cands, Rolls(grid));
  }

  /** One round of `Peel`: stop on an empty round, otherwise add the candidates. */
  lemma PeelStep(grid: seq<string>, marked: set<Cell>, fuel: nat)
    requires fuel > 0
    ensures Candidates(grid, marked) == {} ==> Peel(grid, marked, fuel) == marked
    ensures Candidates(grid, marked) != {} ==> Peel(grid, marked, fuel) == Peel(grid, marked + Candidates(grid, marked), fuel - 1)
  {
  }

  /** When a round finds nothing, every unmarked roll has more than four unmarked rolls around it. */
  lemma NoCandidatesCrowded(grid: seq<string>, marked: set<Cell>)
    requires Candidates(grid, marked) == {}
    ensures forall p | p in Rolls(grid) && p !in marked :: Neighbors(grid, p.0, p.1, Target, marked) > Limit
  {
    forall p | p in Rolls(grid) && p !in marked
      ensures Neighbors(grid, p.0, p.1, Target, marked) > Limit
    {
      assert p !in Candidates(grid, marked);
    }
  }

  /** |rolls| + 1 rounds of part 2 from nothing reach a marking that no round extends. */
  lemma PeelReachesFixedPoint(grid: seq<string>)
    ensures Peel(grid, {}, |Rolls(grid)| + 1) <= Rolls(grid)
    ensures Candidates(grid, Peel(grid, {}, |Rolls(grid)| + 1)) == {}
  {
    RoundAddsFresh(grid);
    IterateReachesFixedPoint(RoundStep(grid), Rolls(grid), {}, |Rolls(grid)| + 1);
  }

  /**
   * Part 2: marks rolls round by round until a round finds none; the answer
   * is the number of marked rolls, and an empty grid gives no answer.
   */
  method Part2(grid: seq<string>) returns (answer: Option<nat>, valid: set<Cell>, ghost rounds: nat)
    requires WellFormed(grid)
    ensures grid == [] <==> answer == None
    ensures answer.Some? ==> answer.value == |valid|
    ensures valid == Peel(grid, {}, |Rolls(grid)| + 1)
    ensures valid <= Rolls(grid)
    ensures rounds <= |Rolls(grid)| + 1
    ensures forall p | p in Rolls(grid) && p !in valid :: Neighbors(grid, p.0, p.1, Target, valid) > Limit
  {
    valid := {};
    rounds := 0;
    if grid == [] {
      return None, valid, rounds;
    }
    ghost var fuel := |Rolls(grid)| + 1;
    while true
      invariant valid <= Rolls(grid)
      invariant rounds <= |valid| && |valid| <= |Rolls(grid)|
      invariant Peel(grid, valid, fuel - rounds) == Peel(grid, {}, fuel)
      decreases |Rolls(grid)| - |valid|
    {
      var newlyValid := Round(grid, valid);
      if newlyValid == {} {
        PeelStep(grid, valid, fuel - rounds);
        rounds := rounds + 1;
        break;
      }
      RoundGrows(grid, valid);
      PeelStep(grid, valid, fuel - rounds);
      valid := valid + newlyValid;
      rounds := rounds + 1;
    }
    answer := Some(|valid|);
    NoCandidatesCrowded(grid, valid);
  }

  /** On a rectangular grid the first round of part 2 finds exactly the part 1 cells. */
  lemma FirstRoundIsPart1(grid: seq<string>)
    requires Rectangular(grid)
    ensures Candidates(grid, {}) == AccessibleCells(grid)
  {
  }
}
