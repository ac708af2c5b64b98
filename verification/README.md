# Advent of Code solutions, modelled and verified in Dafny

This project models the algorithmic core of twelve Advent of Code puzzle
scripts (`Day01/main.py` … `Day12/main.py`). Each script reads an input file,
runs a deterministic algorithm over integers, strings or exact rationals, and
prints an answer. The model keeps the algorithm and drops the file reading and
printing. Each script's input arrives as a sequence of already-read lines, and
each answer is a returned value.

One Dafny module models each script. Day 10 and Day 11 are split into several
modules:

- `Day01`: a dial with 100 positions. Part 1 counts the rotations that stop on
  0. Part 2 uses a closed-form count of the clicks that pass 0.
- `Day02`: predicates on the decimal string of a number ("one half repeated",
  "one block repeated"), and sums of them over inclusive ranges.
- `Day03`: greedy choice of the largest 2-digit and 12-digit subsequences of a
  digit line.
- `Day04`: counting cells of a 3×3 block, and a monotone fixed point that
  peels cells off a grid.
- `Day05`: a parser with a range section and a number section, membership
  counting, and merging of sorted inclusive intervals.
- `Day06`: transposing a word grid, grouping character columns, and a
  sum-or-product fold.
- `Day07`: a memoised count of beam paths through a grid of splitters.
- `Day08`: union-find with path compression and union by size, driven over
  edges sorted by squared distance, in the style of Kruskal's algorithm.
- `Day09`: the largest rectangle spanned by two points, with or without a
  coverage test.
- `Day10Parse`, `Day10Lights`, `Day10Matrix`, `Day10Basis`, `Day10Limits`,
  `Day10Search`, `Day10Part2`: the button-machine solver.
  - It parses each line into bit masks and counter vectors.
  - It runs a breadth-first search over XOR states.
  - It does Gaussian elimination over exact rationals (`Fraction` is `real`).
  - It builds an affine basis of the solutions.
  - It tightens intervals on the free parameters.
  - It runs a branch-and-bound search for a total number of presses (the
    source aims at the smallest).
- `Day11Graph`, `Day11Paths`, `Day11Parts`: graph inversion, an iterative
  depth-first topological sort, path counting by dynamic programming, and
  both puzzle parts.
- `Day12`: a parser that classifies lines, and an area check.

Three shared modules model parts of Python's built-in semantics:

- `Base` holds `Option`, sums and products.
- `Text` holds `str.split`, `str.split()`, `strip`, `int()`, `str()` and
  `isdigit`, with their round-trip lemmas.
- `Sorting` holds an insertion sort that stands in for `list.sort`.

Where the source changes state step by step, the model does too: methods with
loops and invariants, classes with `modifies` frames (Day07's `BeamSearch`
memo, the union-find forest), an array for the matrix, and loops over sequence
values for the interval list. Each such method is proved against a
specification function, and the properties the program promises are proved
about that function.

## Model

| member | source | states |
|---|---|---|
| Day01.Rotate | Day01/main.py:44-47 | The new dial position always lies in [0, 100), whatever the distance. A direction other than `L` or `R` leaves the position unchanged. |
| Day01.PositionStep | Day01/main.py:38-47 | An instruction whose distance does not parse leaves the dial where it was. A parsed one moves it by `Rotate`. |
| Day01.Turn | Day01/main.py:99-102 | Part 2's position update is exactly part 1's rotation. |
| Day01.Part1 | Day01/main.py:27-52 | The answer is the number of parsed instructions after which the dial shows 0. |
| Day01.RightCrossings | Day01/main.py:76-79 | For `R` from any position, `(P+d)//100` equals the number of single clicks that land on 0. |
| Day01.LeftCrossings | Day01/main.py:87-95 | For `L` from a position P>0, the formula (0 when d<P, otherwise `1+(d-P)//100`) equals the number of clicks that land on 0. |
| Day01.LeftFromZeroUndercounts | Day01/main.py:83-86 | For `L` from 0, the formula gives 0 for `L100` (one click lands on 0) and -1 for `L0` (no click does). |
| Day01.LeftFromZeroClicks | Day01/main.py:83-86 | Turning left from 0 by d lands on 0 exactly `d//100` times. |
| Day01.FixedCountsClicks | Day01/main.py:76-95 | With `d//100` for `L` from 0, the formula equals the click count in every case. |
| Day01.AsWrittenDefect | Day01/main.py:76-95 | The formula as written is exactly one below the click count when turning `L` from 0 by a multiple of 100. Otherwise it is exact. |
| Day01.Part2 | Day01/main.py:56-104 | The total equals the sum of the formula over the parsed instructions, each taken from the position the earlier ones left. |
| Day01.CrossingsUndercount | Day01/main.py:65-102 | Part 2's total equals the true number of clicks on 0 minus the number of instructions that turn `L` from 0 by a multiple of 100. |
| Day01.FixedAddsDefect | Day01/main.py:83-86 | For every distance, including negative ones, `d//100` in place of `(d-1)//100` adds exactly one on a left turn from 0 by a multiple of 100, and changes nothing otherwise. |
| Day01.Part2Fixed | Day01/main.py:56-104 | Part 2 with the corrected formula returns the as-written total plus the number of defective turns. On non-negative distances, that is the true number of clicks on 0. |
| Day02.BlocksMatch | Day02/main.py:90-99 | The block-by-block comparison succeeds if and only if the string is copies of its first `block_len` characters. |
| Day02.IsFullyRepeatingBlock | Day02/main.py:76-105 | True if and only if some block length in 1..len/2 divides the length and the string is copies of that block. |
| Day02.SelfReflectingRepeats | Day02/main.py:45-58 | A number whose two halves are equal is also a repeated block, with block length len/2. |
| Day02.SingleDigitNeither | Day02/main.py:51-52 | A single-digit number satisfies neither predicate. |
| Day02.OddRepetitionOnlyPart2 | Day02/main.py:76-105 | 111 repeats a block but has no two equal halves, so the two predicates differ. |
| Day02.SelfReflectingSum | Day02/main.py:68-70 | The inner loop adds exactly the self-reflecting numbers of the inclusive range. |
| Day02.Part1 | Day02/main.py:60-72 | The answer is the sum, over every range, of its self-reflecting numbers. |
| Day02.RepeatedSum | Day02/main.py:115-117 | The inner loop adds exactly the repeated-block numbers of the inclusive range. |
| Day02.Part2 | Day02/main.py:107-119 | The answer is the sum, over every range, of its repeated-block numbers. |
| Day02.Part2AtLeastPart1 | Day02/main.py:66-70 | For ranges that start at 0 or above, the part 2 sum is at least the part 1 sum. |
| Day02.GetRanges | Day02/main.py:17-38 | With no non-blank line the result is empty. Otherwise it is the well-formed `low-high` tokens of the first non-blank line, in order. |
| Day02.ParsedRangesNatural | Day02/main.py:28-36 | Every parsed bound is a natural number. |
| Day02.LineRoundTrip | Day02/main.py:26-36 | Parsing the line `low-high,...` written from any non-empty list of natural ranges gives back that list. |
| Text.SplitJoin | Day02/main.py:26 | `str.split(sep)` inverts joining with `sep` when no part contains `sep`. |
| Text.JoinSplit | Day02/main.py:26 | Joining the parts of `str.split(sep)` with `sep` gives back the string. |
| Text.ParseIntOfNatToString | Day02/main.py:47 | `int(str(n)) == n` for every natural n. |
| Text.TokenRangeOfToken | Day02/main.py:32-33 | The token `low-high` of two naturals parses back to `(low, high)`. |
| Day03.FirstMaxIndexIsFirstMax | Day03/main.py:44-48 | The index found holds the largest digit of the window, and every earlier index holds a smaller digit. |
| Day03.ProcessLinePart1 | Day03/main.py:23-70 | A line with a character that is not a digit raises (`None`), and no other line does. A line of fewer than two digits gives 0. Otherwise the result is at most 99, is `10*a+b` for some digits at indices i<j, and is at least every such pair. |
| Day03.FindFirst | Day03/main.py:119-124 | The new start is just after the first maximum of the window. An empty window leaves it where it was. |
| Day03.ProcessLinePart2 | Day03/main.py:87-126 | The result is the number spelled by the digits the greedy loop picks. |
| Day03.GreedyIndicesValid | Day03/main.py:99-124 | The greedy picks come from strictly increasing indices within the line. |
| Day03.LoopIsGreedy | Day03/main.py:106-124 | Each pick of the loop is the first maximum of the window that still leaves enough digits to finish. |
| Day03.Part2Optimal | Day03/main.py:87-126 | When the line has at least `target_length` digits, exactly that many are picked, and no other choice of that many digits at increasing indices spells a larger number. |
| Day03.ShortLineCount | Day03/main.py:106-114 | With fewer digits than `target_length`, the negative slice end follows Python's slicing rules. The number of digits picked is then given in closed form. |
| Day04.CountNeighbors | Day04/main.py:23-42 | Requires only that the lookups the bounds test lets through are in range (otherwise `grid[nr][nc]` raises `IndexError`). The count is the number of target cells inside the grid in the 3×3 block around (r, c), centre included. It is at most 9. |
| Day04.NeighborsAntitone | Day04/main.py:109-113 | Excluding more cells never increases the count. |
| Day04.Part1 | Day04/main.py:46-66 | Requires only that the blocks of the `@` cells can be read. An empty grid gives no answer. Otherwise a cell is listed if and only if it holds `@` and its block has at most 4 `@`, and the answer is the number of such cells. |
| Day04.CountUnmarked | Day04/main.py:104-113 | Requires only that the block's lookups are in range. The count covers `@` cells of the block that are not yet valid. |
| Day04.Round | Day04/main.py:93-117 | The candidates of one pass are exactly the unmarked `@` cells with at most 4 unmarked `@` in their block. |
| Day04.RoundGrows | Day04/main.py:119-124 | A round that does not stop adds at least one new `@` cell and stays within the `@` cells. |
| Day04.PeelReachesFixedPoint | Day04/main.py:91-124 | After (number of `@` cells) + 1 rounds, the valid set lies within the `@` cells and yields no further candidates. |
| Day04.NoCandidatesCrowded | Day04/main.py:100-121 | When a pass finds nothing, every `@` outside the valid set has more than 4 non-valid `@` in its block. |
| Day04.Part2 | Day04/main.py:70-130 | An empty grid gives no answer. Otherwise the answer is the size of the valid set, which is the fixed point of the peeling. The loop runs at most (number of `@` cells) + 1 rounds, and every `@` left out is crowded. |
| Day04.FirstRoundIsPart1 | Day04/main.py:56-64 | On a rectangular grid, the first round's candidates are exactly the cells part 1 counts. |
| Day05.SwitchIsFirst | Day05/main.py:35-56 | The parser leaves range mode at the first blank line or the first line that is not a range, and never returns to it. |
| Day05.RangesOnePerLine | Day05/main.py:43-47 | Each line before the switch contributes exactly its `(low, high)`, in order. |
| Day05.ParseInput | Day05/main.py:29-64 | The ranges and numbers returned are those of the two-mode parse. The line that ends range mode counts as a number only if it is all digits, and later lines count if `int()` accepts them. |
| Day05.Part1 | Day05/main.py:68-86 | The count is the number of check numbers that lie in some inclusive range, each counted at most once. |
| Day05.MergeRanges | Day05/main.py:90-120 | The loop computes the merge of the ranges after sorting them by lower bound. |
| Day05.SortByLowPermutes | Day05/main.py:98 | Sorting by lower bound keeps exactly the same ranges. |
| Day05.MergeShape | Day05/main.py:94-118 | An empty input gives an empty output, and a non-empty input gives a non-empty output no longer than the input. The output is sorted, and each range starts more than one past the end of the one before. |
| Day05.MergeCover | Day05/main.py:103-118 | For ranges with low ≤ high, merging keeps exactly the same set of covered integers. |
| Day05.MergeIdempotent | Day05/main.py:90-120 | Merging an already merged list changes nothing. |
| Day05.TotalSizeCounts | Day05/main.py:137-139 | For separated proper ranges, the sum of `high-low+1` is the number of integers covered. |
| Day05.Part2 | Day05/main.py:123-141 | The total is the summed size of the merged ranges. For ranges with low ≤ high, it is the number of integers in their union. |
| Day06.Evaluate | Day06/main.py:63-70 | `+` sums the operands. Any other operator multiplies them, and an empty product is 1. |
| Day06.OperandOfInt | Day06/main.py:61 | The operand filter accepts the decimal text of every integer, negatives included, with its value. |
| Day06.OperandIsInt | Day06/main.py:61 | Whatever the operand filter accepts, `int()` reads to the same value. |
| Day06.Transposed | Day06/main.py:42-52 | Column j lists the j-th word of every row in row order, skipping rows that are too short. |
| Day06.Part1 | Day06/main.py:22-73 | No answer when there are no lines or the first line has no words. Otherwise the answer is the sum over columns of the operator applied to the integer-looking operands before it. |
| Day06.ColumnString | Day06/main.py:107-121 | The column string reads top to bottom, with a space wherever a line is too short. |
| Day06.GroupsKeepNumbers | Day06/main.py:123-146 | Grouping loses and reorders no number: the groups, concatenated, are the column numbers in order. |
| Day06.GroupsNonEmpty | Day06/main.py:128-130 | Every group kept is non-empty. |
| Day06.GroupsSplitAtBlank | Day06/main.py:126-130 | A whitespace-only column splits the groups into those before it and those after it. |
| Day06.PairedTotalIgnoresExtra | Day06/main.py:152 | Groups or commands beyond the shorter list do not affect the total. |
| Day06.Part2 | Day06/main.py:77-166 | No answer for fewer than two lines. Otherwise the answer pairs the i-th group with the i-th command, up to the shorter of the two, and sums the results. |
| Day07.ReachedSound | Day07/main.py:56-67 | Every splitter the search records is a splitter at the end of some beam path from the start. |
| Day07.ReachedComplete | Day07/main.py:56-67 | Every splitter at the end of a beam path from the start is recorded. So `splitter_indices` is exactly the set of splitters reached. |
| Day07.NoSplitterOnePath | Day07/main.py:41-67 | A beam that meets no splitter yields 1 path when it starts below the grid or inside its width, and 0 when it starts outside the width. |
| Day07.AdjacentSplittersDiverge | Day07/main.py:56-67 | Two horizontally adjacent splitters make the unmemoised recursion run out of any depth budget, so `beam_down` never returns there. |
| Day07.ReachedAdjacentDiverges | Day07/main.py:56-67 | A beam that can reach a splitter with a splitter beside it never returns, whatever the depth budget. So the condition `Both` requires on splitters is exactly the one under which the source finishes. |
| Day07.GridSafe | Day07/main.py:38-67 | A grid with no row shorter than the first and no two adjacent splitters is safe from every cell. |
| Day07.PathsFuelEnough | Day07/main.py:56-67 | From a cell whose reachable part has no adjacent splitters, the recursion needs only a bounded depth and then returns the path count. |
| Day07.BeamSearch.BeamDown | Day07/main.py:26-71 | The result is the unmemoised path count. Every memo entry stays equal to the unmemoised value, the memo only grows, and the splitter set grows by exactly the splitters this call reaches. |
| Day07.Both | Day07/main.py:73-115 | Requires only that every cell the beam can reach is readable and that no reached splitter has a splitter beside it. No answer for an empty grid or a first row without `S`. Otherwise the search starts at row 1 below the first `S`, and the answers are the number of splitters reached and the number of paths. |
| Day08.SquaredDistance | Day08/main.py:33-34 | The squared distance is non-negative and is 0 exactly for equal points. |
| Day08.PairEdges | Day08/main.py:28-35 | The list holds one edge for every pair i<j, weighted by squared distance, and lists no pair twice. |
| Day08.SortedEdges | Day08/main.py:37-38 | Sorting keeps the same edges and puts them in ascending order of distance. |
| Day08.UnionFind.constructor | Day08/main.py:40-43 | Every element starts as its own root with size 1, and there are n components. |
| Day08.UnionFind.Find | Day08/main.py:45-49 | `find` returns the root of `i` (an element that is its own parent). Path compression changes no element's root, no size and no count. |
| Day08.CompressKeeps | Day08/main.py:48 | Pointing a non-root straight at its root keeps the forest, the set of roots and the root sizes. |
| Day08.UnionFind.Union | Day08/main.py:51-63 | The result is true iff the two roots differed. Afterwards i and j share a root, and exactly the elements of their two sets move to it. The larger set's root wins, its size becomes the sum, and the count drops by one only on a merge. |
| Day08.UnionFind.Link | Day08/main.py:59-61 | Linking one root under another relabels exactly the loser's elements, adds the sizes and removes one component. |
| Day08.LinkCounts | Day08/main.py:57-61 | After a link, `num_components` is still the number of roots, every root's size is still the number of its elements, and the sizes of the roots still sum to n. |
| Day08.OneComponent | Day08/main.py:83 | The count is 1 iff all elements share one root. |
| Day08.ConnectedTogether | Day08/main.py:69-73 | After processing the first m edges, the two ends of each of those edges are in the same circuit. Only this direction is proved: that boxes sharing a circuit are joined by a chain of edges is not stated. |
| Day08.ConnectPair | Day08/main.py:69-73 | One connection makes the union-find equal to the circuits of the edges so far. A merge happens only while the boxes are not yet all in one circuit. |
| Day08.SpanningStays | Day08/main.py:82-84 | Once every box is in one circuit, connecting further edges keeps it so, which is why the loop may stop at the first such edge. |
| Day08.Start | Day08/main.py:40-43 | The fresh union-find matches the circuits of no connections, and with two or more boxes they are not yet one circuit. |
| Day08.Connection | Day08/main.py:69-80 | One pass of the loop body up to the part 2 test: the union-find afterwards matches the circuits of the edges so far, and the count is 1 iff they are one circuit. At index 999 part 1 becomes the product of the three largest root sizes, or the pass fails when fewer than three roots remain; at other indices part 1 is unchanged. |
| Day08.TopThreeLargest | Day08/main.py:79-80 | Sorting the root sizes in descending order keeps them all and puts the three largest first. |
| Day08.Connect | Day08/main.py:65-85 | Part 2 answers at the first edge after which all boxes form one circuit, with the product of the two x coordinates, and returns that edge's index. Without such an edge there is no part 2 answer. Part 1 is present iff edge index 999 is processed, and fewer than three roots at that point raise an error. |
| Day08.Solve | Day08/main.py:17-89 | A coordinate line that does not parse raises an error. Otherwise the pairs are connected in sorted order, where the list holds every pair i<j exactly once. Part 2 is the product of the x coordinates of the pair whose connection first puts every box in one circuit. Part 1 exists iff the list reaches index 999. |
| Day09.Area | Day09/main.py:42-44 | The area `(abs(x1-x2)+1)*(abs(y1-y2)+1)` is at least 1. |
| Day09.BoxOf | Day09/main.py:53-54 | The box has xmin ≤ xmax and ymin ≤ ymax, and its corners are the two points' coordinates. |
| Day09.MaxAreas | Day09/main.py:29-61 | Part 1 is the largest area over unordered pairs, or 0 with fewer than two points. Part 2 is the largest area over pairs whose box is covered, or 0 when there is none, and it never exceeds part 1. |
| Day09.Solve | Day09/main.py:24-64 | No answer without points. Otherwise part 1 is the largest area over all pairs (0 for a single point) and part 2 the largest area over the pairs whose box is covered (0 when there is none), so 0 ≤ part 2 ≤ part 1. |
| Day12.Region.Area | Day12/main.py:17-19 | The area of a region with non-negative sides is non-negative, and it is 0 when either side is 0. |
| Day12.SplitHeader | Day12/main.py:54 | Splitting at the first `:` gives a header without `:`, and the content after it. |
| Day12.BlankLineSkipped | Day12/main.py:44-45 | Blank lines change nothing. |
| Day12.ShapeRowAppended | Day12/main.py:48-50 | A row with `#` or `.` is appended to the open shape and changes nothing else. With no shape open it changes nothing. |
| Day12.ShapeHeaderOpens | Day12/main.py:57-60 | A header with empty content opens a new, empty shape under its number. |
| Day12.RegionHeaderAdds | Day12/main.py:61-73 | A header with content adds exactly one region built from `WxH` and the counts, and closes the open shape. It raises an error iff the sizes or counts do not parse. |
| Day12.OtherLineIgnored | Day12/main.py:43-53 | A line with no `#`, `.` or `:` is ignored. |
| Day12.ParseAllStops | Day12/main.py:43-73 | Once a line raises an error, the whole parse fails. |
| Day12.ParseAllConsistent | Day12/main.py:41-73 | After any successful parse, an open shape is always a key of the shape map. |
| Day12.OneRegionPerHeader | Day12/main.py:62-73 | A successful parse yields exactly one region per header line with content. |
| Day12.ParseInput | Day12/main.py:34-75 | The loop returns the shapes and regions of the line-by-line parse, and it fails exactly when that parse fails. |
| Day12.SolvePartOne | Day12/main.py:77-91 | The count is the number of regions whose area holds 9 cells per present. It is at most the number of regions. |
| Day12.EmptyRegionFits | Day12/main.py:84-89 | A region that needs no presents always fits. |
| Day12.SolvePartTwo | Day12/main.py:93-95 | Part 2 always answers 0. |
| Day10Parse.TargetMask | Day10/main.py:33-37 | Bit i of the target is set iff character i of the diagram is `#`. |
| Day10Parse.IntsOf | Day10/main.py:41 | Every comma-separated field is read with `int()`, and the parse fails iff some field is not an integer. |
| Day10Parse.ButtonMask | Day10/main.py:44-49 | A button's mask has bit p set iff p is listed. A negative position raises an error, because a shift by a negative count does. |
| Day10Parse.CounterVector | Day10/main.py:59-66 | A button's vector has length max+1, and each entry is the number of times that position is listed. |
| Day10Parse.ButtonMasks | Day10/main.py:44-49 | One mask per button. The list fails iff some button lists a negative position. |
| Day10Parse.ButtonVectors | Day10/main.py:59-66 | One counter vector per button, and entry p of vector k counts how often button k lists p. |
| Day10Parse.ParseRow | Day10/main.py:29-68 | One row gives the target mask and button masks for part 1, and the joltage targets and button vectors for part 2, or an error. |
| Day10Parse.GetMachineData | Day10/main.py:25-68 | The loop returns the machines of the row-by-row parse: blank rows are skipped, and an error in any row ends the parse. |
| Day10Parse.OneMachinePerRow | Day10/main.py:25-68 | A successful parse yields one part 1 machine and one part 2 machine per non-blank row. |
| Day10Parse.MachinesAgree | Day10/main.py:44-66 | The part 1 mask and the part 2 vector of every button agree: bit p is set iff the vector's entry p is positive. |
| Day10Parse.ParseMachinesStops | Day10/main.py:25-68 | Once a row raises an error, the whole parse fails. |
| Day10Lights.XorTwice | Day10/main.py:95 | Pressing the same button twice undoes it. |
| Day10Lights.ReachByPresses | Day10/main.py:81-98 | A state is reached within k levels of the search iff some sequence of at most k presses gives it. |
| Day10Lights.MinPressesFewest | Day10/main.py:76-100 | The answer is the fewest presses whose XOR is the target. It is 0 when the target is 0, and 0 when the target cannot be reached. |
| Day10Lights.Push | Day10/main.py:94-98 | Adding an unseen state, one step deeper, keeps the search invariant. The queue stays ordered by steps. Every queued state is reached in exactly its number of steps. Every visited state is reached within one level of the current one. |
| Day10Lights.Visit | Day10/main.py:95-98 | Trying one button adds its next state to `visited`, and queues it only when it is new. The search invariant is kept. |
| Day10Lights.Advance | Day10/main.py:88-89 | Moving on to the next press count keeps the search invariant once the queue head is one press deeper. |
| Day10Lights.Pop | Day10/main.py:88-92 | Taking a state off the queue once all its successors are seen keeps the search invariant. |
| Day10Lights.Expand | Day10/main.py:94-98 | One sweep over the buttons keeps the invariant. It either marks a new state visited or shortens the queue, so the loop terminates. |
| Day10Lights.SolvePartOne | Day10/main.py:76-100 | `solve_part1` returns the fewest button presses that reach the target, or 0 when none reach it. |
| Day10Lights.PartOne | Day10/main.py:417-418 | Part 1 is the sum of the fewest presses over all machines, and it is non-negative. |
| Day10Matrix.ScaleRowKeeps | Day10/main.py:138-143 | Scaling a row by a non-zero factor keeps the solution set. |
| Day10Matrix.SubRowKeeps | Day10/main.py:145-157 | Subtracting a multiple of another row keeps the solution set. |
| Day10Matrix.SwapKeeps | Day10/main.py:134-136 | Swapping two rows keeps the solution set. |
| Day10Matrix.FindPivot | Day10/main.py:124-129 | The pivot search returns the first row at or below the current one with a non-zero entry in the column, or -1 when the column is zero there. |
| Day10Matrix.ScaleFrom | Day10/main.py:139-143 | Entries from the pivot column on are multiplied by the ratio, and earlier entries are kept. |
| Day10Matrix.SubtractFrom | Day10/main.py:146-157 | Entries from the pivot column on lose the scaled pivot row's entry, and earlier entries are kept. |
| Day10Matrix.EliminateBelow | Day10/main.py:145-157 | With a leading 1 at the current pivot, every row below gets 0 in that column. The pivot is recorded, and the solution set is unchanged. |
| Day10Matrix.PivotStep | Day10/main.py:134-157 | Swapping, normalising and eliminating one pivot keeps the solution set. The pivot row gets a leading 1 with zeros below it. |
| Day10Matrix.ReduceMatrix | Day10/main.py:106-159 | An empty matrix is left untouched. Otherwise the dimensions are kept and the result is in row echelon form: every pivot row has a leading 1, the pivot columns increase, every entry below a pivot is 0, and the rows past the last pivot are 0. The solution set is unchanged. |
| Day10Basis.ConstraintsArePivots | Day10/main.py:343 | After elimination, the number of non-zero rows is the number of pivots. |
| Day10Basis.ConstraintsFit | Day10/main.py:346-348 | For a consistent system there are never more constraints than buttons. |
| Day10Basis.MarkFree | Day10/main.py:359-374 | Every free column gets coefficient 1 on its own parameter slot, and every pivot column starts at zero. The slots of the free columns fit in the basis. |
| Day10Basis.MarkColumn | Day10/main.py:367-374 | One column step. `row_ptr` advances exactly on the next pivot column, and otherwise the column gets the next free parameter slot. |
| Day10Basis.PivotColumn | Day10/main.py:379-384 | The scan stops at the row's first non-zero coefficient, or at the number of buttons when the row has none. |
| Day10Basis.SubtractForm | Day10/main.py:390-393 | Subtracts `factor` times another button's form, entry by entry. |
| Day10Basis.PivotForm | Day10/main.py:386-393 | The pivot button's form becomes the row's constant minus the row's later coefficients times their forms. Every other form is kept. |
| Day10Basis.SubstituteRow | Day10/main.py:378-393 | Handling constraint k, after the later ones are done, extends the back substitution to rows k and below. |
| Day10Basis.BackSubstitute | Day10/main.py:376-393 | Free columns keep their unit rows. Each pivot column becomes the pivot row's constant minus that row's coefficients times the later columns' forms. |
| Day10Basis.RoundTrip | Day10/main.py:359-393 | For a consistent system and any parameter values, the button counts read off the basis solve every row of the reduced system. |
| Day10Basis.Parameterize | Day10/main.py:359-393 | Every solution of a consistent system is the basis evaluated at that solution's free-column values. |
| Day10Basis.CostGradient | Day10/main.py:398-400 | Entry d of the gradient is the sum of column d of the basis. |
| Day10Basis.GradientTotal | Day10/main.py:395-400 | The gradient evaluated at any parameters is the total number of presses at those parameters. |
| Day10Limits.Ceil | Day10/main.py:215 | `math.ceil` gives the least integer at or above x. |
| Day10Limits.Floor | Day10/main.py:219 | `math.floor` gives the greatest integer at or below x. |
| Day10Limits.NewLimitNarrower | Day10/main.py:207-220 | A new limit is never wider: the lower limit only rises and the upper limit only falls. |
| Day10Limits.NewLimitSound | Day10/main.py:176-220 | No integer assignment that keeps the row non-negative is cut off by the new limit. |
| Day10Limits.Tighten | Day10/main.py:207-220 | One update replaces only slot i's limit, and it reports a change iff the limits changed. |
| Day10Limits.PartialSums | Day10/main.py:188-205 | The loop over the other parameters computes the partial-sum interval of the equation. |
| Day10Limits.RowPass | Day10/main.py:180-220 | One row's updates refine the limits, and a pass without updates keeps them. |
| Day10Limits.Pass | Day10/main.py:176-220 | One pass over all rows keeps fixed slots at `[p, p]`, only narrows the other limits, and loses no admissible assignment. With no update the limits are unchanged. |
| Day10Limits.InitialSound | Day10/main.py:168-171 | Every admissible assignment lies in the starting limits: `[0, inf]` for an unset slot and `[p, p]` for a set one. |
| Day10Limits.ReduceLimits | Day10/main.py:161-226 | The final limits refine the starting ones, and every admissible assignment still lies within them. |
| Day10Limits.DeadEmpty | Day10/main.py:222-224 | Limits with lower above upper hold no assignment. |
| Day10Search.BaseOutcomeSolution | Day10/main.py:240-251 | With every slot set, the base case gives a total iff every button count is a non-negative integer. |
| Day10Search.Evaluate | Day10/main.py:241-251 | The base case returns `inf` if any button count is negative or not whole, and otherwise their sum. |
| Day10Search.Tightest | Day10/main.py:261-271 | The slot explored is an unset slot of least width, where an infinite upper limit counts as 10⁹ as in the `min` key, and the first such slot on ties. None exactly when every slot is set. |
| Day10Search.Try | Day10/main.py:289-304 | One guess of the upward scan. A found total stays a solution's total, and no solution with that guess is missed. Only an error or running out of fuel stops the scan. |
| Day10Search.AnyEmpty | Day10/main.py:256-259 | The dead-path test holds iff some limit has lower above a finite upper. |
| Day10Search.Solver | Day10/main.py:228-323 | Every finite result is the total of a solution that extends the fixed slots, and `inf` comes only when no solution exists. With all slots set, the result is the base case. The error is raised only when some unset slot has a negative gradient. |
| Day10Search.ScanUp | Day10/main.py:285-304 | The upward scan gives the solver's answer: a total is the total of a solution with that slot set, and `inf` means there is none. It raises only through a nested call. |
| Day10Search.ScanDown | Day10/main.py:310-321 | From a finite upper limit, the downward scan gives the solver's answer: a total is the total of a solution with that slot set, and `inf` means there is none. |
| Day10Search.RecursiveSolver | Day10/main.py:228-236 | The top-level call starts with every slot unset. A basis without rows raises an error. |
| Day10Part2.PressingSolves | Day10/main.py:330-337 | A vector of press counts meets every joltage target iff it is non-negative and solves the augmented matrix `[Buttons \| Target]`. |
| Day10Part2.BuildMatrix | Day10/main.py:330-337 | Row r of the matrix holds entry r of every button vector (0 past its end), followed by target r. |
| Day10Part2.Eliminate | Day10/main.py:339-340 | After elimination, the matrix is in echelon form and has the same solutions as the augmented matrix. |
| Day10Part2.CountsOfSolution | Day10/main.py:240-251 | Every solution the search accepts gives non-negative press counts that solve the reduced system, with the same total. |
| Day10Part2.SolutionOfCounts | Day10/main.py:359-403 | Every valid pressing appears among the search's solutions, at its own free-column values. |
| Day10Part2.SolveReducedAsWritten | Day10/main.py:342-405 | More constraints than buttons gives 0. For a consistent system, the answer is the total of a valid pressing, or 0 when there is none. |
| Day10Part2.InconsistentMachineCounted | Day10/main.py:343-348 | For the machine `(0,1) (0,1) {1,2}`, the contradictory row counts as a constraint and the code reports 1 press, though no pressing exists. |
| Day10Part2.Inconsistent | Day10/main.py:343 | The added check holds iff some reduced row has zero coefficients and a non-zero constant. |
| Day10Part2.SolveReduced | Day10/main.py:342-405 | With the consistency check, every answer is the total of a valid pressing, or 0 when none exists. |
| Day10Part2.SolveMachineAsWritten | Day10/main.py:325-405 | When the system has a real solution, every total reported is the total of a valid pressing, or 0 when none exists. |
| Day10Part2.SolveMachine | Day10/main.py:325-405 | With the consistency check, this holds for every machine. |
| Day10Part2.PartTwo | Day10/main.py:422 | The part 2 sum over the solver as written: a total is the sum of one answer per machine, and each machine whose equations have a real solution gets an acceptable answer. |
| Day10Part2.PartTwoFixed | Day10/main.py:422 | With the consistency check, a total is the sum of one acceptable answer per machine, and it is never `inf`. |
| Day11Graph.ParseLine | Day11/main.py:26-27 | A row parses iff it has exactly one `:`. The source is the text before it, and the targets are the words after it. |
| Day11Graph.ParseGraph | Day11/main.py:22-28 | The map's keys are exactly the sources. Each source maps to the targets of its last row. |
| Day11Graph.BuildInvertedGraph | Day11/main.py:31-42 | p is a parent of c iff some row lists c as a child of p, and the keys are exactly the listed children. |
| Day11Graph.AddEdge | Day11/main.py:40-41 | Adding one edge adds exactly that parent to that child. |
| Day11Graph.AddParent | Day11/main.py:37-41 | Processing row k adds exactly its edges to the inverted graph. |
| Day11Graph.NoBackEdge | Day11/main.py:60-77 | In an acyclic graph, no edge leads back to a node it can reach. |
| Day11Graph.DfsStep | Day11/main.py:60-75 | One step pushes the first unvisited neighbour or pops a finished node, and keeps the search invariant. Either the visited set grows or the stack shrinks. |
| Day11Graph.FirstUnvisited | Day11/main.py:65-72 | The neighbour loop finds an unvisited neighbour iff one exists. |
| Day11Graph.PushKeeps | Day11/main.py:69-71 | Pushing an unvisited neighbour keeps the search invariant. |
| Day11Graph.PopKeeps | Day11/main.py:74-75 | Popping a node whose neighbours are all visited keeps the search invariant. |
| Day11Graph.Explore | Day11/main.py:56-75 | Exploring from an unvisited key marks it visited. It returns with the stack empty and the search invariant kept: every neighbour of a finished node was finished earlier or can reach that node. |
| Day11Graph.ReversedOrder | Day11/main.py:77 | On an acyclic graph, reversing the finishing order puts every node before all its neighbours. |
| Day11Graph.TopologicalSort | Day11/main.py:45-78 | Each key, and each node reachable from one, appears exactly once. On an acyclic graph, every edge u→v has u before v. |
| Day11Paths.InflowWalks | Day11/main.py:96-98 | The count flowing into a node is the sum of the walk counts of the nodes that feed it. |
| Day11Paths.CycleFound | Day11/main.py:100-102 | A neighbour that is already processed proves a cycle. |
| Day11Paths.FeederProcessed | Day11/main.py:92-98 | In topological order, every node feeding a node is processed before it. |
| Day11Paths.Propagate | Day11/main.py:96-102 | Propagation adds the current count to every neighbour. It stops with an error exactly at a neighbour that is already processed. |
| Day11Paths.CountStep | Day11/main.py:92-102 | Processing one node keeps the count invariant: each processed node holds its final walk count. |
| Day11Paths.Finish | Day11/main.py:92-104 | When all nodes are processed without error, the graph is acyclic and every count is final. |
| Day11Paths.CountPaths | Day11/main.py:81-104 | The error is raised iff the graph has a cycle. Otherwise every node's count, with 0 for a node never written, equals the number of walks from the start to it. |
| Day11Parts.PopStep | Day11/main.py:118-126 | Taking `out` off the queue counts one route. Taking another node replaces it by its targets, one level deeper. |
| Day11Parts.Pop | Day11/main.py:118-126 | Popping `out` removes it and counts one route. Popping any other node replaces it with its targets. Either way, the routes counted plus those still pending in the queue stay the same, and the depth reached grows by at most one. |
| Day11Parts.CountRoutes | Day11/main.py:113-126 | When the queue empties within `fuel` pops, the count is the number of routes from `you` that end on their first arrival at `out`. It is the same for every depth limit from `fuel` up. |
| Day11Parts.PartOne | Day11/main.py:107-128 | Part 1 parses the graph as `parse_graph` does (keys are the sources, the last row for a source wins) and counts the routes from `you` to `out`. |
| Day11Parts.TargetOnce | Day11/main.py:87 | On an acyclic graph, a node has exactly one path to itself. |
| Day11Parts.OneOrder | Day11/main.py:145-162 | On an acyclic graph, `dac` and `fft` are never each reachable from the other. So at most one of the two route orders contributes. |
| Day11Parts.Combined | Day11/main.py:149-162 | From complete count tables, the two products equal `Through`: routes svr→dac · routes dac→fft · routes fft→out, plus the same with `dac` and `fft` swapped. |
| Day11Parts.RoutesThrough | Day11/main.py:138-162 | The total exists iff the graph is acyclic. It is paths(svr→dac)·paths(dac→fft)·paths(fft→out) + paths(svr→fft)·paths(fft→dac)·paths(dac→out). |
| Day11Parts.PartTwo | Day11/main.py:131-163 | Part 2 builds the inverted graph and answers with that total, or raises on a cycle. |

## Left out

- File reading, printing, `sys.exit` and the `__main__` entry points are not modelled. Each script's lines arrive as a parameter. Where a script strips or filters lines while reading, the lines are taken as already stripped and filtered:
  - `get_lines_from_file` in Days 1, 3, 4, 7 and 8 keeps the non-blank lines with surrounding whitespace stripped;
  - `get_lines_from_file` in Day 6 strips only line ends, so inner and leading spaces stay;
  - `parse_input` in Day 11 strips lines and skips blank ones;
  - `read_input_file` in Day 12 strips lines but keeps blank ones. `parse_input` skips them, which the model does too (Day12.Step, Day12.BlankLineSkipped).
- Day 9's `get_points` (`map(int, line.split(','))` per non-blank line) is not modelled. The points arrive as a parameter.
- Day 10 part 1 runs `solve_part1` on a `ThreadPoolExecutor`. The model sums the machines one after another; the result is the same, since the sum is independent of the order.
- Day 10 positions and button masks are sets of bit positions rather than integers. `|`, `^` and `1 << p` become union, symmetric difference and `{p}`.
- `Fraction` is modelled as `real`, and `math.inf` as the `Ext` and `Outcome` datatypes. Floating-point `1e9` and `b / coeff_i` are exact here.
- Day10Limits.ReduceLimits: `reduce_limits` can loop for ever (for example with p0 − p1 − 1 ≥ 0 and p1 − p0 ≥ 0, which raise both lower limits on every pass). The model takes a fuel bound and returns `None` when the fuel runs out.
- Day10Search.Solver: the search takes a fuel bound and returns `OutOfFuel` when it is exhausted. This covers both the recursion and the unbounded upward scan, which in the source can run for ever when no guess is feasible.
- Day10Search.RecursiveSolver: the total found is a feasible total, not claimed to be the least. The upward scan over an unbounded limit stops at the first feasible guess, so the source does not guarantee the least total either.
- Day10Search.Tightest: the `min` key `max_lim - min_lim` with `1e9` for an infinite `max_lim` is computed exactly, with the integer 10⁹. The source subtracts a `Fraction` from the float `1e9`, which rounds only when the lower limit is beyond about 2⁵³ in magnitude.
- The `math.lcm` step in `recursive_solver` is always 1 in the model. Limits start at 0 or at a fixed integer guess and are only replaced by `math.ceil`/`math.floor` values, so every limit is an integer.
- Day10Part2.SolveMachineAsWritten: states acceptability only for machines whose equations have a real solution. For the others it may report a wrong count (see Findings).
- Day11Parts.CountRoutes: the queue in `part1` empties only when no cycle is reachable from `you`. The model takes a fuel bound on the number of pops and returns `None` when it runs out.
- Day11Parts.PartOne: the route count is tied to `Arrivals` (routes of bounded depth, at every depth from `fuel` up), not to a closed-form path count.
- `Walks` counts walks of at most K steps. On an acyclic graph every walk is shorter than the node count, so the counts are stated for K ≥ |Nodes|.
- Python set and dict iteration order (`set` of parents, `defaultdict` keys) is modelled by duplicate-free sequences in insertion order. The properties proved hold for every such order.
- `defaultdict` inserts a key on every read. The model reads with a default of 0 instead, which only affects the key order of later iterations, and those are covered above.
- Day 2's `str()` and `int()` round trip is proved for naturals. Negative range bounds are not modelled.
- Day 9's `shapely` polygon `covers` test is a parameter of the part 2 search. The library is not part of this model.
- Day08.ParseCoord: a line with fewer than three fields is treated as an error. The source only fails on such a point when it is paired with another point.
- Day08.Connect: states only when the part 1 value is present, not which sizes it multiplies; the product of the three largest root sizes is stated one pass at a time by Day08.Connection.
- Day12.Region.Area: states the sign and the zero cases of `width * height`, not the product itself.
- Day07.Both: a grid on which the beam reaches a short row or a splitter with a splitter beside it is not covered. The source raises there, with `IndexError` or by recursing without end (see `Day07.ReachedAdjacentDiverges`), and the model does not represent the crash.
- Day04.Part1, Day04.CountNeighbors, Day04.CountUnmarked: a grid where a block lookup falls past the end of a shorter row is not covered. The source raises `IndexError` there, and the model does not represent the crash.
- Day04.Round, Day04.Part2: require that no row is shorter than the first. Part 2 reads `grid[r][c]` for every column of the first row, so on any other grid the source raises `IndexError` in its first pass, which the model does not represent.
- Day11Parts.Combined: the products are proved equal to `Through`, the sum of products of route counts over the two orders. That this sum is the number of svr→out routes visiting both `dac` and `fft` (each such route splits uniquely at its two visits when there is no cycle) is not proved.
- Day08.ConnectedTogether: proves that connected boxes share a circuit, not the converse that boxes sharing a circuit are joined by a chain of connections.
- Text.ParseInt: only ASCII is modelled. `int()` also accepts non-ASCII decimal digits and underscores between digits (`1_000`), which the model rejects. Likewise `str.isspace`, `strip()` and `split()` also treat non-ASCII spaces such as U+00A0 as whitespace, and the model does not.
- Day03.ProcessLinePart1: a non-ASCII decimal digit, which `int(v)` accepts, gives `None` in the model.
- Day03.ProcessLinePart2: takes the digit list, not the line. The conversion `[int(v) for v in list(line)]` is the same as in part 1.

## Findings

| source | as written | input that shows it | evidently intended | confidence | as-written member | corrected member |
|---|---|---|---|---|---|---|
| Day01/main.py:83-86 | A left turn that starts at 0 counts `(distance - 1) // 100` zero crossings. | `L100` from position 0 counts 0 crossings although the dial lands on 0 once; `L0` from 0 counts −1. | `distance // 100`, as the comment beside the line says (`L100` crosses once). | not executed | Day01.LeftFromZeroUndercounts | Day01.Part2Fixed |
| Day10/main.py:343-348 | A reduced row with zero coefficients and a non-zero constant counts as a constraint, and nothing checks for it before back substitution. | The machine `[.#] (0,1) (0,1) {1,2}` has no pressing (counters 0 and 1 always move together), yet it is reported as 1 press. | An unsolvable machine contributes 0, as an infeasible one does at line 405. | not executed | Day10Part2.InconsistentMachineCounted | Day10Part2.SolveMachine |
