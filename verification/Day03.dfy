/**
 * Day 3: from a line of decimal digits, build the largest number that can be
 * read off a subsequence of the digits: two digits in part 1, twelve (in
 * general `targetLength`) digits in part 2, by greedy maximal picks.
 */
module Day03 {
  import opened Base
  import opened Text

  /** Every entry is a decimal digit. */
  predicate Decimal(ds: seq<nat>)
  {
    forall k :: 0 <= k < |ds| ==> ds[k] < 10
  }

  /** `[int(v) for v in list(line)]`. */
  function LineDigits(line: string): (ds: seq<nat>)
    requires AllDigits(line)
    ensures |ds| == |line| && Decimal(ds)
  {
    seq(|line|, k requires 0 <= k < |line| => DigitValue(line[k]))
  }

  /** The first position in `lo..hi-1` holding the largest entry there. */
  function FirstMaxIndex(s: seq<nat>, lo: nat, hi: nat): (i: nat)
    requires lo < hi <= |s|
    ensures lo <= i < hi
    decreases hi - lo
  {
    if hi == lo + 1 then lo
    else
      var j := FirstMaxIndex(s, lo, hi - 1);
      if s[hi - 1] > s[j] then hi - 1 else j
  }

  /** The entry at `FirstMaxIndex` is the window's maximum, and every entry before it is smaller. */
  lemma {:induction false} FirstMaxIndexIsFirstMax(s: seq<nat>, lo: nat, hi: nat)
    requires lo < hi <= |s|
    ensures forall k :: lo <= k < hi ==> s[k] <= s[FirstMaxIndex(s, lo, hi)]
    ensures forall k :: lo <= k < FirstMaxIndex(s, lo, hi) ==> s[k] < s[FirstMaxIndex(s, lo, hi)]
    decreases hi - lo
  {
    if hi > lo + 1 {
      FirstMaxIndexIsFirstMax(s, lo, hi - 1);
    }
  }

  /** Python's `max(s[lo:hi])` of a non-empty window. */
  function WindowMax(s: seq<nat>, lo: nat, hi: nat): nat
    requires lo < hi <= |s|
  {
    s[FirstMaxIndex(s, lo, hi)]
  }

  lemma BeforeFirstMax(s: seq<nat>, lo: nat, hi: nat, k: nat)
    requires lo < hi <= |s| && lo <= k < FirstMaxIndex(s, lo, hi)
    ensures s[k] < s[FirstMaxIndex(s, lo, hi)]
  {
    FirstMaxIndexIsFirstMax(s, lo, hi);
  }

  /**
   * `process_line_part1`: best left digit among all but the last, then best
   * right digit after it.  `None` is the `ValueError` that `int(v)` raises on
   * a character that is not a digit.
   */
  method ProcessLinePart1(line: string) returns (value: Option<nat>)
    ensures value.None? <==> !AllDigits(line)
    ensures value.Some? && |line| < 2 ==> value.value == 0
    ensures value.Some? ==> value.value <= 99
    ensures value.Some? && |line| >= 2 ==>
      (exists i, j :: 0 <= i < j < |line| && value.value == 10 * LineDigits(line)[i] + LineDigits(line)[j])
    ensures value.Some? ==>
      forall i, j :: 0 <= i < j < |line| ==> 10 * LineDigits(line)[i] + LineDigits(line)[j] <= value.value
  {
    if !AllDigits(line) {
      return None;
    }
    var digits := LineDigits(line);
    if |digits| < 2 {
      return Some(0);
    }
    var leftDigit := WindowMax(digits, 0, |digits| - 1);
    var leftDigitIdx := -1;
    var i := 0;
    while i < |digits| - 1
      invariant 0 <= i <= |digits| - 1
      invariant leftDigitIdx == -1
      invariant forall k :: 0 <= k < i ==> digits[k] != leftDigit
    {
      if digits[i] == leftDigit {
        leftDigitIdx := i;
        break;
      }
      i := i + 1;
    }
    if leftDigitIdx == -1 {
      assert false;
    }
    var rightDigit := if leftDigitIdx + 1 < |digits| then WindowMax(digits, leftDigitIdx + 1, |digits|) else 0;
    value := Some(leftDigit * 10 + rightDigit);
    BestPair(digits, leftDigitIdx, rightDigit);
  }

  /** The greedy left/right choice is the largest two-digit reading of any pair `i < j`. */
  lemma BestPair(ds: seq<nat>, p: nat, right: nat)
    requires Decimal(ds) && |ds| >= 2 && p < |ds| - 1
    requires ds[p] == WindowMax(ds, 0, |ds| - 1) && forall k :: 0 <= k < p ==> ds[k] != ds[p]
    requires right == WindowMax(ds, p + 1, |ds|)
    ensures exists i, j :: 0 <= i < j < |ds| && 10 * ds[p] + right == 10 * ds[i] + ds[j]
    ensures forall i, j :: 0 <= i < j < |ds| ==> 10 * ds[i] + ds[j] <= 10 * ds[p] + right
  {
    var q := FirstMaxIndex(ds, p + 1, |ds|);
    FirstMaxIndexIsFirstMax(ds, p + 1, |ds|);
    FirstMaxIndexIsFirstMax(ds, 0, |ds| - 1);
    assert 10 * ds[p] + right == 10 * ds[p] + ds[q];
  }

  /** Python's normalisation of a slice end `e` for a list of length `n`. */
  function SliceEnd(e: int, n: nat): (r: nat)
    ensures r <= n
    ensures 0 <= e <= n ==> r == e
  {
    if e < 0 then (if e + n < 0 then 0 else e + n)
    else if e > n then n
    else e
  }

  /**
   * The digits the `while` loop of `process_line_part2` appends, exactly as
   * written, once `made` digits are already built and the search starts at
   * `start`: the window is `digits[start : max_idx + 1]` with Python slice
   * semantics, the loop stops on an empty window, and `start` moves past the
   * first maximum only when the search range `range(start, max_idx + 1)`
   * holds it.
   */
  function PickLoop(ds: seq<nat>, target: nat, start: nat, made: nat): seq<nat>
    requires start <= |ds|
    decreases target - made
  {
    if made >= target then []
    else
      var maxIdx := |ds| - (target - made);
      var hi := SliceEnd(maxIdx + 1, |ds|);
      if hi <= start then []
      else
        var i := FirstMaxIndex(ds, start, hi);
        var next := if maxIdx + 1 > start then i + 1 else start;
        [ds[i]] + PickLoop(ds, target, next, made + 1)
  }

  /**
   * `int(constructed_value_str) if constructed_value_str else 0` for a string
   * of picked digits: the leading digit weighs ten to the number of digits after it.
   */
  function Number(ds: seq<nat>): nat
  {
    if ds == [] then 0 else ds[0] * Pow10(|ds| - 1) + Number(ds[1..])
  }

  /** `process_line_part2`. */
  method ProcessLinePart2(digits: seq<nat>, targetLength: nat) returns (value: nat)
    ensures value == Number(PickLoop(digits, targetLength, 0, 0))
  {
    var startIdx: nat := 0;
    var constructed: seq<nat> := [];
    var totalLen := |digits|;
    ghost var picks := PickLoop(digits, targetLength, 0, 0);
    while |constructed| < targetLength
      invariant startIdx <= totalLen
      invariant constructed + PickLoop(digits, targetLength, startIdx, |constructed|) == picks
      decreases targetLength - |constructed|
    {
      var remainingNeeded := targetLength - |constructed|;
      var maxIdx := totalLen - remainingNeeded;
      var hi := SliceEnd(maxIdx + 1, totalLen);
      if hi <= startIdx {
        assert constructed == picks by {
          PickLoopStop(digits, targetLength, startIdx, |constructed|);
          assert constructed + [] == constructed;
        }
        break;
      }
      var maxValue := WindowMax(digits, startIdx, hi);
      ghost var oldStart := startIdx;
      ghost var oldConstructed := constructed;
      constructed := constructed + [maxValue];
      ghost var first := FirstMaxIndex(digits, oldStart, hi);
      startIdx := FindFirst(digits, maxValue, startIdx, maxIdx, hi);
      assert startIdx == if maxIdx + 1 > oldStart then first + 1 else oldStart;
      assert constructed + PickLoop(digits, targetLength, startIdx, |constructed|) == picks by {
        PickLoopStep(digits, targetLength, oldStart, |oldConstructed|, maxIdx, hi, first, startIdx);
        AppendAssoc(oldConstructed, maxValue, PickLoop(digits, targetLength, startIdx, |constructed|));
      }
    }
    assert constructed == picks by {
      if |constructed| >= targetLength {
        PickLoopStop(digits, targetLength, startIdx, |constructed|);
        assert constructed + [] == constructed;
      }
    }
    value := Number(constructed);
  }

  /**
   * The `for i in range(start_idx, max_idx + 1)` search of `process_line_part2`:
   * the position after the first occurrence of the window maximum, or
   * `startIdx` unchanged when the range is empty.
   */
  method FindFirst(digits: seq<nat>, maxValue: nat, startIdx: nat, maxIdx: int, hi: nat) returns (next: nat)
    requires startIdx < hi <= |digits| && (maxIdx + 1 > startIdx ==> hi == maxIdx + 1)
    requires maxValue == WindowMax(digits, startIdx, hi)
    ensures next == if maxIdx + 1 > startIdx then FirstMaxIndex(digits, startIdx, hi) + 1 else startIdx
  {
    next := startIdx;
    var i := startIdx;
    ghost var first := FirstMaxIndex(digits, startIdx, hi);
    while i < maxIdx + 1
      invariant startIdx <= i <= if maxIdx + 1 < startIdx then startIdx else maxIdx + 1
      invariant maxIdx + 1 > startIdx ==> i <= first
    {
      if maxIdx + 1 > startIdx && i < first {
        BeforeFirstMax(digits, startIdx, hi, i);
      }
      if digits[i] == maxValue {
        next := i + 1;
        return;
      }
      i := i + 1;
    }
  }

  lemma AppendAssoc(a: seq<nat>, x: nat, b: seq<nat>)
    ensures a + ([x] + b) == (a + [x]) + b
  {
  }

  /** The loop stops once enough digits are picked or the window is empty. */
  lemma PickLoopStop(ds: seq<nat>, target: nat, start: nat, made: nat)
    requires start <= |ds|
    requires made >= target || SliceEnd(|ds| - (target - made) + 1, |ds|) <= start
    ensures PickLoop(ds, target, start, made) == []
  {
  }

  /** One turn of the loop, with a non-empty window. */
  lemma PickLoopStep(ds: seq<nat>, target: nat, start: nat, made: nat, maxIdx: int, hi: nat, first: nat, next: nat)
    requires start <= |ds| && made < target
    requires maxIdx == |ds| - (target - made) && hi == SliceEnd(maxIdx + 1, |ds|) && start < hi
    requires first == FirstMaxIndex(ds, start, hi)
    requires next == if maxIdx + 1 > start then first + 1 else start
    ensures next <= |ds|
    ensures PickLoop(ds, target, start, made) == [ds[first]] + PickLoop(ds, target, next, made + 1)
  {
  }

  /** With enough digits left, one turn moves `start` past the first maximum of the full window. */
  lemma PickLoopGreedyStep(ds: seq<nat>, target: nat, start: nat, made: nat)
    requires made < target && start + (target - made) <= |ds|
    ensures
      var p := FirstMaxIndex(ds, start, |ds| - (target - made) + 1);
      PickLoop(ds, target, start, made) == [ds[p]] + PickLoop(ds, target, p + 1, made + 1)
  {
    var hi := |ds| - (target - made) + 1;
    assert SliceEnd(hi, |ds|) == hi;
  }

  function Pow10(n: nat): (p: nat)
    ensures p >= 1
  {
    if n == 0 then 1 else 10 * Pow10(n - 1)
  }

  /**
   * The greedy choice for `need` more digits from `ds[start..]`: the first
   * maximum of the window that still leaves `need - 1` digits after it.
   */
  function GreedyIndices(ds: seq<nat>, start: nat, need: nat): (js: seq<nat>)
    requires start + need <= |ds|
    ensures |js| == need
    decreases need
  {
    if need == 0 then []
    else
      var p := FirstMaxIndex(ds, start, |ds| - need + 1);
      [p] + GreedyIndices(ds, p + 1, need - 1)
  }

  /** The greedy indices are strictly increasing positions of `ds[start..]`. */
  lemma {:induction false} GreedyIndicesValid(ds: seq<nat>, start: nat, need: nat)
    requires start + need <= |ds|
    ensures InRange(GreedyIndices(ds, start, need), start, |ds|)
    ensures Increasing(GreedyIndices(ds, start, need))
    decreases need
  {
    if need > 0 {
      var p := FirstMaxIndex(ds, start, |ds| - need + 1);
      GreedyIndicesValid(ds, p + 1, need - 1);
    }
  }

  predicate InRange(js: seq<nat>, lo: nat, hi: nat)
  {
    forall k :: 0 <= k < |js| ==> lo <= js[k] < hi
  }

  /** The digits at the given indices (0 for an index past the end). */
  function Select(ds: seq<nat>, js: seq<nat>): (r: seq<nat>)
    ensures |r| == |js|
  {
    if js == [] then [] else [if js[0] < |ds| then ds[js[0]] else 0] + Select(ds, js[1..])
  }

  /** With enough digits the loop picks exactly the greedy indices' digits. */
  lemma {:induction false} LoopIsGreedy(ds: seq<nat>, target: nat, start: nat, made: nat)
    requires made <= target && start + (target - made) <= |ds|
    ensures PickLoop(ds, target, start, made) == Select(ds, GreedyIndices(ds, start, target - made))
    decreases target - made
  {
    var need := target - made;
    if need == 0 {
      PickLoopStop(ds, target, start, made);
    } else {
      var p := FirstMaxIndex(ds, start, |ds| - need + 1);
      PickLoopGreedyStep(ds, target, start, made);
      LoopIsGreedy(ds, target, p + 1, made + 1);
      var js := GreedyIndices(ds, start, need);
      var rest := GreedyIndices(ds, p + 1, need - 1);
      assert Select(ds, js) == [ds[p]] + Select(ds, rest) by {
        assert js == [p] + rest;
        assert js[1..] == rest;
      }
    }
  }

  predicate Increasing(js: seq<nat>)
  {
    forall a, b :: 0 <= a < b < |js| ==> js[a] < js[b]
  }

  lemma NumberCons(x: nat, r: seq<nat>)
    ensures Number([x] + r) == x * Pow10(|r|) + Number(r)
  {
    assert ([x] + r)[1..] == r;
  }

  lemma {:induction false} NumberBound(r: seq<nat>)
    requires Decimal(r)
    ensures Number(r) < Pow10(|r|)
  {
    if r != [] {
      NumberBound(r[1..]);
      MulMono(r[0], 10, Pow10(|r| - 1));
    }
  }

  lemma LeadingDigitDecides(x: nat, y: nat, a: seq<nat>, b: seq<nat>)
    requires Decimal(a) && |a| == |b| && x < y
    ensures Number([x] + a) < Number([y] + b)
  {
    NumberCons(x, a);
    NumberCons(y, b);
    NumberBound(a);
    MulMono(x, y, Pow10(|a|));
  }

  lemma {:induction false} MulMono(a: nat, b: nat, p: nat)
    requires a < b
    ensures a * p + p <= b * p
    decreases b - a
  {
    assert b * p == (b - 1) * p + p;
    if b - 1 > a {
      MulMono(a, b - 1, p);
    }
  }

  lemma {:induction false} SelectDecimal(ds: seq<nat>, js: seq<nat>)
    requires Decimal(ds)
    ensures Decimal(Select(ds, js))
  {
    if js != [] {
      SelectDecimal(ds, js[1..]);
    }
  }

  /** Dropping the first of increasing indices leaves increasing indices above the first. */
  lemma TailIncreasing(js: seq<nat>, lo: nat, hi: nat)
    requires |js| > 0 && Increasing(js) && InRange(js, 0, hi) && js[0] + 1 >= lo
    ensures Increasing(js[1..]) && InRange(js[1..], lo, hi)
  {
    var t := js[1..];
    forall k | 0 <= k < |t| ensures lo <= t[k] < hi {
      assert t[k] == js[k + 1] && js[0] < js[k + 1];
    }
    forall a, b | 0 <= a < b < |t| ensures t[a] < t[b] {
      assert t[a] == js[a + 1] && t[b] == js[b + 1];
    }
  }

  lemma {:induction false} IncreasingSpread(js: seq<nat>, k: nat)
    requires Increasing(js) && k < |js|
    ensures js[k] >= js[0] + k
  {
    if k > 0 {
      IncreasingSpread(js, k - 1);
    }
  }

  /**
   * Greedy optimality: no choice of `need` digits at increasing indices from
   * `ds[start..]` reads as a larger number than the greedy one.
   */
  lemma {:induction false} GreedyOptimal(ds: seq<nat>, start: nat, need: nat, js: seq<nat>)
    requires Decimal(ds) && start + need <= |ds|
    requires |js| == need && Increasing(js) && InRange(js, start, |ds|)
    ensures Number(Select(ds, js)) <= Number(Select(ds, GreedyIndices(ds, start, need)))
    decreases need
  {
    if need > 0 {
      var hi := |ds| - need + 1;
      var p := FirstMaxIndex(ds, start, hi);
      var m := ds[p];
      var gs := GreedyIndices(ds, start, need);
      var rest := GreedyIndices(ds, p + 1, need - 1);
      var tailJs := js[1..];
      assert Select(ds, gs) == [m] + Select(ds, rest) by {
        assert gs == [p] + rest;
        assert gs[1..] == rest;
      }
      assert Select(ds, js) == [ds[js[0]]] + Select(ds, tailJs);
      assert ds[js[0]] <= m && (ds[js[0]] == m ==> js[0] >= p) by {
        IncreasingSpread(js, need - 1);
        FirstMaxIndexIsFirstMax(ds, start, hi);
      }
      SelectDecimal(ds, tailJs);
      assert Number([ds[js[0]]] + Select(ds, tailJs)) <= Number([m] + Select(ds, rest)) by {
        if ds[js[0]] < m {
          LeadingDigitDecides(ds[js[0]], m, Select(ds, tailJs), Select(ds, rest));
        } else {
          TailIncreasing(js, p + 1, |ds|);
          GreedyOptimal(ds, p + 1, need - 1, tailJs);
          NumberCons(m, Select(ds, tailJs));
          NumberCons(m, Select(ds, rest));
        }
      }
    }
  }

  /**
   * When the line has at least `targetLength` digits, part 2 yields exactly
   * `targetLength` digits at strictly increasing positions, and no other such
   * choice reads as a larger number.
   */
  lemma Part2Optimal(line: string, targetLength: nat, js: seq<nat>)
    requires AllDigits(line) && targetLength <= |line|
    requires |js| == targetLength && Increasing(js) && InRange(js, 0, |line|)
    ensures |PickLoop(LineDigits(line), targetLength, 0, 0)| == targetLength
    ensures Number(Select(LineDigits(line), js)) <= Number(PickLoop(LineDigits(line), targetLength, 0, 0))
  {
    var ds := LineDigits(line);
    LoopIsGreedy(ds, targetLength, 0, 0);
    GreedyOptimal(ds, 0, targetLength, js);
  }

  /**
   * Too few digits: the window end `max_idx + 1` is negative, Python counts it
   * from the end of the list, `start` never moves, and the loop stops when the
   * end reaches 0.  With `T` the target and `n < T` digits, the result has
   * `T - n - 1` digits when `2n >= T` and none otherwise.
   */
  lemma {:induction false} ShortLineCount(ds: seq<nat>, target: nat, made: nat)
    requires |ds| < target && made <= target - |ds| - 1
    ensures |PickLoop(ds, target, 0, made)| ==
      if target - made <= 2 * |ds| then target - made - |ds| - 1 else 0
    decreases target - made
  {
    var maxIdx := |ds| - (target - made);
    var hi := SliceEnd(maxIdx + 1, |ds|);
    if hi > 0 {
      ShortLineCount(ds, target, made + 1);
    }
  }
}
