/**
 * Day 5: inclusive ingredient-id ranges `low-high` followed by ids to check.
 * Part 1 counts the checked ids inside some range; part 2 merges the ranges
 * and counts the ids they cover.
 */
module Day05 {
  import opened Base
  import opened Text

  type Range = (int, int)

  // ---------------------------------------------------------------------------
  // Parsing
  // ---------------------------------------------------------------------------

  /** Index of the first line from `i` on that satisfies `stop`, or `|lines|`. */
  function FirstFrom(stop: string -> bool, lines: seq<string>, i: nat): (s: nat)
    requires i <= |lines|
    ensures i <= s <= |lines|
    decreases |lines| - i
  {
    if i == |lines| then |lines|
    else if stop(lines[i]) then i
    else FirstFrom(stop, lines, i + 1)
  }

  lemma {:induction false} FirstFromIsFirst(stop: string -> bool, lines: seq<string>, i: nat)
    requires i <= |lines|
    ensures forall k :: i <= k < FirstFrom(stop, lines, i) ==> !stop(lines[k])
    ensures FirstFrom(stop, lines, i) < |lines| ==> stop(lines[FirstFrom(stop, lines, i)])
    decreases |lines| - i
  {
    if i < |lines| && !stop(lines[i]) {
      FirstFromIsFirst(stop, lines, i + 1);
    }
  }

  /** The values `parse` accepts among lines `lo .. k-1`, in order; the others are skipped. */
  function Collect<T>(parse: string -> Option<T>, lines: seq<string>, lo: nat, k: nat): seq<T>
    requires lo <= k <= |lines|
    decreases k - lo
  {
    if k == lo then []
    else
      match parse(lines[k - 1])
      case Some(v) => Collect(parse, lines, lo, k - 1) + [v]
      case None => Collect(parse, lines, lo, k - 1)
  }

  /** When every line is accepted, each yields exactly one value, in place. */
  lemma {:induction false} CollectAll<T>(parse: string -> Option<T>, lines: seq<string>, lo: nat, k: nat)
    requires lo <= k <= |lines|
    requires forall i :: lo <= i < k ==> parse(lines[i]).Some?
    ensures |Collect(parse, lines, lo, k)| == k - lo
    ensures forall i :: lo <= i < k ==> Collect(parse, lines, lo, k)[i - lo] == parse(lines[i]).value
    decreases k - lo
  {
    if k > lo {
      CollectAll(parse, lines, lo, k - 1);
    }
  }

  /** A line read as a range `low-high` after stripping. */
  function LineRange(line: string): Option<Range>
  {
    TokenRange(Strip(line))
  }

  /** A line read with `int()` after stripping. */
  function LineNumber(line: string): Option<int>
  {
    ParseInt(Strip(line))
  }

  /** A line that ends the range section: blank, or not a `low-high` pair. */
  predicate EndsRanges(line: string)
  {
    Strip(line) == "" || LineRange(line).None?
  }

  /** The line where parsing switches to numbers for good (or `|lines|`). */
  function Switch(lines: seq<string>): nat
  {
    FirstFrom(EndsRanges, lines, 0)
  }

  /** The switch line is the first blank or non-range line. */
  lemma SwitchIsFirst(lines: seq<string>)
    ensures Switch(lines) <= |lines|
    ensures forall k :: 0 <= k < Switch(lines) ==> !EndsRanges(lines[k])
    ensures Switch(lines) < |lines| ==> EndsRanges(lines[Switch(lines)])
  {
    FirstFromIsFirst(EndsRanges, lines, 0);
  }

  /** The ranges of the lines before the switch, one per line. */
  function Ranges(lines: seq<string>): seq<Range>
  {
    Collect(LineRange, lines, 0, Switch(lines))
  }

  /** The switch line itself yields a number only when it passes `isdigit()`. */
  function SwitchNumber(lines: seq<string>): seq<int>
  {
    var s := Switch(lines);
    if s < |lines| && IsDigits(Strip(lines[s])) then [DigitsValue(Strip(lines[s]))] else []
  }

  /** The check numbers: the switch line's, then every later line `int()` accepts. */
  function Checks(lines: seq<string>): seq<int>
  {
    var s := Switch(lines);
    if s < |lines| then SwitchNumber(lines) + Collect(LineNumber, lines, s + 1, |lines|) else []
  }

  /** Every line before the switch yields its own range, in order. */
  lemma RangesOnePerLine(lines: seq<string>)
    ensures |Ranges(lines)| == Switch(lines)
    ensures forall i :: 0 <= i < Switch(lines) ==> LineRange(lines[i]).Some? && Ranges(lines)[i] == LineRange(lines[i]).value
  {
    SwitchIsFirst(lines);
    CollectAll(LineRange, lines, 0, Switch(lines));
  }

  /** No parsed range has a negative bound, since '-' always splits a line. */
  lemma RangesNatural(lines: seq<string>)
    ensures forall i :: 0 <= i < |Ranges(lines)| ==> Ranges(lines)[i].0 >= 0 && Ranges(lines)[i].1 >= 0
  {
    RangesOnePerLine(lines);
    forall i | 0 <= i < |Ranges(lines)|
      ensures Ranges(lines)[i].0 >= 0 && Ranges(lines)[i].1 >= 0
    {
      TokenRangeNatural(Strip(lines[i]));
    }
  }

  /** The next line's contribution to the check numbers. */
  lemma ChecksStep(lines: seq<string>, k: nat)
    requires Switch(lines) <= k < |lines|
    ensures k == Switch(lines) ==>
      (SwitchNumber(lines) + Collect(LineNumber, lines, k + 1, k + 1)
       == if IsDigits(Strip(lines[k])) then [DigitsValue(Strip(lines[k]))] else [])
    ensures k > Switch(lines) ==>
      (Collect(LineNumber, lines, Switch(lines) + 1, k + 1)
       == Collect(LineNumber, lines, Switch(lines) + 1, k) + (if ParseInt(Strip(lines[k])).Some? then [ParseInt(Strip(lines[k])).value] else []))
  {
  }

  /**
   * `parse_input_file` after the file is read: a `parsing_ranges` flag that
   * turns off for good at the first blank or non-range line.
   */
  method ParseInput(lines: seq<string>) returns (ranges: seq<Range>, checks: seq<int>)
    ensures ranges == Ranges(lines)
    ensures checks == Checks(lines)
  {
    ranges, checks := [], [];
    var parsingRanges := true;
    ghost var s := Switch(lines);
    SwitchIsFirst(lines);
    for k := 0 to |lines|
      invariant parsingRanges <==> k <= s
      invariant ranges == Collect(LineRange, lines, 0, if k <= s then k else s)
      invariant k <= s ==> checks == []
      invariant k > s ==> checks == SwitchNumber(lines) + Collect(LineNumber, lines, s + 1, k)
    {
      var stripped := Strip(lines[k]);
      if k >= s {
        ChecksStep(lines, k);
      }
      if stripped == "" {
        ParseIntEmpty();
        parsingRanges := false;
        continue;
      }
      if parsingRanges {
        var parsed := TokenRange(stripped);
        if parsed.Some? {
          ranges := ranges + [parsed.value];
        } else {
          parsingRanges := false;
          if IsDigits(stripped) {
            checks := checks + [DigitsValue(stripped)];
          }
        }
      } else {
        var n := ParseInt(stripped);
        if n.Some? {
          checks := checks + [n.value];
        }
      }
    }
  }

  // ---------------------------------------------------------------------------
  // Coverage
  // ---------------------------------------------------------------------------

  predicate InRange(r: Range, n: int)
  {
    r.0 <= n <= r.1
  }

  predicate InSomeRange(ranges: seq<Range>, n: int)
  {
    exists i :: 0 <= i < |ranges| && InRange(ranges[i], n)
  }

  /** The integers of the inclusive range `lo..hi`. */
  function RangeSet(lo: int, hi: int): (r: set<int>)
    ensures forall n :: n in r <==> lo <= n <= hi
    decreases hi - lo
  {
    if lo > hi then {} else RangeSet(lo, hi - 1) + {hi}
  }

  /** Every integer some range covers. */
  function Cover(ranges: seq<Range>): set<int>
  {
    if ranges == [] then {}
    else Cover(ranges[..|ranges| - 1]) + RangeSet(ranges[|ranges| - 1].0, ranges[|ranges| - 1].1)
  }

  lemma {:induction false} CoverMembers(ranges: seq<Range>, n: int)
    ensures n in Cover(ranges) <==> InSomeRange(ranges, n)
  {
    if ranges != [] {
      var init := ranges[..|ranges| - 1];
      CoverMembers(init, n);
      if InSomeRange(init, n) {
        var i :| 0 <= i < |init| && InRange(init[i], n);
        assert InRange(ranges[i], n);
      }
      if InSomeRange(ranges, n) && !InRange(ranges[|ranges| - 1], n) {
        var i :| 0 <= i < |ranges| && InRange(ranges[i], n);
        assert InRange(init[i], n);
      }
    }
  }

  lemma {:induction false} CoverAppend(a: seq<Range>, b: seq<Range>)
    ensures Cover(a + b) == Cover(a) + Cover(b)
    decreases |b|
  {
    if b == [] {
      assert a + b == a;
    } else {
      assert (a + b)[..|a + b| - 1] == a + b[..|b| - 1];
      CoverAppend(a, b[..|b| - 1]);
    }
  }

  lemma CoverCons(x: Range, rest: seq<Range>)
    ensures Cover([x] + rest) == RangeSet(x.0, x.1) + Cover(rest)
  {
    CoverAppend([x], rest);
    assert [x][..0] == [];
  }

  /** The number of integers in `lo..hi` is `hi - lo + 1`. */
  lemma {:induction false} RangeSetSize(lo: int, hi: int)
    requires lo <= hi + 1
    ensures |RangeSet(lo, hi)| == hi - lo + 1
    decreases hi - lo
  {
    if lo <= hi {
      RangeSetSize(lo, hi - 1);
      assert RangeSet(lo, hi) == RangeSet(lo, hi - 1) + {hi};
    } else {
      assert RangeSet(lo, hi) == {};
    }
  }

  /** Part 1's test: an id counts once, when some range contains it. */
  method Part1(ranges: seq<Range>, checks: seq<int>) returns (count: nat)
    ensures count == CountIf(checks, n => InSomeRange(ranges, n))
    ensures count <= |checks|
  {
    count := 0;
    for k := 0 to |checks|
      invariant count == CountIf(checks[..k], n => InSomeRange(ranges, n))
    {
      var num := checks[k];
      var found := false;
      for i := 0 to |ranges|
        invariant found <==> exists j :: 0 <= j < i && InRange(ranges[j], num)
      {
        if ranges[i].0 <= num <= ranges[i].1 {
          found := true;
          break;
        }
      }
      if found {
        count := count + 1;
      }
      assert checks[..k + 1][..k] == checks[..k];
    }
    assert checks[..|checks|] == checks;
  }

  // ---------------------------------------------------------------------------
  // Sorting and merging
  // ---------------------------------------------------------------------------

  /** Lower bounds never decrease from one range to the next. */
  predicate SortedByLow(s: seq<Range>)
  {
    forall i :: 0 < i < |s| ==> s[i - 1].0 <= s[i].0
  }

  lemma {:induction false} SortedSpan(s: seq<Range>, i: nat, j: nat)
    requires SortedByLow(s) && i <= j < |s|
    ensures s[i].0 <= s[j].0
    decreases j - i
  {
    if i < j {
      SortedSpan(s, i, j - 1);
    }
  }

  predicate AllProper(s: seq<Range>)
  {
    forall i :: 0 <= i < |s| ==> s[i].0 <= s[i].1
  }

  /** Neighbours neither overlap nor touch. */
  predicate Separated(s: seq<Range>)
  {
    forall i :: 0 < i < |s| ==> s[i].0 > s[i - 1].1 + 1
  }

  /** Stable insertion of `x` behind every range with the same or a lower bound. */
  function InsertByLow(x: Range, s: seq<Range>): (r: seq<Range>)
    requires SortedByLow(s)
    ensures SortedByLow(r)
    ensures |r| == |s| + 1
    ensures r[0] == x || (s != [] && r[0] == s[0])
    decreases |s|
  {
    if s == [] then [x]
    else if x.0 < s[0].0 then [x] + s
    else [s[0]] + InsertByLow(x, s[1..])
  }

  lemma {:induction false} InsertByLowPermutes(x: Range, s: seq<Range>)
    requires SortedByLow(s)
    ensures multiset(InsertByLow(x, s)) == multiset(s) + multiset{x}
    decreases |s|
  {
    if s != [] && x.0 >= s[0].0 {
      InsertByLowPermutes(x, s[1..]);
      assert s == [s[0]] + s[1..];
    }
  }

  /** Python's stable `sorted(ranges, key=lambda x: x[0])`: ascending lower bounds. */
  function SortByLow(s: seq<Range>): (r: seq<Range>)
    ensures SortedByLow(r)
    ensures |r| == |s|
  {
    if s == [] then [] else InsertByLow(s[|s| - 1], SortByLow(s[..|s| - 1]))
  }

  /** Sorting permutes the ranges. */
  lemma {:induction false} SortByLowPermutes(s: seq<Range>)
    ensures multiset(SortByLow(s)) == multiset(s)
  {
    if s != [] {
      SortByLowPermutes(s[..|s| - 1]);
      InsertByLowPermutes(s[|s| - 1], SortByLow(s[..|s| - 1]));
      assert s == s[..|s| - 1] + [s[|s| - 1]];
    }
  }

  /** The loop of `merge_ranges` from the current range `cur` over the sorted `rest`. */
  function MergeFrom(cur: Range, rest: seq<Range>): seq<Range>
    decreases |rest|
  {
    if rest == [] then [cur]
    else if rest[0].0 <= cur.1 + 1 then MergeFrom((cur.0, if cur.1 >= rest[0].1 then cur.1 else rest[0].1), rest[1..])
    else [cur] + MergeFrom(rest[0], rest[1..])
  }

  /** `merge_ranges`: sort by lower bound, then fold neighbouring ranges together. */
  function Merge(ranges: seq<Range>): seq<Range>
  {
    if ranges == [] then []
    else
      var sorted := SortByLow(ranges);
      MergeFrom(sorted[0], sorted[1..])
  }

  /**
   * `merge_ranges` as the script runs it: a current range, extended while the
   * next one overlaps or touches it, and flushed otherwise.
   */
  method MergeRanges(ranges: seq<Range>) returns (merged: seq<Range>)
    ensures merged == Merge(ranges)
  {
    if ranges == [] {
      return [];
    }
    var sorted := SortByLow(ranges);
    merged := [];
    var currLower, currUpper := sorted[0].0, sorted[0].1;
    for k := 1 to |sorted|
      invariant merged + MergeFrom((currLower, currUpper), sorted[k..]) == Merge(ranges)
    {
      var next := sorted[k];
      assert sorted[k..] == [next] + sorted[k + 1..];
      if next.0 <= currUpper + 1 {
        currUpper := if currUpper >= next.1 then currUpper else next.1;
      } else {
        AppendAssoc(merged, [(currLower, currUpper)], MergeFrom(next, sorted[k + 1..]));
        merged := merged + [(currLower, currUpper)];
        currLower, currUpper := next.0, next.1;
      }
    }
    merged := merged + [(currLower, currUpper)];
  }

  lemma AppendAssoc(a: seq<Range>, b: seq<Range>, c: seq<Range>)
    ensures a + (b + c) == (a + b) + c
  {
  }

  /** Shape of a merge run: non-empty, no longer than its input, starting at `cur`'s lower bound. */
  lemma {:induction false} MergeFromShape(cur: Range, rest: seq<Range>)
    ensures 1 <= |MergeFrom(cur, rest)| <= |rest| + 1
    ensures MergeFrom(cur, rest)[0].0 == cur.0
    ensures Separated(MergeFrom(cur, rest))
    decreases |rest|
  {
    if rest != [] {
      if rest[0].0 <= cur.1 + 1 {
        MergeFromShape((cur.0, if cur.1 >= rest[0].1 then cur.1 else rest[0].1), rest[1..]);
      } else {
        MergeFromShape(rest[0], rest[1..]);
        var tail := MergeFrom(rest[0], rest[1..]);
        assert MergeFrom(cur, rest) == [cur] + tail;
      }
    }
  }

  /** Over sorted proper ranges, merging keeps every range proper. */
  lemma {:induction false} MergeFromProper(cur: Range, rest: seq<Range>)
    requires cur.0 <= cur.1 && AllProper(rest)
    ensures AllProper(MergeFrom(cur, rest))
    decreases |rest|
  {
    if rest != [] {
      if rest[0].0 <= cur.1 + 1 {
        MergeFromProper((cur.0, if cur.1 >= rest[0].1 then cur.1 else rest[0].1), rest[1..]);
      } else {
        MergeFromProper(rest[0], rest[1..]);
      }
    }
  }

  /** Over sorted proper ranges, a merge run covers what `cur` and `rest` cover. */
  lemma {:induction false} MergeFromCover(cur: Range, rest: seq<Range>)
    requires cur.0 <= cur.1 && AllProper(rest) && SortedByLow([cur] + rest)
    ensures Cover(MergeFrom(cur, rest)) == RangeSet(cur.0, cur.1) + Cover(rest)
    decreases |rest|
  {
    if rest != [] {
      var next := rest[0];
      CoverCons(next, rest[1..]);
      assert rest == [next] + rest[1..];
      assert ([cur] + rest)[1] == next && ([cur] + rest)[0] == cur;
      assert cur.0 <= next.0;
      if next.0 <= cur.1 + 1 {
        var ext := (cur.0, if cur.1 >= next.1 then cur.1 else next.1);
        SortedReplaceHead(cur, ext, rest);
        MergeFromCover(ext, rest[1..]);
        assert RangeSet(ext.0, ext.1) == RangeSet(cur.0, cur.1) + RangeSet(next.0, next.1);
      } else {
        assert [next] + rest[1..] == ([cur] + rest)[1..];
        MergeFromCover(next, rest[1..]);
        CoverCons(cur, MergeFrom(next, rest[1..]));
        assert MergeFrom(cur, rest) == [cur] + MergeFrom(next, rest[1..]);
      }
    }
  }

  /** Dropping the head of a sorted list and replacing the second by a range with the same lower bound. */
  lemma SortedReplaceHead(cur: Range, ext: Range, rest: seq<Range>)
    requires rest != [] && SortedByLow([cur] + rest) && ext.0 == cur.0
    ensures SortedByLow([ext] + rest[1..])
  {
    var s := [cur] + rest;
    var t := [ext] + rest[1..];
    forall i | 0 < i < |t|
      ensures t[i - 1].0 <= t[i].0
    {
      if i == 1 {
        assert s[0] == cur && s[1] == rest[0] && s[2] == t[1];
        assert s[0].0 <= s[1].0 <= s[2].0;
      } else {
        assert t[i - 1] == s[i] && t[i] == s[i + 1];
        assert s[i].0 <= s[i + 1].0;
      }
    }
  }

  lemma {:induction false} CoverInsert(x: Range, s: seq<Range>)
    requires SortedByLow(s)
    ensures Cover(InsertByLow(x, s)) == Cover(s) + RangeSet(x.0, x.1)
    decreases |s|
  {
    if s == [] {
      CoverCons(x, []);
    } else if x.0 < s[0].0 {
      CoverCons(x, s);
    } else {
      CoverInsert(x, s[1..]);
      CoverCons(s[0], InsertByLow(x, s[1..]));
      CoverCons(s[0], s[1..]);
      assert s == [s[0]] + s[1..];
    }
  }

  lemma {:induction false} CoverSort(s: seq<Range>)
    ensures Cover(SortByLow(s)) == Cover(s)
  {
    if s != [] {
      CoverSort(s[..|s| - 1]);
      CoverInsert(s[|s| - 1], SortByLow(s[..|s| - 1]));
    }
  }

  lemma ProperSort(s: seq<Range>)
    requires AllProper(s)
    ensures AllProper(SortByLow(s))
  {
    var r := SortByLow(s);
    SortByLowPermutes(s);
    forall i | 0 <= i < |r|
      ensures r[i].0 <= r[i].1
    {
      assert r[i] in multiset(r);
      assert r[i] in multiset(s);
    }
  }

  /**
   * `merge_ranges([])` is `[]`; otherwise the result is non-empty, no longer
   * than the input, ascending, with a gap between neighbours.
   */
  lemma MergeShape(ranges: seq<Range>)
    ensures ranges == [] <==> Merge(ranges) == []
    ensures |Merge(ranges)| <= |ranges|
    ensures Separated(Merge(ranges))
    ensures SortedByLow(Merge(ranges))
  {
    if ranges != [] {
      var sorted := SortByLow(ranges);
      MergeFromShape(sorted[0], sorted[1..]);
      assert sorted == [sorted[0]] + sorted[1..];
      MergeLowsAscending(sorted[0], sorted[1..]);
    }
  }

  /** The lower bounds of a merge run over a sorted input appear in ascending order. */
  lemma {:induction false} MergeLowsAscending(cur: Range, rest: seq<Range>)
    requires SortedByLow([cur] + rest)
    ensures SortedByLow(MergeFrom(cur, rest))
    decreases |rest|
  {
    if rest != [] {
      assert ([cur] + rest)[1] == rest[0];
      if rest[0].0 <= cur.1 + 1 {
        var ext := (cur.0, if cur.1 >= rest[0].1 then cur.1 else rest[0].1);
        SortedReplaceHead(cur, ext, rest);
        MergeLowsAscending(ext, rest[1..]);
      } else {
        assert [rest[0]] + rest[1..] == ([cur] + rest)[1..];
        MergeLowsAscending(rest[0], rest[1..]);
        MergeFromShape(rest[0], rest[1..]);
        assert MergeFrom(cur, rest) == [cur] + MergeFrom(rest[0], rest[1..]);
      }
    }
  }

  /** For proper ranges, merging keeps exactly the covered integers. */
  lemma MergeCover(ranges: seq<Range>)
    requires AllProper(ranges)
    ensures Cover(Merge(ranges)) == Cover(ranges)
    ensures AllProper(Merge(ranges))
  {
    if ranges != [] {
      var sorted := SortByLow(ranges);
      ProperSort(ranges);
      CoverSort(ranges);
      assert sorted == [sorted[0]] + sorted[1..];
      CoverCons(sorted[0], sorted[1..]);
      MergeFromCover(sorted[0], sorted[1..]);
      MergeFromProper(sorted[0], sorted[1..]);
    }
  }

  /** Inserting a range whose lower bound is the largest appends it. */
  lemma {:induction false} InsertLast(x: Range, s: seq<Range>)
    requires SortedByLow(s) && (s != [] ==> s[|s| - 1].0 <= x.0)
    ensures InsertByLow(x, s) == s + [x]
    decreases |s|
  {
    if s != [] {
      SortedSpan(s, 0, |s| - 1);
      InsertLast(x, s[1..]);
      assert s == [s[0]] + s[1..];
    }
  }

  /** Sorting an already sorted list changes nothing. */
  lemma {:induction false} SortSorted(s: seq<Range>)
    requires SortedByLow(s)
    ensures SortByLow(s) == s
  {
    if s != [] {
      SortSorted(s[..|s| - 1]);
      InsertLast(s[|s| - 1], s[..|s| - 1]);
    }
  }

  /** A separated run of proper ranges is already merged. */
  lemma {:induction false} MergeFromSeparated(s: seq<Range>)
    requires s != [] && Separated(s) && AllProper(s)
    ensures MergeFrom(s[0], s[1..]) == s
    decreases |s|
  {
    if |s| > 1 {
      MergeFromSeparated(s[1..]);
      assert s[1..][1..] == s[2..];
      assert s == [s[0]] + s[1..];
    }
  }

  /** Merging proper ranges is idempotent. */
  lemma MergeIdempotent(ranges: seq<Range>)
    requires AllProper(ranges)
    ensures Merge(Merge(ranges)) == Merge(ranges)
  {
    var m := Merge(ranges);
    MergeShape(ranges);
    MergeCover(ranges);
    if m != [] {
      SortSorted(m);
      MergeFromSeparated(m);
    }
  }

  // ---------------------------------------------------------------------------
  // Part 2
  // ---------------------------------------------------------------------------

  /** The sum of `high - low + 1` over the ranges, as the script adds it up. */
  function TotalSize(ranges: seq<Range>): int
  {
    if ranges == [] then 0
    else TotalSize(ranges[..|ranges| - 1]) + (ranges[|ranges| - 1].1 - ranges[|ranges| - 1].0 + 1)
  }

  /** In a separated list of proper ranges, everything covered lies below the next range. */
  lemma {:induction false} CoverBelowLast(s: seq<Range>, n: int)
    requires s != [] && AllProper(s) && Separated(s) && n in Cover(s)
    ensures n <= s[|s| - 1].1
  {
    CoverMembers(s, n);
    var i :| 0 <= i < |s| && InRange(s[i], n);
    SeparatedAscending(s, i, |s| - 1);
  }

  lemma {:induction false} SeparatedAscending(s: seq<Range>, i: nat, j: nat)
    requires AllProper(s) && Separated(s) && i <= j < |s|
    ensures s[i].1 <= s[j].1
    decreases j - i
  {
    if i < j {
      SeparatedAscending(s, i, j - 1);
    }
  }

  /** For separated proper ranges the summed sizes count the covered integers. */
  lemma {:induction false} TotalSizeCounts(s: seq<Range>)
    requires AllProper(s) && Separated(s)
    ensures TotalSize(s) == |Cover(s)|
  {
    if s != [] {
      var init := s[..|s| - 1];
      var last := s[|s| - 1];
      TotalSizeCounts(init);
      RangeSetSize(last.0, last.1);
      if init != [] {
        forall n | n in Cover(init)
          ensures n !in RangeSet(last.0, last.1)
        {
          CoverBelowLast(init, n);
        }
      }
      assert Cover(init) !! RangeSet(last.0, last.1);
    }
  }

  /**
   * Part 2: the summed sizes of the merged ranges; for proper ranges this is
   * the number of integers the ranges cover.
   */
  method Part2(ranges: seq<Range>) returns (total: int)
    ensures total == TotalSize(Merge(ranges))
    ensures AllProper(ranges) ==> total == |Cover(ranges)|
  {
    var merged := MergeRanges(ranges);
    total := 0;
    for k := 0 to |merged|
      invariant total == TotalSize(merged[..k])
    {
      assert merged[..k + 1][..k] == merged[..k];
      total := total + (merged[k].1 - merged[k].0 + 1);
    }
    assert merged[..|merged|] == merged;
    if AllProper(ranges) {
      MergeShape(ranges);
      MergeCover(ranges);
      TotalSizeCounts(merged);
    }
  }
}
