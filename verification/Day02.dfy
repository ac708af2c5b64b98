/**
 * Day 2: sum the numbers of some inclusive ranges whose decimal string is
 * one half repeated twice (part 1) or one block repeated any number of
 * times (part 2).  The ranges come from one line `low-high,low-high,...`.
 */
module Day02 {
  import opened Base
  import opened Text

  /** `is_self_reflecting`: the decimal string splits into two equal halves. */
  predicate SelfReflecting(n: nat)
  {
    var s := NatToString(n);
    |s| % 2 == 0 && s[..|s| / 2] == s[|s| / 2..]
  }

  /** `s` consists of copies of its first `b` characters. */
  predicate PeriodicWith(s: string, b: nat)
    requires b > 0
  {
    |s| % b == 0 && forall i :: 0 <= i < |s| ==> s[i] == s[i % b]
  }

  /** Some block of length 1..|s|/2 repeated gives `s`. */
  predicate RepeatedBlock(s: string)
  {
    exists b :: 1 <= b <= |s| / 2 && PeriodicWith(s, b)
  }

  predicate RepeatedNumber(n: nat)
  {
    RepeatedBlock(NatToString(n))
  }

  lemma MulMonotone(d: int, b: nat)
    requires b > 0 && d >= 1
    ensures d * b >= b
  {
  }

  /** Position `t` of block `k` is position `t` of the first block. */
  lemma ModInBlock(k: nat, b: nat, t: nat)
    requires b > 0 && t < b
    ensures (k * b + t) % b == t
  {
    var q := (k * b + t) / b;
    var r := (k * b + t) % b;
    assert (q - k) * b == t - r;
    if q - k >= 1 {
      MulMonotone(q - k, b);
    } else if k - q >= 1 {
      MulMonotone(k - q, b);
    }
  }

  /** Where block `k` of length `b` starts, counted one block at a time. */
  function Offset(k: nat, b: nat): nat
  {
    if k == 0 then 0 else Offset(k - 1, b) + b
  }

  lemma {:induction false} OffsetMul(k: nat, b: nat)
    ensures Offset(k, b) == k * b
  {
    if k > 0 {
      OffsetMul(k - 1, b);
      assert k * b == (k - 1) * b + b;
    }
  }

  lemma {:induction false} OffsetMono(k: nat, m: nat, b: nat)
    requires k <= m
    ensures Offset(k, b) <= Offset(m, b)
    decreases m
  {
    if k < m {
      OffsetMono(k, m - 1, b);
    }
  }

  /** A length that is a multiple of `b` is the start of block `n / b`. */
  lemma WholeBlocks(n: nat, b: nat)
    requires b > 0 && n % b == 0
    ensures n == Offset(n / b, b)
  {
    OffsetMul(n / b, b);
  }

  /** A block that starts before the end of `m` blocks ends within them. */
  lemma NextBlockFits(k: nat, m: nat, b: nat)
    requires b > 0 && Offset(k, b) < Offset(m, b)
    ensures k < m && Offset(k + 1, b) == Offset(k, b) + b <= Offset(m, b)
  {
    if k >= m {
      OffsetMono(m, k, b);
    } else {
      OffsetMono(k + 1, m, b);
    }
  }

  /** The first `n` characters of `s` repeat its first `b`. */
  predicate PeriodicUpTo(s: string, b: nat, n: nat)
    requires b > 0 && n <= |s|
  {
    forall j :: 0 <= j < n ==> s[j] == s[j % b]
  }

  /** A block equal to the first one extends the periodic prefix by one block. */
  lemma ExtendByBlock(s: string, b: nat, k: nat)
    requires 0 < b && Offset(k, b) + b <= |s|
    requires PeriodicUpTo(s, b, Offset(k, b)) && s[Offset(k, b)..Offset(k, b) + b] == s[..b]
    ensures PeriodicUpTo(s, b, Offset(k, b) + b)
  {
    var i := Offset(k, b);
    OffsetMul(k, b);
    forall j | i <= j < i + b ensures s[j] == s[j % b] {
      ModInBlock(k, b, j - i);
      assert s[j] == s[i..i + b][j - i];
    }
  }

  /** A block that differs from the first one rules the block length out. */
  lemma BlockMismatch(s: string, b: nat, k: nat)
    requires 0 < b && Offset(k, b) + b <= |s|
    requires s[Offset(k, b)..Offset(k, b) + b] != s[..b]
    ensures !PeriodicWith(s, b)
  {
    var i := Offset(k, b);
    OffsetMul(k, b);
    var t :| 0 <= t < b && s[i..i + b][t] != s[..b][t];
    ModInBlock(k, b, t);
    assert s[i + t] != s[(i + t) % b];
  }

  /** The inner loop of `is_fully_repeating_block`: compares every block with the first one. */
  method BlocksMatch(s: string, blockLen: nat) returns (isRepeating: bool)
    requires 0 < blockLen <= |s| && |s| % blockLen == 0
    ensures isRepeating <==> PeriodicWith(s, blockLen)
  {
    var length := |s|;
    var initialBlock := s[..blockLen];
    var i := blockLen;
    ghost var k: nat := 1;
    ghost var m: nat := length / blockLen;
    WholeBlocks(length, blockLen);
    assert Offset(1, blockLen) == blockLen;
    assert PeriodicUpTo(s, blockLen, blockLen) by {
      forall j | 0 <= j < blockLen ensures s[j] == s[j % blockLen] {
        ModInBlock(0, blockLen, j);
      }
    }
    while i < length
      invariant i == Offset(k, blockLen) && k <= m && i <= length
      invariant PeriodicUpTo(s, blockLen, i)
      decreases length - i
    {
      NextBlockFits(k, m, blockLen);
      var currentBlock := s[i..i + blockLen];
      if currentBlock != initialBlock {
        BlockMismatch(s, blockLen, k);
        return false;
      }
      ExtendByBlock(s, blockLen, k);
      i := i + blockLen;
      k := k + 1;
    }
    return true;
  }

  /** `is_fully_repeating_block`: tries each block length from 1 to half the length that divides the length. */
  method IsFullyRepeatingBlock(number: nat) returns (r: bool)
    ensures r <==> RepeatedNumber(number)
  {
    var s := NatToString(number);
    var length := |s|;
    var blockLen := 1;
    while blockLen <= length / 2
      invariant 1 <= blockLen <= length / 2 + 1
      invariant forall b :: 1 <= b < blockLen ==> !PeriodicWith(s, b)
    {
      if length % blockLen == 0 {
        var isRepeating := BlocksMatch(s, blockLen);
        if isRepeating {
          return true;
        }
      }
      blockLen := blockLen + 1;
    }
    return false;
  }

  /** Equal halves make the string periodic with half its length. */
  lemma HalvesPeriodic(s: string)
    requires |s| >= 2 && |s| % 2 == 0 && s[..|s| / 2] == s[|s| / 2..]
    ensures PeriodicWith(s, |s| / 2)
  {
    var b := |s| / 2;
    ModInBlock(2, b, 0);
    forall i | 0 <= i < |s| ensures s[i] == s[i % b] {
      if i >= b {
        ModInBlock(1, b, i - b);
        assert s[i] == s[b..][i - b] == s[..b][i - b];
      } else {
        ModInBlock(0, b, i);
      }
    }
  }

  /** Part 1 numbers are part 2 numbers: the half is a block that repeats twice. */
  lemma SelfReflectingRepeats(n: nat)
    requires SelfReflecting(n)
    ensures RepeatedNumber(n)
    ensures PeriodicWith(NatToString(n), |NatToString(n)| / 2)
  {
    var s := NatToString(n);
    HalvesPeriodic(s);
  }

  /** One-digit numbers count in neither part. */
  lemma SingleDigitNeither(n: nat)
    requires n < 10
    ensures !SelfReflecting(n) && !RepeatedNumber(n)
  {
  }

  /** Part 2 is strictly wider: 111 repeats the block "1" but has odd length. */
  lemma OddRepetitionOnlyPart2()
    ensures RepeatedNumber(111) && !SelfReflecting(111)
  {
    var s := NatToString(111);
    assert s == "111" by {
      assert NatToString(11) == "11";
    }
    assert PeriodicWith(s, 1);
  }

  /** Sum of the numbers in `lo..hi` (both inclusive) that satisfy `p`. */
  function RangeSum(lo: nat, hi: int, p: nat -> bool): nat
    decreases hi - lo + 1
  {
    if hi < lo then 0 else RangeSum(lo, hi - 1, p) + (if p(hi) then hi else 0)
  }

  /** The ranges read from the input never start below 0. */
  predicate NaturalRanges(ranges: seq<(int, int)>)
  {
    forall k :: 0 <= k < |ranges| ==> ranges[k].0 >= 0
  }

  /** Sum over all ranges, each number counted once per range that holds it. */
  function Total(ranges: seq<(int, int)>, p: nat -> bool): nat
    requires NaturalRanges(ranges)
  {
    if ranges == [] then 0
    else
      var last := ranges[|ranges| - 1];
      Total(ranges[..|ranges| - 1], p) + RangeSum(last.0, last.1, p)
  }

  lemma TotalStep(ranges: seq<(int, int)>, k: nat, p: nat -> bool)
    requires NaturalRanges(ranges) && k < |ranges|
    ensures Total(ranges[..k + 1], p) == Total(ranges[..k], p) + RangeSum(ranges[k].0, ranges[k].1, p)
  {
    assert ranges[..k + 1][..k] == ranges[..k];
  }

  /** The inner loop of part 1 over one range `lo..hi`. */
  method SelfReflectingSum(lo: nat, hi: int) returns (sum: nat)
    ensures sum == RangeSum(lo, hi, SelfReflecting)
  {
    sum := 0;
    var num: nat := lo;
    while num <= hi
      invariant lo <= num <= if hi < lo then lo else hi + 1
      invariant sum == RangeSum(lo, num - 1, SelfReflecting)
    {
      if SelfReflecting(num) {
        sum := sum + num;
      }
      num := num + 1;
    }
  }

  /** Part 1: the sum of the self-reflecting numbers of all ranges. */
  method Part1(ranges: seq<(int, int)>) returns (validNumbersSum: nat)
    requires NaturalRanges(ranges)
    ensures validNumbersSum == Total(ranges, SelfReflecting)
  {
    validNumbersSum := 0;
    var k := 0;
    while k < |ranges|
      invariant 0 <= k <= |ranges|
      invariant validNumbersSum == Total(ranges[..k], SelfReflecting)
    {
      var (lowerBound, upperBound) := ranges[k];
      var sum := SelfReflectingSum(lowerBound, upperBound);
      validNumbersSum := validNumbersSum + sum;
      TotalStep(ranges, k, SelfReflecting);
      k := k + 1;
    }
    assert ranges[..k] == ranges;
  }

  /** The inner loop of part 2 over one range `lo..hi`. */
  method RepeatedSum(lo: nat, hi: int) returns (sum: nat)
    ensures sum == RangeSum(lo, hi, RepeatedNumber)
  {
    sum := 0;
    var num: nat := lo;
    while num <= hi
      invariant lo <= num <= if hi < lo then lo else hi + 1
      invariant sum == RangeSum(lo, num - 1, RepeatedNumber)
    {
      var repeating := IsFullyRepeatingBlock(num);
      if repeating {
        sum := sum + num;
      }
      num := num + 1;
    }
  }

  /** Part 2: the sum of the numbers of all ranges made of one repeated block. */
  method Part2(ranges: seq<(int, int)>) returns (validNumbersSum: nat)
    requires NaturalRanges(ranges)
    ensures validNumbersSum == Total(ranges, RepeatedNumber)
  {
    validNumbersSum := 0;
    var k := 0;
    while k < |ranges|
      invariant 0 <= k <= |ranges|
      invariant validNumbersSum == Total(ranges[..k], RepeatedNumber)
    {
      var (lowerBound, upperBound) := ranges[k];
      var sum := RepeatedSum(lowerBound, upperBound);
      validNumbersSum := validNumbersSum + sum;
      TotalStep(ranges, k, RepeatedNumber);
      k := k + 1;
    }
    assert ranges[..k] == ranges;
  }

  lemma {:induction false} RangeSumMonotone(lo: nat, hi: int, p: nat -> bool, q: nat -> bool)
    requires forall n: nat :: p(n) ==> q(n)
    ensures RangeSum(lo, hi, p) <= RangeSum(lo, hi, q)
    decreases hi - lo + 1
  {
    if hi >= lo {
      RangeSumMonotone(lo, hi - 1, p, q);
    }
  }

  /** The part 2 answer is never below the part 1 answer. */
  lemma {:induction false} Part2AtLeastPart1(ranges: seq<(int, int)>)
    requires NaturalRanges(ranges)
    ensures Total(ranges, SelfReflecting) <= Total(ranges, RepeatedNumber)
  {
    if ranges != [] {
      var last := ranges[|ranges| - 1];
      forall n: nat | SelfReflecting(n) ensures RepeatedNumber(n) {
        SelfReflectingRepeats(n);
      }
      RangeSumMonotone(last.0, last.1, SelfReflecting, RepeatedNumber);
      Part2AtLeastPart1(ranges[..|ranges| - 1]);
    }
  }

  /** The well-formed tokens, in order. */
  function RangesOf(tokens: seq<string>): seq<(int, int)>
  {
    if tokens == [] then []
    else
      var rest := RangesOf(tokens[..|tokens| - 1]);
      match TokenRange(tokens[|tokens| - 1])
      case None => rest
      case Some(r) => rest + [r]
  }

  /** The first line that is not blank, stripped: `lines[0]` of the filtered list. */
  function FirstContentLine(lines: seq<string>): Option<string>
  {
    if lines == [] then None
    else if Strip(lines[0]) != "" then Some(Strip(lines[0]))
    else FirstContentLine(lines[1..])
  }

  /** `get_ranges_from_file` after the file is read: the ranges of the first non-blank line. */
  method GetRanges(lines: seq<string>) returns (ranges: seq<(int, int)>)
    ensures FirstContentLine(lines).None? ==> ranges == []
    ensures FirstContentLine(lines).Some? ==> ranges == RangesOf(Split(FirstContentLine(lines).value, ','))
  {
    var first := FirstContentLine(lines);
    if first.None? {
      return [];
    }
    var rangeStrings := Split(first.value, ',');
    ranges := [];
    var k := 0;
    while k < |rangeStrings|
      invariant 0 <= k <= |rangeStrings|
      invariant ranges == RangesOf(rangeStrings[..k])
    {
      assert rangeStrings[..k + 1][..k] == rangeStrings[..k];
      var parsed := TokenRange(rangeStrings[k]);
      if parsed.Some? {
        ranges := ranges + [parsed.value];
      }
      k := k + 1;
    }
    assert rangeStrings[..k] == rangeStrings;
  }

  /** The tokens never yield a negative bound, since a '-' always splits a token. */
  lemma {:induction false} ParsedRangesNatural(tokens: seq<string>)
    ensures forall k :: 0 <= k < |RangesOf(tokens)| ==> RangesOf(tokens)[k].0 >= 0 && RangesOf(tokens)[k].1 >= 0
  {
    if tokens != [] {
      ParsedRangesNatural(tokens[..|tokens| - 1]);
      if TokenRange(tokens[|tokens| - 1]).Some? {
        TokenRangeNatural(tokens[|tokens| - 1]);
      }
    }
  }

  /** The ranges written back as one comma-separated line. */
  function FormatTokens(ranges: seq<(nat, nat)>): (tokens: seq<string>)
    ensures |tokens| == |ranges|
  {
    if ranges == [] then []
    else FormatTokens(ranges[..|ranges| - 1]) + [RangeToken(ranges[|ranges| - 1].0, ranges[|ranges| - 1].1)]
  }

  /** Parsing the tokens of formatted ranges gives the ranges back. */
  lemma {:induction false} RangesOfFormat(ranges: seq<(nat, nat)>)
    ensures RangesOf(FormatTokens(ranges)) == ranges
  {
    if ranges != [] {
      var tokens := FormatTokens(ranges);
      var last := ranges[|ranges| - 1];
      assert tokens[..|tokens| - 1] == FormatTokens(ranges[..|ranges| - 1]);
      RangesOfFormat(ranges[..|ranges| - 1]);
      TokenRangeOfToken(last.0, last.1);
      assert ranges == ranges[..|ranges| - 1] + [last];
    }
  }

  lemma {:induction false} TokensHaveNoComma(ranges: seq<(nat, nat)>)
    ensures forall k :: 0 <= k < |FormatTokens(ranges)| ==> ',' !in FormatTokens(ranges)[k]
  {
    if ranges != [] {
      TokensHaveNoComma(ranges[..|ranges| - 1]);
      var last := ranges[|ranges| - 1];
      DigitsHaveNoSeparators(last.0);
      DigitsHaveNoSeparators(last.1);
    }
  }

  /** A non-empty line `lo-hi,lo-hi,...` written from ranges of naturals reads back as those ranges. */
  lemma LineRoundTrip(ranges: seq<(nat, nat)>)
    requires |ranges| > 0
    ensures RangesOf(Split(Join(FormatTokens(ranges), ','), ',')) == ranges
  {
    TokensHaveNoComma(ranges);
    SplitJoin(FormatTokens(ranges), ',');
    RangesOfFormat(ranges);
  }
}
