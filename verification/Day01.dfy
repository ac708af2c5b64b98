/**
 * Day 1: a dial with positions 0..99 that starts at 50.  Each instruction is a
 * direction letter followed by a distance; `L` turns the dial down, `R` up.
 * Part 1 counts the instructions after which the dial shows 0; part 2 counts
 * every click (single step) at which the dial passes through 0.
 */
module Day01 {
  import opened Base
  import opened Text

  const Modulus: int := 100
  const StartPosition: int := 50

  /** One non-empty input line: its first character is the direction, the rest the distance. */
  predicate NonEmptyLines(lines: seq<string>)
  {
    forall i :: 0 <= i < |lines| ==> |lines[i]| > 0
  }

  function Direction(line: string): char
    requires |line| > 0
  {
    line[0]
  }

  /** `int(line[1:])`; `None` when Python raises ValueError and the line is skipped. */
  function Distance(line: string): Option<int>
    requires |line| > 0
  {
    ParseInt(line[1..])
  }

  /**
   * The dial position after turning `distance` clicks in direction `dir`.
   * Python's `%` with a positive modulus is never negative, and so is Dafny's.
   */
  function Rotate(pos: int, dir: char, distance: int): (p: int)
    requires 0 <= pos < Modulus
    ensures 0 <= p < Modulus
    ensures dir != 'L' && dir != 'R' ==> p == pos
  {
    if dir == 'L' then (pos - distance) % Modulus
    else if dir == 'R' then (pos + distance) % Modulus
    else pos
  }

  /** Position of the dial after all of `lines`; lines whose distance does not parse are skipped. */
  function Position(lines: seq<string>): (p: int)
    requires NonEmptyLines(lines)
    ensures 0 <= p < Modulus
  {
    if lines == [] then StartPosition
    else
      var last := lines[|lines| - 1];
      var before := Position(lines[..|lines| - 1]);
      match Distance(last)
      case None => before
      case Some(d) => Rotate(before, Direction(last), d)
  }

  lemma PositionStep(lines: seq<string>, k: nat)
    requires NonEmptyLines(lines) && k < |lines|
    ensures Position(lines[..k + 1]) ==
      match Distance(lines[k])
      case None => Position(lines[..k])
      case Some(d) => Rotate(Position(lines[..k]), Direction(lines[k]), d)
  {
    assert lines[..k + 1][..k] == lines[..k];
  }

  /** Instruction `i` parses and leaves the dial at 0. */
  predicate StopsAtZero(lines: seq<string>, i: nat)
    requires NonEmptyLines(lines) && i < |lines|
  {
    Distance(lines[i]).Some? && Position(lines[..i + 1]) == 0
  }

  /** The number of parsed instructions among the first `k` that leave the dial at 0. */
  function ZeroStops(lines: seq<string>, k: nat): nat
    requires NonEmptyLines(lines) && k <= |lines|
  {
    if k == 0 then 0 else ZeroStops(lines, k - 1) + (if StopsAtZero(lines, k - 1) then 1 else 0)
  }

  lemma ZeroStopsStep(lines: seq<string>, k: nat, parsed: Option<int>, pos: int)
    requires NonEmptyLines(lines) && k < |lines|
    requires parsed == Distance(lines[k]) && pos == Position(lines[..k + 1])
    ensures ZeroStops(lines, k + 1) == ZeroStops(lines, k) + (if parsed.Some? && pos == 0 then 1 else 0)
  {
  }

  /** The position update both parts perform for a parsed instruction. */
  method Turn(pos: int, line: string, distance: int) returns (next: int)
    requires 0 <= pos < Modulus && |line| > 0
    ensures next == Rotate(pos, Direction(line), distance)
  {
    next := pos;
    if line[0] == 'L' {
      next := (pos - distance) % Modulus;
    } else if line[0] == 'R' {
      next := (pos + distance) % Modulus;
    }
  }

  /** Part 1: the number of parsed instructions that leave the dial at 0. */
  method Part1(lines: seq<string>) returns (zeroHits: nat)
    requires NonEmptyLines(lines)
    ensures zeroHits == ZeroStops(lines, |lines|)
  {
    var currentPosition := StartPosition;
    zeroHits := 0;
    var k := 0;
    while k < |lines|
      invariant 0 <= k <= |lines|
      invariant currentPosition == Position(lines[..k])
      invariant zeroHits == ZeroStops(lines, k)
    {
      var line := lines[k];
      var parsed := Distance(line);
      if parsed.Some? {
        currentPosition := Turn(currentPosition, line, parsed.value);
      }
      assert currentPosition == Position(lines[..k + 1]) by { PositionStep(lines, k); }
      if parsed.Some? && currentPosition == 0 {
        zeroHits := zeroHits + 1;
      }
      assert zeroHits == ZeroStops(lines, k + 1) by {
        ZeroStopsStep(lines, k, parsed, currentPosition);
      }
      k := k + 1;
    }
  }

  /** The zero crossings of one rotation, exactly as the part 2 formula computes them. */
  function ZerosInRotation(pStart: int, dir: char, distance: int): int
  {
    if dir == 'R' then (pStart + distance) / Modulus
    else if dir == 'L' then
      if pStart == 0 then (distance - 1) / Modulus
      else if distance < pStart then 0
      else 1 + (distance - pStart) / Modulus
    else 0
  }

  /** The intended count: the clicks k in 1..distance after which the dial shows 0. */
  function ClickHits(pStart: int, dir: char, distance: int): (n: nat)
    requires 0 <= pStart < Modulus
    decreases distance
  {
    if distance <= 0 then 0
    else ClickHits(pStart, dir, distance - 1) + (if Rotate(pStart, dir, distance) == 0 then 1 else 0)
  }

  /** One more click adds one to the quotient exactly when it completes a full turn. */
  lemma NextQuotient(n: int)
    requires n >= 0
    ensures (n + 1) / Modulus == n / Modulus + (if (n + 1) % Modulus == 0 then 1 else 0)
    ensures (-(n + 1)) % Modulus == 0 <==> (n + 1) % Modulus == 0
  {
    var q, r := n / Modulus, n % Modulus;
    assert n == Modulus * q + r;
    if r == Modulus - 1 {
      assert n + 1 == Modulus * (q + 1);
      assert -(n + 1) == Modulus * (-q - 1);
    } else {
      assert n + 1 == Modulus * q + (r + 1);
      assert -(n + 1) == Modulus * (-q - 1) + (Modulus - r - 1);
    }
  }

  /** Turning right from P by d passes 0 exactly (P + d) // 100 times. */
  lemma {:induction false} RightCrossings(p: int, d: int)
    requires 0 <= p < Modulus && d >= 0
    ensures ZerosInRotation(p, 'R', d) == ClickHits(p, 'R', d)
  {
    if d > 0 {
      RightCrossings(p, d - 1);
      NextQuotient(p + d - 1);
    }
  }

  /** Turning left from P > 0 by d passes 0 as often as the formula says. */
  lemma {:induction false} LeftCrossings(p: int, d: int)
    requires 0 < p < Modulus && d >= 0
    ensures ZerosInRotation(p, 'L', d) == ClickHits(p, 'L', d)
  {
    if d > 0 {
      LeftCrossings(p, d - 1);
      if d < p {
        assert (p - d) % Modulus == p - d;
      } else if d == p {
        assert (p - d) % Modulus == 0;
      } else {
        NextQuotient(d - p - 1);
        assert p - d == -(d - p - 1 + 1);
      }
    }
  }

  /** The part 2 formula as written undercounts a left turn that starts at 0. */
  lemma LeftFromZeroUndercounts()
    ensures ZerosInRotation(0, 'L', 100) == 0 && ClickHits(0, 'L', 100) == 1
    ensures ZerosInRotation(0, 'L', 0) == -1 && ClickHits(0, 'L', 0) == 0
  {
    LeftFromZeroClicks(100);
  }

  /** Corrected formula: from 0, a left turn of d passes 0 once per full turn, d // 100 times. */
  function ZerosInRotationFixed(pStart: int, dir: char, distance: int): int
  {
    if dir == 'L' && pStart == 0 then distance / Modulus else ZerosInRotation(pStart, dir, distance)
  }

  lemma {:induction false} LeftFromZeroClicks(d: int)
    requires d >= 0
    ensures ClickHits(0, 'L', d) == d / Modulus
  {
    if d > 0 {
      LeftFromZeroClicks(d - 1);
      NextQuotient(d - 1);
      assert 0 - d == -(d - 1 + 1);
    }
  }

  /** The corrected formula counts exactly the clicks that land on 0, for every start and distance. */
  lemma FixedCountsClicks(p: int, dir: char, d: int)
    requires 0 <= p < Modulus && d >= 0 && (dir == 'L' || dir == 'R')
    ensures ZerosInRotationFixed(p, dir, d) == ClickHits(p, dir, d)
  {
    if dir == 'R' {
      RightCrossings(p, d);
    } else if p == 0 {
      LeftFromZeroClicks(d);
    } else {
      LeftCrossings(p, d);
    }
  }

  /** The formula as written is one short exactly on left turns from 0 by a multiple of 100. */
  lemma AsWrittenDefect(p: int, dir: char, d: int)
    requires 0 <= p < Modulus && d >= 0 && (dir == 'L' || dir == 'R')
    ensures ZerosInRotation(p, dir, d) ==
            ClickHits(p, dir, d) - (if dir == 'L' && p == 0 && d % Modulus == 0 then 1 else 0)
  {
    FixedCountsClicks(p, dir, d);
    if dir == 'L' && p == 0 {
      var q, r := (d - 1) / 100, (d - 1) % 100;
      assert d - 1 == 100 * q + r;
      if d % 100 == 0 {
        assert d == 100 * (q + 1);
      } else {
        assert d / 100 == q;
      }
    }
  }

  /** The part 2 total over `lines`, each rotation counted with the formula as written. */
  function Crossings(lines: seq<string>): int
    requires NonEmptyLines(lines)
  {
    if lines == [] then 0
    else
      var last := lines[|lines| - 1];
      var before := lines[..|lines| - 1];
      Crossings(before) +
        match Distance(last)
        case None => 0
        case Some(d) => ZerosInRotation(Position(before), Direction(last), d)
  }

  /** Part 2: the sum of the per-rotation zero crossings; the dial moves as in part 1. */
  method Part2(lines: seq<string>) returns (totalZeroCrossings: int)
    requires NonEmptyLines(lines)
    ensures totalZeroCrossings == Crossings(lines)
  {
    var currentPosition := StartPosition;
    totalZeroCrossings := 0;
    var k := 0;
    while k < |lines|
      invariant 0 <= k <= |lines|
      invariant currentPosition == Position(lines[..k])
      invariant totalZeroCrossings == Crossings(lines[..k])
    {
      var line := lines[k];
      var parsed := Distance(line);
      var pStart := currentPosition;
      if parsed.Some? {
        var distance := parsed.value;
        var zerosInRotation := 0;
        if line[0] == 'R' {
          zerosInRotation := (pStart + distance) / Modulus;
        } else if line[0] == 'L' {
          if pStart == 0 {
            zerosInRotation := (distance - 1) / Modulus;
          } else if distance < pStart {
            zerosInRotation := 0;
          } else {
            var dRemaining := distance - pStart;
            zerosInRotation := 1 + dRemaining / Modulus;
          }
        }
        assert zerosInRotation == ZerosInRotation(pStart, Direction(line), distance);
        totalZeroCrossings := totalZeroCrossings + zerosInRotation;
        currentPosition := Turn(pStart, line, distance);
      }
      assert currentPosition == Position(lines[..k + 1]) by { PositionStep(lines, k); }
      assert totalZeroCrossings == Crossings(lines[..k + 1]) by { CrossingsStep(lines, k); }
      k := k + 1;
    }
    assert lines[..k] == lines;
  }

  lemma CrossingsStep(lines: seq<string>, k: nat)
    requires NonEmptyLines(lines) && k < |lines|
    ensures Crossings(lines[..k + 1]) == Crossings(lines[..k]) +
      match Distance(lines[k])
      case None => 0
      case Some(d) => ZerosInRotation(Position(lines[..k]), Direction(lines[k]), d)
  {
    assert lines[..k + 1][..k] == lines[..k];
  }

  /** Every click of every L/R rotation that lands on 0: the total part 2 is meant to compute. */
  function ClickTotal(lines: seq<string>): int
    requires NonEmptyLines(lines)
  {
    if lines == [] then 0
    else
      var last := lines[|lines| - 1];
      var before := lines[..|lines| - 1];
      ClickTotal(before) +
        match Distance(last)
        case None => 0
        case Some(d) =>
          if Direction(last) == 'L' || Direction(last) == 'R' then ClickHits(Position(before), Direction(last), d) else 0
  }

  /** Left turns by a positive multiple of 100 (or by 0) that start at 0: the cases the formula gets wrong. */
  function Defects(lines: seq<string>): nat
    requires NonEmptyLines(lines)
  {
    if lines == [] then 0
    else
      var last := lines[|lines| - 1];
      var before := lines[..|lines| - 1];
      Defects(before) +
        match Distance(last)
        case None => 0
        case Some(d) =>
          if Direction(last) == 'L' && Position(before) == 0 && d % Modulus == 0 then 1 else 0
  }

  /** Non-negative distances: the part 2 total as written is the true click count minus the defects. */
  predicate NonNegativeDistances(lines: seq<string>)
    requires NonEmptyLines(lines)
  {
    forall i :: 0 <= i < |lines| ==> (Distance(lines[i]).Some? ==> Distance(lines[i]).value >= 0)
  }

  lemma {:induction false} CrossingsUndercount(lines: seq<string>)
    requires NonEmptyLines(lines) && NonNegativeDistances(lines)
    ensures Crossings(lines) == ClickTotal(lines) - Defects(lines)
  {
    if lines != [] {
      var before := lines[..|lines| - 1];
      var last := lines[|lines| - 1];
      assert NonNegativeDistances(before) by {
        forall i | 0 <= i < |before| ensures Distance(before[i]).Some? ==> Distance(before[i]).value >= 0 {
          assert before[i] == lines[i];
        }
      }
      CrossingsUndercount(before);
      match Distance(last)
      case None =>
      case Some(d) =>
        assert d >= 0 by { assert lines[|lines| - 1] == last; }
        if Direction(last) == 'L' || Direction(last) == 'R' {
          AsWrittenDefect(Position(before), Direction(last), d);
        }
    }
  }

  /** For any distance, the corrected formula is the one as written plus one on exactly the defective turns. */
  lemma FixedAddsDefect(p: int, dir: char, d: int)
    ensures ZerosInRotationFixed(p, dir, d) ==
            ZerosInRotation(p, dir, d) + (if dir == 'L' && p == 0 && d % Modulus == 0 then 1 else 0)
  {
    if dir == 'L' && p == 0 {
      var q, r := (d - 1) / 100, (d - 1) % 100;
      assert d - 1 == 100 * q + r;
      if d % 100 == 0 {
        assert d == 100 * (q + 1);
      } else {
        assert d / 100 == q;
      }
    }
  }

  lemma DefectsStep(lines: seq<string>, k: nat)
    requires NonEmptyLines(lines) && k < |lines|
    ensures Defects(lines[..k + 1]) == Defects(lines[..k]) +
      match Distance(lines[k])
      case None => 0
      case Some(d) => if Direction(lines[k]) == 'L' && Position(lines[..k]) == 0 && d % Modulus == 0 then 1 else 0
  {
    assert lines[..k + 1][..k] == lines[..k];
  }

  /** One more line adds its corrected count to the running total of the corrected part 2. */
  lemma FixedStep(lines: seq<string>, k: nat)
    requires NonEmptyLines(lines) && k < |lines|
    ensures Crossings(lines[..k + 1]) + Defects(lines[..k + 1]) == Crossings(lines[..k]) + Defects(lines[..k]) +
      match Distance(lines[k])
      case None => 0
      case Some(d) => ZerosInRotationFixed(Position(lines[..k]), Direction(lines[k]), d)
  {
    CrossingsStep(lines, k);
    DefectsStep(lines, k);
    match Distance(lines[k])
    case None =>
    case Some(d) => FixedAddsDefect(Position(lines[..k]), Direction(lines[k]), d);
  }

  /**
   * Part 2 with the corrected left-from-0 formula: it adds one click on every
   * turn the formula as written misses, so on non-negative distances it is the
   * true number of clicks that land on 0.
   */
  method Part2Fixed(lines: seq<string>) returns (totalZeroCrossings: int)
    requires NonEmptyLines(lines)
    ensures totalZeroCrossings == Crossings(lines) + Defects(lines)
    ensures NonNegativeDistances(lines) ==> totalZeroCrossings == ClickTotal(lines)
  {
    var currentPosition := StartPosition;
    totalZeroCrossings := 0;
    var k := 0;
    while k < |lines|
      invariant 0 <= k <= |lines|
      invariant currentPosition == Position(lines[..k])
      invariant totalZeroCrossings == Crossings(lines[..k]) + Defects(lines[..k])
    {
      var line := lines[k];
      var parsed := Distance(line);
      var pStart := currentPosition;
      if parsed.Some? {
        var distance := parsed.value;
        var zerosInRotation := 0;
        if line[0] == 'R' {
          zerosInRotation := (pStart + distance) / Modulus;
        } else if line[0] == 'L' {
          if pStart == 0 {
            zerosInRotation := distance / Modulus;
          } else if distance < pStart {
            zerosInRotation := 0;
          } else {
            var dRemaining := distance - pStart;
            zerosInRotation := 1 + dRemaining / Modulus;
          }
        }
        assert zerosInRotation == ZerosInRotationFixed(pStart, Direction(line), distance);
        totalZeroCrossings := totalZeroCrossings + zerosInRotation;
        currentPosition := Turn(pStart, line, distance);
      }
      assert currentPosition == Position(lines[..k + 1]) by { PositionStep(lines, k); }
      assert totalZeroCrossings == Crossings(lines[..k + 1]) + Defects(lines[..k + 1]) by { FixedStep(lines, k); }
      k := k + 1;
    }
    assert lines[..k] == lines;
    if NonNegativeDistances(lines) {
      CrossingsUndercount(lines);
    }
  }
}
