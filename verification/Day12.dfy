/**
 * Day 12: the input lists present shapes (a header `N:` followed by rows of
 * `#` and `.`) and regions under a tree (`WxH: c0 c1 ...`, one count per
 * shape).  Part 1 keeps the regions whose area is at least nine cells per
 * present; part 2 is a placeholder that answers 0.
 */
module Day12 {
  import opened Base
  import opened Text

  /** Every present is assumed to take up nine cells. */
  const AssumedShapeArea: int := 9

  datatype Region = Region(width: int, height: int, presentCounts: seq<int>)
  {
    /** `Region.area`: the number of cells of a `width` by `height` region. */
    function Area(): (a: int)
      ensures width >= 0 && height >= 0 ==> a >= 0
      ensures width == 0 || height == 0 ==> a == 0
    {
      AreaNonNegative(width, height);
      width * height
    }
  }

  lemma AreaNonNegative(w: int, h: int)
    ensures w >= 0 && h >= 0 ==> w * h >= 0
  {
  }

  type Shape = seq<string>

  /** The parser's state: the shapes so far, the regions so far, and the shape whose rows are being read. */
  datatype Parsed = Parsed(shapes: map<int, Shape>, regions: seq<Region>, current: Option<int>)

  const Empty := Parsed(map[], [], None)

  /** A line that holds a row of a shape. */
  predicate IsShapeRow(line: string) { '#' in line || '.' in line }

  /** A line that is a header of either kind. */
  predicate IsHeader(line: string) { !IsShapeRow(line) && ':' in line }

  /** `line.split(":", 1)`: the text before the first colon and the text after it. */
  function SplitHeader(line: string): (parts: (string, string))
    requires ':' in line
    ensures parts.0 + [':'] + parts.1 == line && ':' !in parts.0
  {
    if line[0] == ':' then ("", line[1..])
    else
      var rest := SplitHeader(line[1..]);
      assert line == [line[0]] + line[1..];
      ([line[0]] + rest.0, rest.1)
  }

  /** The content after a header's colon, stripped of surrounding whitespace. */
  function HeaderContent(line: string): string
    requires ':' in line
  {
    Strip(SplitHeader(line).1)
  }

  /** A header with content after the colon: a region. */
  predicate IsRegionHeader(line: string)
  {
    IsHeader(line) && HeaderContent(line) != ""
  }

  /** `[int(x) for x in content.split()]`; `None` where `int` raises ValueError. */
  function Counts(words: seq<string>): (r: Option<seq<int>>)
    ensures r.Some? ==> |r.value| == |words|
  {
    if words == [] then Some([])
    else match (ParseInt(words[0]), Counts(words[1..]))
      case (Some(v), Some(rest)) => Some([v] + rest)
      case _ => None
  }

  /** `WxH` read as `Region(W, H, counts)`; `None` where the unpacking or `int` raises ValueError. */
  function RegionOf(header: string, content: string): Option<Region>
  {
    var dims := Split(header, 'x');
    if |dims| != 2 then None
    else match (ParseInt(dims[0]), ParseInt(dims[1]), Counts(Words(content)))
      case (Some(w), Some(h), Some(counts)) => Some(Region(w, h, counts))
      case _ => None
  }

  /** One iteration of the `parse_input` loop; `None` where it raises ValueError. */
  function Step(p: Parsed, line: string): Option<Parsed>
  {
    if line == "" then Some(p)
    else if IsShapeRow(line) then
      if p.current.Some? && p.current.value in p.shapes then
        Some(p.(shapes := p.shapes[p.current.value := p.shapes[p.current.value] + [line]]))
      else Some(p)
    else if ':' in line then
      var (header, content) := SplitHeader(line);
      if Strip(content) == "" then
        match ParseInt(header)
        case None => None
        case Some(id) => Some(p.(shapes := p.shapes[id := []], current := Some(id)))
      else
        match RegionOf(header, Strip(content))
        case None => None
        case Some(region) => Some(p.(regions := p.regions + [region], current := None))
    else Some(p)
  }

  /** The parser's state after `lines`, or `None` if some line raised ValueError. */
  function ParseAll(lines: seq<string>): Option<Parsed>
  {
    if lines == [] then Some(Empty)
    else match ParseAll(lines[..|lines| - 1])
      case None => None
      case Some(p) => Step(p, lines[|lines| - 1])
  }

  /** An open shape always has an entry in the dictionary. */
  predicate Consistent(p: Parsed)
  {
    p.current.Some? ==> p.current.value in p.shapes
  }

  lemma StepConsistent(p: Parsed, line: string)
    requires Consistent(p) && Step(p, line).Some?
    ensures Consistent(Step(p, line).value)
  {
  }

  lemma {:induction false} ParseAllConsistent(lines: seq<string>)
    requires ParseAll(lines).Some?
    ensures Consistent(ParseAll(lines).value)
  {
    if lines != [] {
      ParseAllConsistent(lines[..|lines| - 1]);
      StepConsistent(ParseAll(lines[..|lines| - 1]).value, lines[|lines| - 1]);
    }
  }

  /** `parse_input`: the loop over the lines with its `current_shape_id` state. */
  method ParseInput(lines: seq<string>) returns (result: Option<(map<int, Shape>, seq<Region>)>)
    ensures result.None? <==> ParseAll(lines).None?
    ensures result.Some? ==> result.value == (ParseAll(lines).value.shapes, ParseAll(lines).value.regions)
  {
    var shapes: map<int, Shape> := map[];
    var regions: seq<Region> := [];
    var currentShapeId: Option<int> := None;
    var k := 0;
    while k < |lines|
      invariant 0 <= k <= |lines|
      invariant ParseAll(lines[..k]) == Some(Parsed(shapes, regions, currentShapeId))
      invariant currentShapeId.Some? ==> currentShapeId.value in shapes
    {
      var line := lines[k];
      assert lines[..k + 1][..k] == lines[..k];
      if line == "" {
        k := k + 1;
        continue;
      }
      if '#' in line || '.' in line {
        if currentShapeId.Some? {
          shapes := shapes[currentShapeId.value := shapes[currentShapeId.value] + [line]];
        }
      } else if ':' in line {
        var (header, content) := SplitHeader(line);
        content := Strip(content);
        if content == "" {
          var id := ParseInt(header);
          if id.None? {
            ParseAllStops(lines, k + 1);
            return None;
          }
          currentShapeId := Some(id.value);
          shapes := shapes[id.value := []];
        } else {
          currentShapeId := None;
          var region := RegionOf(header, content);
          if region.None? {
            ParseAllStops(lines, k + 1);
            return None;
          }
          regions := regions + [region.value];
        }
      }
      k := k + 1;
    }
    assert lines[..k] == lines;
    return Some((shapes, regions));
  }

  /** Once a line raises ValueError, the whole parse does. */
  lemma {:induction false} ParseAllStops(lines: seq<string>, k: nat)
    requires k <= |lines| && ParseAll(lines[..k]).None?
    ensures ParseAll(lines).None?
    decreases |lines| - k
  {
    if k < |lines| {
      assert lines[..k + 1][..k] == lines[..k];
      ParseAllStops(lines, k + 1);
    } else {
      assert lines[..k] == lines;
    }
  }

  /** A blank line changes nothing. */
  lemma BlankLineSkipped(p: Parsed)
    ensures Step(p, "") == Some(p)
  {
  }

  /** A row of `#`/`.` is added to the open shape and to nothing else; with no shape open it is dropped. */
  lemma ShapeRowAppended(p: Parsed, line: string)
    requires Consistent(p) && line != "" && IsShapeRow(line)
    ensures Step(p, line).Some?
    ensures var q := Step(p, line).value;
      q.regions == p.regions && q.current == p.current &&
      (p.current.None? ==> q.shapes == p.shapes) &&
      (p.current.Some? ==>
        q.shapes.Keys == p.shapes.Keys &&
        q.shapes[p.current.value] == p.shapes[p.current.value] + [line] &&
        forall id :: id in p.shapes && id != p.current.value ==> q.shapes[id] == p.shapes[id])
  {
  }

  /** A header with nothing after the colon opens a new, empty shape under its number. */
  lemma ShapeHeaderOpens(p: Parsed, line: string)
    requires line != "" && IsHeader(line) && !IsRegionHeader(line)
    requires ParseInt(SplitHeader(line).0).Some?
    ensures Step(p, line).Some?
    ensures var id := ParseInt(SplitHeader(line).0).value;
      Step(p, line).value == Parsed(p.shapes[id := []], p.regions, Some(id))
  {
  }

  /** A header with content adds exactly one region and closes the open shape. */
  lemma RegionHeaderAdds(p: Parsed, line: string)
    requires line != "" && IsRegionHeader(line)
    ensures Step(p, line).Some? <==> RegionOf(SplitHeader(line).0, HeaderContent(line)).Some?
    ensures Step(p, line).Some? ==>
      var q := Step(p, line).value;
      q.shapes == p.shapes && q.current == None &&
      q.regions == p.regions + [RegionOf(SplitHeader(line).0, HeaderContent(line)).value]
  {
  }

  /** Lines that are neither blank, nor rows, nor headers, are ignored. */
  lemma OtherLineIgnored(p: Parsed, line: string)
    requires !IsShapeRow(line) && ':' !in line
    ensures Step(p, line) == Some(p)
  {
  }

  /** The number of region headers among `lines`. */
  function RegionLines(lines: seq<string>): nat
  {
    if lines == [] then 0
    else RegionLines(lines[..|lines| - 1]) + (if IsRegionHeader(lines[|lines| - 1]) then 1 else 0)
  }

  /** One region per region header: a successful parse yields exactly that many regions. */
  lemma {:induction false} OneRegionPerHeader(lines: seq<string>)
    requires ParseAll(lines).Some?
    ensures |ParseAll(lines).value.regions| == RegionLines(lines)
  {
    if lines != [] {
      var init, last := lines[..|lines| - 1], lines[|lines| - 1];
      OneRegionPerHeader(init);
      var p := ParseAll(init).value;
      if last != "" && IsShapeRow(last) {
      } else if last != "" && ':' in last {
        if IsRegionHeader(last) {
          RegionHeaderAdds(p, last);
        }
      }
    }
  }

  /** The regions whose area holds nine cells per present. */
  predicate Fits(region: Region)
  {
    Sum(region.presentCounts) * AssumedShapeArea <= region.Area()
  }

  /** `solve_part_one`: the number of regions that pass the area test. */
  method SolvePartOne(regions: seq<Region>) returns (validRegionsCount: nat)
    ensures validRegionsCount == CountIf(regions, Fits)
    ensures validRegionsCount <= |regions|
  {
    validRegionsCount := 0;
    var k := 0;
    while k < |regions|
      invariant 0 <= k <= |regions|
      invariant validRegionsCount == CountIf(regions[..k], Fits)
    {
      var region := regions[k];
      var totalPresents := Sum(region.presentCounts);
      var requiredArea := totalPresents * AssumedShapeArea;
      assert regions[..k + 1][..k] == regions[..k];
      if requiredArea <= region.Area() {
        validRegionsCount := validRegionsCount + 1;
      }
      k := k + 1;
    }
    assert regions[..k] == regions;
  }

  /** A region with no presents always fits when its sides are not negative. */
  lemma EmptyRegionFits(w: nat, h: nat, counts: seq<int>)
    requires forall i :: 0 <= i < |counts| ==> counts[i] == 0
    ensures Fits(Region(w, h, counts))
  {
    SumZeros(counts);
  }

  lemma {:induction false} SumZeros(s: seq<int>)
    requires forall i :: 0 <= i < |s| ==> s[i] == 0
    ensures Sum(s) == 0
  {
    if s != [] {
      SumZeros(s[..|s| - 1]);
    }
  }

  /** `solve_part_two`: a placeholder. */
  function SolvePartTwo(): (answer: int)
    ensures answer == 0
  {
    0
  }
}
