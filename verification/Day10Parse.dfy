/**
 * Day 10, input: one machine per line, `[.##.] (0,2) (1) ... {3,5,4}`.  The
 * bracketed diagram becomes the set of lights to switch on, each parenthesised
 * button the set of lights it toggles (part 1) and a vector counting how often
 * it bumps each joltage counter (part 2); the braced list is the joltage
 * target.  A bit mask is modelled as the set of its one-bit positions.
 */
module Day10Parse {
  import opened Base
  import opened Text

  /** Part 1 data: the lights to reach and the lights each button toggles. */
  datatype Machine = Machine(target: set<nat>, buttons: seq<set<nat>>)

  /** Part 2 data: the joltage target and each button's counter increments. */
  datatype Counters = Counters(joltage: seq<int>, vectors: seq<seq<int>>)

  /** The positions of `#` in the diagram. */
  function Lit(diagram: string): set<nat>
  {
    set i: nat | i < |diagram| && diagram[i] == '#'
  }

  /** The loop that ORs `1 << i` into the state for every `#`. */
  method TargetMask(diagram: string) returns (mask: set<nat>)
    ensures forall i: nat :: i in mask <==> i < |diagram| && diagram[i] == '#'
    ensures mask == Lit(diagram)
  {
    mask := {};
    var i := 0;
    while i < |diagram|
      invariant 0 <= i <= |diagram|
      invariant forall k: nat :: k in mask <==> k < i && diagram[k] == '#'
    {
      if diagram[i] == '#' {
        mask := mask + {i};
      }
      i := i + 1;
    }
  }

  /** `list(map(int, s.split(",")))`; `None` where some `int` raises ValueError. */
  function ParseInts(s: string): (r: Option<seq<int>>)
    ensures r.Some? ==> |r.value| >= 1
  {
    IntsOf(Split(s, ','))
  }

  /** The integers of all fields, in order; `None` exactly when some field is not one. */
  function IntsOf(fields: seq<string>): (r: Option<seq<int>>)
    ensures r.Some? ==> |r.value| == |fields|
    ensures r.Some? ==> forall k :: 0 <= k < |fields| ==> ParseInt(fields[k]) == Some(r.value[k])
    ensures r.None? <==> exists k :: 0 <= k < |fields| && ParseInt(fields[k]).None?
  {
    if fields == [] then Some([])
    else match (IntsOf(fields[..|fields| - 1]), ParseInt(fields[|fields| - 1]))
      case (Some(init), Some(v)) => Some(init + [v])
      case (None, _) =>
        var k :| 0 <= k < |fields| - 1 && ParseInt(fields[..|fields| - 1][k]).None?;
        assert ParseInt(fields[k]).None?;
        None
      case (_, None) => None
  }

  /** A button's mask, `None` where a negative position makes `1 << pos` raise ValueError. */
  function MaskOf(button: seq<int>): Option<set<nat>>
  {
    if exists k :: 0 <= k < |button| && button[k] < 0 then None
    else Some(set p: nat | p in button)
  }

  /** The loop that ORs `1 << pos` into the mask for every listed position. */
  method ButtonMask(button: seq<int>) returns (mask: Option<set<nat>>)
    ensures mask.None? <==> exists k :: 0 <= k < |button| && button[k] < 0
    ensures mask.Some? ==> forall p: nat :: p in mask.value <==> p in button
    ensures mask == MaskOf(button)
  {
    var bits: set<nat> := {};
    var k := 0;
    while k < |button|
      invariant 0 <= k <= |button|
      invariant forall j :: 0 <= j < k ==> button[j] >= 0
      invariant forall p: nat :: p in bits <==> p in button[..k]
    {
      var pos := button[k];
      if pos < 0 {
        mask := None;
        return;
      }
      bits := bits + {pos};
      k := k + 1;
      assert button[..k] == button[..k - 1] + [pos];
    }
    assert button[..k] == button;
    assert bits == set p: nat | p in button;
    mask := Some(bits);
  }

  /** Python `max` of a non-empty list. */
  function Max(s: seq<int>): (m: int)
    requires |s| > 0
    ensures m in s && forall k :: 0 <= k < |s| ==> s[k] <= m
  {
    if |s| == 1 then s[0]
    else
      var m := Max(s[..|s| - 1]);
      assert s[..|s| - 1][0] == s[0];
      if s[|s| - 1] > m then s[|s| - 1] else m
  }

  /** A button's counter increments: one slot up to its largest position, holding how often each position is listed. */
  function VectorOf(button: seq<int>): (v: seq<int>)
    requires |button| > 0 && forall k :: 0 <= k < |button| ==> button[k] >= 0
  {
    seq(Max(button) + 1, p => multiset(button)[p])
  }

  /** `vec = [0] * (max(btn) + 1)` then `vec[pos] += 1` for every listed position. */
  method CounterVector(button: seq<int>) returns (vec: seq<int>)
    requires |button| > 0 && forall k :: 0 <= k < |button| ==> button[k] >= 0
    ensures |vec| == Max(button) + 1
    ensures forall p :: 0 <= p < |vec| ==> vec[p] == multiset(button)[p]
    ensures vec == VectorOf(button)
  {
    var vecLen := Max(button) + 1;
    vec := seq(vecLen, _ => 0);
    var k := 0;
    while k < |button|
      invariant 0 <= k <= |button| && |vec| == vecLen
      invariant forall p :: 0 <= p < vecLen ==> vec[p] == multiset(button[..k])[p]
    {
      var pos := button[k];
      vec := vec[pos := vec[pos] + 1];
      k := k + 1;
      assert button[..k] == button[..k - 1] + [pos];
    }
    assert button[..k] == button;
  }

  /** One button, `list(map(int, b.strip("()").split(",")))`. */
  function ButtonOf(token: string): (r: Option<seq<int>>)
    ensures r.Some? ==> |r.value| >= 1
  {
    ParseInts(StripChars(token, {'(', ')'}))
  }

  /** Every item parsed, in order, or `None` as soon as one of them fails. */
  function Collect<T>(items: seq<Option<T>>): (r: Option<seq<T>>)
    ensures r.Some? <==> forall k :: 0 <= k < |items| ==> items[k].Some?
    ensures r.Some? ==> |r.value| == |items| && forall k :: 0 <= k < |items| ==> items[k] == Some(r.value[k])
  {
    if items == [] then Some([])
    else
      var init := items[..|items| - 1];
      assert forall k :: 0 <= k < |init| ==> init[k] == items[k];
      match (Collect(init), items[|items| - 1])
      case (Some(vs), Some(v)) => Some(vs + [v])
      case _ => None
  }

  /** The buttons of a row, in order; `None` if any of them raises. */
  function ButtonsOf(tokens: seq<string>): (r: Option<seq<seq<int>>>)
    ensures r.Some? ==> |r.value| == |tokens|
    ensures r.Some? ==> forall k :: 0 <= k < |tokens| ==> ButtonOf(tokens[k]) == Some(r.value[k])
  {
    Collect(seq(|tokens|, k requires 0 <= k < |tokens| => ButtonOf(tokens[k])))
  }

  /** The masks of all buttons, `None` if any has a negative position. */
  function MasksOf(buttons: seq<seq<int>>): (r: Option<seq<set<nat>>>)
    ensures r.Some? ==> |r.value| == |buttons|
    ensures r.Some? <==> forall k :: 0 <= k < |buttons| ==> MaskOf(buttons[k]).Some?
    ensures r.Some? ==> forall k :: 0 <= k < |buttons| ==> MaskOf(buttons[k]) == Some(r.value[k])
  {
    if buttons == [] then Some([])
    else match (MasksOf(buttons[..|buttons| - 1]), MaskOf(buttons[|buttons| - 1]))
      case (Some(init), Some(m)) => Some(init + [m])
      case (None, _) =>
        var k :| 0 <= k < |buttons| - 1 && MaskOf(buttons[..|buttons| - 1][k]).None?;
        assert MaskOf(buttons[k]).None?;
        None
      case (_, None) => None
  }

  /** Buttons that list at least one position, none of them negative: the ones a vector can be built for. */
  predicate Listed(raw: seq<seq<int>>)
  {
    forall k :: 0 <= k < |raw| ==> |raw[k]| > 0 && forall j :: 0 <= j < |raw[k]| ==> raw[k][j] >= 0
  }

  /** The counter vectors of all buttons, in order. */
  function VectorsOf(raw: seq<seq<int>>): (vs: seq<seq<int>>)
    requires Listed(raw)
  {
    seq(|raw|, k requires 0 <= k < |raw| => VectorOf(raw[k]))
  }

  /** The two views of the buttons agree: a button toggles a light exactly when it bumps that counter. */
  lemma SameButtons(raw: seq<seq<int>>, masks: seq<set<nat>>)
    requires Listed(raw) && MasksOf(raw) == Some(masks)
    ensures |masks| == |VectorsOf(raw)| == |raw|
    ensures forall k, p: nat :: 0 <= k < |raw| ==> (p in masks[k] <==> p < |VectorsOf(raw)[k]| && VectorsOf(raw)[k][p] > 0)
  {
    forall k, p: nat | 0 <= k < |raw|
      ensures p in masks[k] <==> p < |VectorsOf(raw)[k]| && VectorsOf(raw)[k][p] > 0
    {
      var b := raw[k];
      assert MaskOf(b) == Some(masks[k]);
      if p in b {
        assert p <= Max(b);
      }
    }
  }

  /** Buttons that parsed to non-empty lists and to masks list no negative position. */
  lemma MasksListed(raw: seq<seq<int>>)
    requires MasksOf(raw).Some? && forall k :: 0 <= k < |raw| ==> |raw[k]| >= 1
    ensures Listed(raw)
  {
    forall k | 0 <= k < |raw|
      ensures forall j :: 0 <= j < |raw[k]| ==> raw[k][j] >= 0
    {
      assert MaskOf(raw[k]).Some?;
    }
  }

  /** The buttons of a row sit between the diagram and the joltage list (`parts[1:-1]`). */
  function Inner(parts: seq<string>): seq<string>
  {
    if |parts| >= 2 then parts[1..|parts| - 1] else []
  }

  /** One input row, split into words: the two machines, or `None` where parsing raises ValueError. */
  function RowOf(parts: seq<string>): Option<(Machine, Counters)>
    requires parts != []
  {
    match ButtonsOf(Inner(parts))
    case None => None
    case Some(raw) =>
      match MasksOf(raw)
      case None => None
      case Some(masks) =>
        match ParseInts(StripChars(parts[|parts| - 1], {'{', '}'}))
        case None => None
        case Some(joltage) =>
          MasksListed(raw);
          Some((Machine(Lit(StripChars(parts[0], {'[', ']'})), masks), Counters(joltage, VectorsOf(raw))))
  }

  /** Rows with only whitespace are skipped. */
  predicate Blank(row: string)
  {
    forall i :: 0 <= i < |row| ==> IsSpace(row[i])
  }

  /** All machines of the input, in order; `None` if any row raises. */
  function ParseMachines(lines: seq<string>): Option<(seq<Machine>, seq<Counters>)>
  {
    if lines == [] then Some(([], []))
    else match ParseMachines(lines[..|lines| - 1])
      case None => None
      case Some((p1, p2)) =>
        var row := lines[|lines| - 1];
        if Blank(row) then Some((p1, p2))
        else
          WordsEmpty(row);
          match RowOf(Words(row))
          case None => None
          case Some((m, c)) => Some((p1 + [m], p2 + [c]))
  }

  /** One parsed machine per non-blank row. */
  function NonBlank(lines: seq<string>): nat
  {
    if lines == [] then 0 else NonBlank(lines[..|lines| - 1]) + (if Blank(lines[|lines| - 1]) then 0 else 1)
  }

  lemma {:induction false} OneMachinePerRow(lines: seq<string>)
    requires ParseMachines(lines).Some?
    ensures |ParseMachines(lines).value.0| == |ParseMachines(lines).value.1| == NonBlank(lines)
  {
    if lines != [] {
      OneMachinePerRow(lines[..|lines| - 1]);
    }
  }

  /** The two views of one row have the same buttons: a button toggles a light exactly when it bumps that counter. */
  ghost predicate Agree(m: Machine, c: Counters)
  {
    |m.buttons| == |c.vectors| &&
    forall k, p: nat :: 0 <= k < |m.buttons| ==> (p in m.buttons[k] <==> p < |c.vectors[k]| && c.vectors[k][p] > 0)
  }

  lemma RowAgrees(parts: seq<string>)
    requires parts != [] && RowOf(parts).Some?
    ensures Agree(RowOf(parts).value.0, RowOf(parts).value.1)
  {
    var raw := ButtonsOf(Inner(parts)).value;
    var masks := MasksOf(raw).value;
    MasksListed(raw);
    SameButtons(raw, masks);
  }

  /** Every machine of a successful parse has the same buttons in both views. */
  lemma {:induction false} MachinesAgree(lines: seq<string>)
    requires ParseMachines(lines).Some?
    ensures var (p1, p2) := ParseMachines(lines).value;
      |p1| == |p2| && forall m :: 0 <= m < |p1| ==> Agree(p1[m], p2[m])
  {
    if lines != [] {
      var init, row := lines[..|lines| - 1], lines[|lines| - 1];
      MachinesAgree(init);
      var (p1, p2) := ParseMachines(init).value;
      if !Blank(row) {
        WordsEmpty(row);
        var parts := Words(row);
        RowAgrees(parts);
        var (m, c) := RowOf(parts).value;
        var (q1, q2) := ParseMachines(lines).value;
        assert q1 == p1 + [m] && q2 == p2 + [c];
        forall i | 0 <= i < |q1|
          ensures Agree(q1[i], q2[i])
        {
          if i < |p1| {
            assert q1[i] == p1[i] && q2[i] == p2[i];
          }
        }
      }
    }
  }

  /** The body of the row loop for a row with words: parse the diagram, the buttons and the joltage list. */
  method ParseRow(parts: seq<string>) returns (result: Option<(Machine, Counters)>)
    requires parts != []
    ensures result == RowOf(parts)
  {
    var initialState := TargetMask(StripChars(parts[0], {'[', ']'}));
    var buttonsRaw := ButtonsOf(Inner(parts));
    if buttonsRaw.None? {
      return None;
    }
    var raw := buttonsRaw.value;
    var buttonMasks := ButtonMasks(raw);
    if buttonMasks.None? {
      return None;
    }
    var joltageTarget := ParseInts(StripChars(parts[|parts| - 1], {'{', '}'}));
    if joltageTarget.None? {
      return None;
    }
    MasksListed(raw);
    var buttonVectors := ButtonVectors(raw);
    result := Some((Machine(initialState, buttonMasks.value), Counters(joltageTarget.value, buttonVectors)));
  }

  /** The loop building `button_masks`. */
  method ButtonMasks(raw: seq<seq<int>>) returns (masks: Option<seq<set<nat>>>)
    ensures masks == MasksOf(raw)
  {
    var buttonMasks: seq<set<nat>> := [];
    var b := 0;
    while b < |raw|
      invariant 0 <= b <= |raw|
      invariant MasksOf(raw[..b]) == Some(buttonMasks)
    {
      assert raw[..b + 1][..b] == raw[..b];
      var mask := ButtonMask(raw[b]);
      if mask.None? {
        assert MasksOf(raw[..b + 1]).None?;
        MasksStop(raw, b + 1);
        return None;
      }
      buttonMasks := buttonMasks + [mask.value];
      b := b + 1;
    }
    assert raw[..b] == raw;
    return Some(buttonMasks);
  }

  /** The loop building `button_vectors`. */
  method ButtonVectors(raw: seq<seq<int>>) returns (vectors: seq<seq<int>>)
    requires Listed(raw)
    ensures |vectors| == |raw|
    ensures forall k :: 0 <= k < |raw| ==> vectors[k] == VectorOf(raw[k])
    ensures vectors == VectorsOf(raw)
  {
    vectors := [];
    var b := 0;
    while b < |raw|
      invariant 0 <= b <= |raw| && |vectors| == b
      invariant forall j :: 0 <= j < b ==> vectors[j] == VectorOf(raw[j])
    {
      var vec := CounterVector(raw[b]);
      vectors := vectors + [vec];
      b := b + 1;
    }
  }

  /** `get_machine_data` after the file is read and split into lines: the row loop. */
  method GetMachineData(lines: seq<string>) returns (result: Option<(seq<Machine>, seq<Counters>)>)
    ensures result == ParseMachines(lines)
  {
    var machinesP1: seq<Machine> := [];
    var machinesP2: seq<Counters> := [];
    var k := 0;
    while k < |lines|
      invariant 0 <= k <= |lines|
      invariant ParseMachines(lines[..k]) == Some((machinesP1, machinesP2))
    {
      var row := lines[k];
      assert lines[..k + 1][..k] == lines[..k];
      StripBlank(row);
      if Strip(row) == "" {
        k := k + 1;
        continue;
      }
      WordsEmpty(row);
      var machines := ParseRow(Words(row));
      if machines.None? {
        ParseMachinesStops(lines, k + 1);
        return None;
      }
      machinesP1 := machinesP1 + [machines.value.0];
      machinesP2 := machinesP2 + [machines.value.1];
      k := k + 1;
    }
    assert lines[..k] == lines;
    return Some((machinesP1, machinesP2));
  }

  lemma {:induction false} MasksStop(raw: seq<seq<int>>, b: nat)
    requires b <= |raw| && MasksOf(raw[..b]).None?
    ensures MasksOf(raw).None?
  {
    var k :| 0 <= k < b && MaskOf(raw[..b][k]).None?;
    assert raw[k] == raw[..b][k];
  }

  /** Once a row raises, the whole parse does. */
  lemma {:induction false} ParseMachinesStops(lines: seq<string>, k: nat)
    requires k <= |lines| && ParseMachines(lines[..k]).None?
    ensures ParseMachines(lines).None?
    decreases |lines| - k
  {
    if k < |lines| {
      assert lines[..k + 1][..k] == lines[..k];
      ParseMachinesStops(lines, k + 1);
    } else {
      assert lines[..k] == lines;
    }
  }
}
