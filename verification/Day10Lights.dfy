/**
 * Day 10, part 1: every machine starts with all lights off; a button toggles
 * the lights it lists.  The answer for a machine is the fewest presses that
 * leave exactly the target lights on, found by a breadth-first search over
 * light states (0 when the target cannot be reached).  A state is the set of
 * lights that are on, so a bitwise XOR is a symmetric difference.
 */
module Day10Lights {
  import opened Base
  import Day10Parse

  type State = set<nat>

  /** `state ^ mask`. */
  function Xor(a: State, b: State): State
  {
    (a - b) + (b - a)
  }

  /** A sequence of button presses, each naming a button. */
  predicate ValidPresses(buttons: seq<State>, presses: seq<nat>)
  {
    forall k :: 0 <= k < |presses| ==> presses[k] < |buttons|
  }

  /** The lights that are on after pressing `presses` in order, starting from all off. */
  function Apply(buttons: seq<State>, presses: seq<nat>): State
    requires ValidPresses(buttons, presses)
  {
    if presses == [] then {}
    else Xor(Apply(buttons, presses[..|presses| - 1]), buttons[presses[|presses| - 1]])
  }

  /** Toggling the same lights twice changes nothing. */
  lemma XorTwice(a: State, b: State)
    ensures Xor(Xor(a, b), b) == a
  {
  }

  /**
   * `s` is reachable with at most `k` presses: with fewer, or one press away
   * from a state reachable with fewer (the press undoes itself, so that state
   * is the toggle of `s`).
   */
  predicate Reached(buttons: seq<State>, k: nat, s: State)
  {
    if k == 0 then s == {}
    else (Reached(buttons, k - 1, s) ||
          exists i {:trigger Xor(s, buttons[i])} :: 0 <= i < |buttons| && Reached(buttons, k - 1, Xor(s, buttons[i])))
  }

  /** A press from a state reachable within `k` presses lands within `k + 1`. */
  lemma ReachedStep(buttons: seq<State>, k: nat, s: State, i: nat)
    requires i < |buttons| && Reached(buttons, k, s)
    ensures Reached(buttons, k + 1, Xor(s, buttons[i]))
  {
    XorTwice(s, buttons[i]);
  }

  lemma {:induction false} ReachMonotone(buttons: seq<State>, j: nat, k: nat, s: State)
    requires j <= k && Reached(buttons, j, s)
    ensures Reached(buttons, k, s)
    decreases k - j
  {
    if j < k {
      ReachMonotone(buttons, j + 1, k, s);
    }
  }

  /** A state reachable within `k` presses results from some sequence of at most `k` presses. */
  lemma {:induction false} ReachedHasPresses(buttons: seq<State>, k: nat, s: State)
    requires Reached(buttons, k, s)
    ensures exists presses :: ValidPresses(buttons, presses) && |presses| <= k && Apply(buttons, presses) == s
  {
    if k == 0 {
      assert ValidPresses(buttons, []) && Apply(buttons, []) == s;
    } else if Reached(buttons, k - 1, s) {
      ReachedHasPresses(buttons, k - 1, s);
    } else {
      var i: nat :| i < |buttons| && Reached(buttons, k - 1, Xor(s, buttons[i]));
      var t := Xor(s, buttons[i]);
      ReachedHasPresses(buttons, k - 1, t);
      var presses: seq<nat> :| ValidPresses(buttons, presses) && |presses| <= k - 1 && Apply(buttons, presses) == t;
      var longer := presses + [i];
      assert longer[..|longer| - 1] == presses;
      XorTwice(s, buttons[i]);
      assert ValidPresses(buttons, longer) && Apply(buttons, longer) == s;
    }
  }

  /** Reaching within `k` presses means exactly that some sequence of at most `k` presses leads there. */
  lemma ReachByPresses(buttons: seq<State>, k: nat, s: State)
    ensures Reached(buttons, k, s) <==>
      exists presses :: ValidPresses(buttons, presses) && |presses| <= k && Apply(buttons, presses) == s
  {
    if Reached(buttons, k, s) {
      ReachedHasPresses(buttons, k, s);
    }
    if exists presses :: ValidPresses(buttons, presses) && |presses| <= k && Apply(buttons, presses) == s {
      var presses :| ValidPresses(buttons, presses) && |presses| <= k && Apply(buttons, presses) == s;
      PressesReach(buttons, presses);
      ReachMonotone(buttons, |presses|, k, s);
    }
  }

  /** A sequence of `n` presses lands within `n` presses. */
  lemma {:induction false} PressesReach(buttons: seq<State>, presses: seq<nat>)
    requires ValidPresses(buttons, presses)
    ensures Reached(buttons, |presses|, Apply(buttons, presses))
  {
    if presses != [] {
      var init := presses[..|presses| - 1];
      PressesReach(buttons, init);
      ReachedStep(buttons, |init|, Apply(buttons, init), presses[|presses| - 1]);
    }
  }

  /** `s` is reachable in `d` presses and not in fewer. */
  ghost predicate Exact(buttons: seq<State>, s: State, d: nat)
  {
    Reached(buttons, d, s) && (d == 0 || !Reached(buttons, d - 1, s))
  }

  lemma {:induction false} ExactExists(buttons: seq<State>, s: State, k: nat)
    requires Reached(buttons, k, s)
    ensures exists d: nat :: Exact(buttons, s, d)
  {
    if k > 0 && Reached(buttons, k - 1, s) {
      ExactExists(buttons, s, k - 1);
    } else {
      assert Exact(buttons, s, k);
    }
  }

  lemma {:induction false} ExactUnique(buttons: seq<State>, s: State, d: nat, e: nat)
    requires Exact(buttons, s, d) && Exact(buttons, s, e)
    ensures d == e
  {
    if d < e {
      ReachMonotone(buttons, d, e - 1, s);
    } else if e < d {
      ReachMonotone(buttons, e, d - 1, s);
    }
  }

  /** The answer `solve_part1` should give: the fewest presses reaching `target`, or 0 if none do. */
  ghost function MinPresses(buttons: seq<State>, target: State): nat
  {
    if exists k: nat :: Reached(buttons, k, target) then
      var k: nat :| Reached(buttons, k, target);
      ExactExists(buttons, target, k);
      var d: nat :| Exact(buttons, target, d);
      d
    else 0
  }

  /** `target` results from some sequence of presses. */
  ghost predicate Reachable(buttons: seq<State>, target: State)
  {
    exists presses :: ValidPresses(buttons, presses) && Apply(buttons, presses) == target
  }

  /**
   * `MinPresses` is what its name says: some sequence of that many presses
   * reaches the target and none shorter does; an unreachable target gives 0.
   */
  lemma MinPressesFewest(buttons: seq<State>, target: State)
    ensures Reachable(buttons, target) ==>
      exists presses :: ValidPresses(buttons, presses) && Apply(buttons, presses) == target &&
        |presses| == MinPresses(buttons, target)
    ensures forall presses :: ValidPresses(buttons, presses) && Apply(buttons, presses) == target ==>
      MinPresses(buttons, target) <= |presses|
    ensures !Reachable(buttons, target) ==> MinPresses(buttons, target) == 0
    ensures target == {} ==> MinPresses(buttons, target) == 0
  {
    if exists k: nat :: Reached(buttons, k, target) {
      var k: nat :| Reached(buttons, k, target);
      ExactExists(buttons, target, k);
      var d := MinPresses(buttons, target);
      assert Exact(buttons, target, d);
      ReachByPresses(buttons, d, target);
      var presses :| ValidPresses(buttons, presses) && |presses| <= d && Apply(buttons, presses) == target;
      PressesReach(buttons, presses);
      if |presses| < d {
        ReachMonotone(buttons, |presses|, d - 1, target);
      }
      forall other | ValidPresses(buttons, other) && Apply(buttons, other) == target
        ensures d <= |other|
      {
        PressesReach(buttons, other);
        if |other| < d {
          ReachMonotone(buttons, |other|, d - 1, target);
        }
      }
      if target == {} {
        assert Exact(buttons, target, 0);
        ExactUnique(buttons, target, 0, d);
      }
    } else {
      forall presses | ValidPresses(buttons, presses)
        ensures Apply(buttons, presses) != target
      {
        PressesReach(buttons, presses);
      }
    }
  }

  /** Every light any button toggles. */
  function Lights(buttons: seq<State>): set<nat>
  {
    set i, p | 0 <= i < |buttons| && p in buttons[i] :: p
  }

  ghost function Pick(u: set<nat>): nat
    requires u != {}
  {
    var x :| x in u; x
  }

  /** All subsets of `u`. */
  ghost function PowerSet(u: set<nat>): set<State>
    decreases |u|
  {
    if u == {} then {{}}
    else
      var x := Pick(u);
      var smaller := PowerSet(u - {x});
      smaller + set s | s in smaller :: s + {x}
  }

  lemma {:induction false} InPowerSet(u: set<nat>, s: State)
    requires s <= u
    ensures s in PowerSet(u)
    decreases |u|
  {
    if u != {} {
      var x := Pick(u);
      var smaller := PowerSet(u - {x});
      InPowerSet(u - {x}, s - {x});
      assert PowerSet(u) == smaller + set t | t in smaller :: t + {x};
      if x in s {
        var r := s - {x};
        assert r + {x} == s;
        assert r + {x} in set t | t in smaller :: t + {x};
      } else {
        assert s - {x} == s;
      }
    }
  }

  /** Pressing any button from `s` leads into `visited`. */
  ghost predicate Closed(buttons: seq<State>, visited: set<State>, s: State)
  {
    forall i :: 0 <= i < |buttons| ==> Xor(s, buttons[i]) in visited
  }

  function States(queue: seq<(State, nat)>): set<State>
  {
    set k | 0 <= k < |queue| :: queue[k].0
  }

  /** Every queued entry is visited and carries its exact press count, at `level` or `level + 1`. */
  ghost predicate QueueExact(buttons: seq<State>, queue: seq<(State, nat)>, visited: set<State>, level: nat)
  {
    forall k :: 0 <= k < |queue| ==>
      queue[k].0 in visited && Exact(buttons, queue[k].0, queue[k].1) && level <= queue[k].1 <= level + 1
  }

  /** Press counts in the queue never decrease and no state is queued twice. */
  ghost predicate QueueOrdered(queue: seq<(State, nat)>)
  {
    forall j, k :: 0 <= j < k < |queue| ==> queue[j].1 <= queue[k].1 && queue[j].0 != queue[k].0
  }

  /** The visited states are all those within `level` presses and some within `level + 1`. */
  ghost predicate Layered(buttons: seq<State>, visited: set<State>, level: nat)
  {
    (forall s :: Reached(buttons, level, s) ==> s in visited) &&
    (forall s :: s in visited ==> Reached(buttons, level + 1, s))
  }

  /**
   * The visited states a level out are all still queued, and a state within
   * `level` presses is still queued or has all its neighbours visited.
   */
  ghost predicate Frontier(buttons: seq<State>, queue: seq<(State, nat)>, visited: set<State>, level: nat)
  {
    (forall s :: s in visited && !Reached(buttons, level, s) ==> s in States(queue)) &&
    (forall s {:trigger Closed(buttons, visited, s)} ::
      Reached(buttons, level, s) && s !in States(queue) ==> Closed(buttons, visited, s))
  }

  /** The search invariant, with `target` not yet popped. */
  ghost predicate Inv(buttons: seq<State>, target: State, queue: seq<(State, nat)>, visited: set<State>, level: nat)
  {
    (forall s :: s in visited ==> s <= Lights(buttons)) &&
    QueueExact(buttons, queue, visited, level) && QueueOrdered(queue) &&
    Layered(buttons, visited, level) && Frontier(buttons, queue, visited, level) &&
    (target in visited ==> target in States(queue))
  }

  lemma InvInit(buttons: seq<State>, target: State)
    requires target != {}
    ensures Inv(buttons, target, [({}, 0)], {{}}, 0)
  {
    var queue: seq<(State, nat)> := [({}, 0)];
    assert queue[0].0 in States(queue);
  }

  /** When the head of the queue is a level further out, the whole level has been expanded. */
  lemma Advance(buttons: seq<State>, target: State, queue: seq<(State, nat)>, visited: set<State>, level: nat)
    requires Inv(buttons, target, queue, visited, level)
    requires queue != [] && queue[0].1 == level + 1
    ensures Inv(buttons, target, queue, visited, level + 1)
  {
    forall s | Reached(buttons, level, s)
      ensures s in visited && Closed(buttons, visited, s)
    {
      assert Exact(buttons, queue[0].0, queue[0].1);
      assert s !in States(queue);
    }
    forall t | Reached(buttons, level + 1, t)
      ensures t in visited
    {
      if !Reached(buttons, level, t) {
        var i :| 0 <= i < |buttons| && Reached(buttons, level, Xor(t, buttons[i]));
        XorTwice(t, buttons[i]);
        assert Closed(buttons, visited, Xor(t, buttons[i]));
      }
    }
    forall t | t in visited
      ensures Reached(buttons, level + 2, t)
    {
      ReachMonotone(buttons, level + 1, level + 2, t);
    }
  }

  lemma LightsCover(buttons: seq<State>, i: nat)
    requires i < |buttons|
    ensures buttons[i] <= Lights(buttons)
  {
    forall p | p in buttons[i]
      ensures p in Lights(buttons)
    {
    }
  }

  lemma StatesPush(queue: seq<(State, nat)>, x: State, d: nat)
    ensures States(queue + [(x, d)]) == States(queue) + {x}
  {
    var queue' := queue + [(x, d)];
    assert queue'[|queue|].0 == x;
    forall t | t in States(queue)
      ensures t in States(queue')
    {
      var k :| 0 <= k < |queue| && queue[k].0 == t;
      assert queue'[k] == queue[k];
    }
  }

  lemma PushLayered(buttons: seq<State>, visited: set<State>, level: nat, s: State, i: nat)
    requires Layered(buttons, visited, level) && Reached(buttons, level, s) && i < |buttons|
    ensures Layered(buttons, visited + {Xor(s, buttons[i])}, level)
  {
    ReachedStep(buttons, level, s, i);
  }

  lemma PushFrontier(buttons: seq<State>, queue: seq<(State, nat)>, visited: set<State>, level: nat, x: State)
    requires Frontier(buttons, queue, visited, level)
    ensures Frontier(buttons, queue + [(x, level + 1)], visited + {x}, level)
  {
    var queue', visited' := queue + [(x, level + 1)], visited + {x};
    StatesPush(queue, x, level + 1);
    forall t | Reached(buttons, level, t) && t !in States(queue')
      ensures Closed(buttons, visited', t)
    {
      assert Closed(buttons, visited, t);
    }
  }

  lemma PushQueue(buttons: seq<State>, queue: seq<(State, nat)>, visited: set<State>, level: nat, i: nat)
    requires QueueExact(buttons, queue, visited, level) && QueueOrdered(queue)
    requires queue != [] && queue[0].1 == level && i < |buttons|
    requires Reached(buttons, level, queue[0].0) && forall t :: Reached(buttons, level, t) ==> t in visited
    requires Xor(queue[0].0, buttons[i]) !in visited
    ensures var x := Xor(queue[0].0, buttons[i]);
      QueueExact(buttons, queue + [(x, level + 1)], visited + {x}, level) && QueueOrdered(queue + [(x, level + 1)])
  {
    var x := Xor(queue[0].0, buttons[i]);
    var queue', visited' := queue + [(x, level + 1)], visited + {x};
    ReachedStep(buttons, level, queue[0].0, i);
    assert Exact(buttons, x, level + 1);
    forall k | 0 <= k < |queue'|
      ensures queue'[k].0 in visited' && Exact(buttons, queue'[k].0, queue'[k].1) && level <= queue'[k].1 <= level + 1
    {
      if k < |queue| {
        assert queue'[k] == queue[k];
      }
    }
    forall j, k | 0 <= j < k < |queue'|
      ensures queue'[j].1 <= queue'[k].1 && queue'[j].0 != queue'[k].0
    {
      if k < |queue| {
        assert queue'[j] == queue[j] && queue'[k] == queue[k];
      } else {
        assert queue'[j] == queue[j];
      }
    }
  }

  /** Queueing a state first found from the head `s` keeps the invariant. */
  lemma Push(buttons: seq<State>, target: State, queue: seq<(State, nat)>, visited: set<State>, level: nat, i: nat)
    requires Inv(buttons, target, queue, visited, level)
    requires queue != [] && queue[0].1 == level && i < |buttons|
    requires Xor(queue[0].0, buttons[i]) !in visited
    ensures var x := Xor(queue[0].0, buttons[i]);
      Inv(buttons, target, queue + [(x, level + 1)], visited + {x}, level)
  {
    var s := queue[0].0;
    var x := Xor(s, buttons[i]);
    assert Exact(buttons, s, level);
    LightsCover(buttons, i);
    PushLayered(buttons, visited, level, s, i);
    PushFrontier(buttons, queue, visited, level, x);
    PushQueue(buttons, queue, visited, level, i);
    StatesPush(queue, x, level + 1);
  }

  /** Once every neighbour of the head is visited, dropping it from the queue keeps the invariant. */
  lemma Pop(buttons: seq<State>, target: State, queue: seq<(State, nat)>, visited: set<State>, level: nat)
    requires Inv(buttons, target, queue, visited, level)
    requires queue != [] && queue[0].1 == level && queue[0].0 != target
    requires Closed(buttons, visited, queue[0].0)
    ensures Inv(buttons, target, queue[1..], visited, level)
  {
    var s := queue[0].0;
    var rest := queue[1..];
    assert Exact(buttons, s, level);
    forall t | t in States(queue) && t != s
      ensures t in States(rest)
    {
      var k :| 0 <= k < |queue| && queue[k].0 == t;
      assert rest[k - 1] == queue[k];
    }
  }

  /** One pass of the button loop: queue the state button `i` leads to from the head, unless it is visited. */
  method Visit(buttons: seq<State>, target: State, queue: seq<(State, nat)>, visited: set<State>, ghost level: nat, i: nat)
    returns (queue': seq<(State, nat)>, visited': set<State>)
    requires Inv(buttons, target, queue, visited, level)
    requires queue != [] && queue[0].1 == level && i < |buttons|
    ensures Inv(buttons, target, queue', visited', level)
    ensures queue' != [] && queue'[0] == queue[0]
    ensures visited' == visited + {Xor(queue[0].0, buttons[i])}
    ensures visited' == visited ==> queue' == queue
  {
    var (state, steps) := queue[0];
    var nextState := Xor(state, buttons[i]);
    queue', visited' := queue, visited;
    if nextState !in visited {
      Push(buttons, target, queue, visited, level, i);
      visited' := visited + {nextState};
      queue' := queue + [(nextState, steps + 1)];
    }
  }

  /** The loop over the buttons for the popped state `queue[0]`. */
  method Expand(buttons: seq<State>, target: State, queue: seq<(State, nat)>, visited: set<State>, ghost level: nat)
    returns (queue': seq<(State, nat)>, visited': set<State>)
    requires Inv(buttons, target, queue, visited, level)
    requires queue != [] && queue[0].1 == level && queue[0].0 != target
    ensures Inv(buttons, target, queue', visited', level)
    ensures visited <= visited' && (visited' == visited ==> |queue'| < |queue|)
  {
    var q := queue;
    visited' := visited;
    var i := 0;
    while i < |buttons|
      invariant 0 <= i <= |buttons|
      invariant Inv(buttons, target, q, visited', level)
      invariant q != [] && q[0] == queue[0]
      invariant visited <= visited' && (visited' == visited ==> q == queue)
      invariant forall j :: 0 <= j < i ==> Xor(queue[0].0, buttons[j]) in visited'
    {
      q, visited' := Visit(buttons, target, q, visited', level, i);
      i := i + 1;
    }
    Pop(buttons, target, q, visited', level);
    queue' := q[1..];
  }

  /**
   * With the queue empty the search has settled: the visited states are
   * exactly those within `level` presses, all closed, so no number of presses
   * reaches anything else.
   */
  lemma {:induction false} Settled(buttons: seq<State>, visited: set<State>, level: nat, k: nat, s: State)
    requires forall t :: Reached(buttons, level, t) ==> t in visited
    requires forall t :: t in visited ==> Reached(buttons, level, t)
    requires forall t {:trigger Closed(buttons, visited, t)} :: Reached(buttons, level, t) ==> Closed(buttons, visited, t)
    requires Reached(buttons, k, s)
    ensures s in visited
  {
    if k <= level {
      ReachMonotone(buttons, k, level, s);
    } else if Reached(buttons, k - 1, s) {
      Settled(buttons, visited, level, k - 1, s);
    } else {
      var i :| 0 <= i < |buttons| && Reached(buttons, k - 1, Xor(s, buttons[i]));
      var t := Xor(s, buttons[i]);
      Settled(buttons, visited, level, k - 1, t);
      assert Closed(buttons, visited, t);
      XorTwice(s, buttons[i]);
    }
  }

  lemma VisitedBounded(buttons: seq<State>, visited: set<State>)
    requires forall s :: s in visited ==> s <= Lights(buttons)
    ensures visited <= PowerSet(Lights(buttons))
  {
    forall s | s in visited
      ensures s in PowerSet(Lights(buttons))
    {
      InPowerSet(Lights(buttons), s);
    }
  }

  lemma FewerLeft(all: set<State>, visited: set<State>, visited': set<State>)
    requires visited <= visited' <= all && visited' != visited
    ensures |all - visited'| < |all - visited|
  {
    var x :| x in visited' && x !in visited;
    SubsetCard(all - visited', (all - visited) - {x});
  }

  /** `solve_part1`: breadth-first search from all lights off; the fewest presses reaching `target`, or 0. */
  method SolvePartOne(buttons: seq<State>, target: State) returns (steps: nat)
    ensures steps == MinPresses(buttons, target)
  {
    var queue: seq<(State, nat)> := [({}, 0)];
    var visited: set<State> := {{}};
    if target == {} {
      MinPressesFewest(buttons, target);
      return 0;
    }
    InvInit(buttons, target);
    ghost var level: nat := 0;
    ghost var all := PowerSet(Lights(buttons));
    while queue != []
      invariant Inv(buttons, target, queue, visited, level)
      decreases |all - visited|, |queue|
    {
      var (state, d) := queue[0];
      if d != level {
        Advance(buttons, target, queue, visited, level);
        level := level + 1;
      }
      if state == target {
        ghost var k: nat :| Reached(buttons, k, target);
        assert Exact(buttons, target, d);
        ExactExists(buttons, target, k);
        ghost var e :| Exact(buttons, target, e) && e == MinPresses(buttons, target);
        ExactUnique(buttons, target, d, e);
        return d;
      }
      ghost var before := visited;
      VisitedBounded(buttons, visited);
      queue, visited := Expand(buttons, target, queue, visited, level);
      VisitedBounded(buttons, visited);
      if visited != before {
        FewerLeft(all, before, visited);
      }
    }
    forall k: nat
      ensures !Reached(buttons, k, target)
    {
      if Reached(buttons, k, target) {
        Settled(buttons, visited, level, k, target);
      }
    }
    return 0;
  }

  /** The fewest presses for each machine, in order. */
  ghost function AllMinPresses(machines: seq<Day10Parse.Machine>): seq<int>
  {
    seq(|machines|, m requires 0 <= m < |machines| => MinPresses(machines[m].buttons, machines[m].target) as int)
  }

  /** `sum(map(solve_part1, p1_data))`, run one machine after another. */
  method PartOne(machines: seq<Day10Parse.Machine>) returns (total: int)
    ensures total == Sum(AllMinPresses(machines))
    ensures total >= 0
  {
    total := 0;
    var m := 0;
    while m < |machines|
      invariant 0 <= m <= |machines|
      invariant total == Sum(AllMinPresses(machines[..m]))
    {
      var steps := SolvePartOne(machines[m].buttons, machines[m].target);
      assert AllMinPresses(machines[..m + 1]) == AllMinPresses(machines[..m]) + [steps];
      SumAppend(AllMinPresses(machines[..m]), [steps]);
      total := total + steps;
      m := m + 1;
    }
    assert machines[..m] == machines;
    SumNonNegative(AllMinPresses(machines));
  }

  lemma {:induction false} SumNonNegative(s: seq<int>)
    requires forall k :: 0 <= k < |s| ==> s[k] >= 0
    ensures Sum(s) >= 0
  {
    if s != [] {
      SumNonNegative(s[..|s| - 1]);
    }
  }
}
