/**
 * Day 11, the two answers: `part1` enumerates the routes from "you" to "out"
 * with a queue; `part2` combines three walk counts of the inverted graph.
 */
module Day11Parts {
  import opened Base
  import opened Day11Graph
  import opened Day11Paths

  /** `connections[current]` when present, else nothing to extend with. */
  function Targets(connections: map<Node, seq<Node>>, v: Node): seq<Node>
  {
    if v in connections then connections[v] else []
  }

  /**
   * The routes of at most `k` connections from `v` that end on their first
   * arrival at "out"; a target listed twice in a row counts twice.
   */
  function Arrivals(connections: map<Node, seq<Node>>, v: Node, k: nat): nat
    decreases k, 0, 0
  {
    if v == "out" then 1
    else if k == 0 then 0
    else ListArrivals(connections, Targets(connections, v), k - 1)
  }

  function ListArrivals(connections: map<Node, seq<Node>>, ws: seq<Node>, k: nat): nat
    decreases k, 1, |ws|
  {
    if ws == [] then 0 else Arrivals(connections, ws[0], k) + ListArrivals(connections, ws[1..], k)
  }

  /** The depths of `n` nodes queued at the same level. */
  function Level(n: nat, d: nat): seq<nat>
  {
    seq(n, _ => d)
  }

  /** What the queued nodes, each at its depth, still contribute within `K` connections from "you". */
  function Frontier(connections: map<Node, seq<Node>>, queue: seq<Node>, depths: seq<nat>, K: nat): nat
    requires |queue| == |depths| && forall i :: 0 <= i < |depths| ==> depths[i] <= K
  {
    if queue == [] then 0
    else Arrivals(connections, queue[0], K - depths[0]) + Frontier(connections, queue[1..], depths[1..], K)
  }

  lemma {:induction false} FrontierAppend(connections: map<Node, seq<Node>>, q1: seq<Node>, d1: seq<nat>, q2: seq<Node>, d2: seq<nat>, K: nat)
    requires |q1| == |d1| && forall i :: 0 <= i < |d1| ==> d1[i] <= K
    requires |q2| == |d2| && forall i :: 0 <= i < |d2| ==> d2[i] <= K
    ensures Frontier(connections, q1 + q2, d1 + d2, K) == Frontier(connections, q1, d1, K) + Frontier(connections, q2, d2, K)
  {
    if q1 != [] {
      assert (q1 + q2)[1..] == q1[1..] + q2;
      assert (d1 + d2)[1..] == d1[1..] + d2;
      FrontierAppend(connections, q1[1..], d1[1..], q2, d2, K);
    } else {
      assert q1 + q2 == q2 && d1 + d2 == d2;
    }
  }

  /** The targets of one node, all one level deeper, contribute its arrivals. */
  lemma {:induction false} FrontierLevel(connections: map<Node, seq<Node>>, ws: seq<Node>, d: nat, K: nat)
    requires d < K
    ensures Frontier(connections, ws, Level(|ws|, d + 1), K) == ListArrivals(connections, ws, K - d - 1)
  {
    if ws != [] {
      assert Level(|ws|, d + 1)[1..] == Level(|ws| - 1, d + 1);
      FrontierLevel(connections, ws[1..], d, K);
    }
  }

  /** Taking the head of the queue: it arrives, has no targets, or is replaced by its targets one level deeper. */
  lemma PopStep(connections: map<Node, seq<Node>>, queue: seq<Node>, depths: seq<nat>, K: nat)
    requires queue != [] && |queue| == |depths| && forall i :: 0 <= i < |depths| ==> depths[i] <= K
    requires queue[0] != "out" ==> queue[0] in connections ==> depths[0] < K
    ensures queue[0] == "out" ==>
      Frontier(connections, queue, depths, K) == 1 + Frontier(connections, queue[1..], depths[1..], K)
    ensures queue[0] != "out" ==>
      Frontier(connections, queue, depths, K) ==
        Frontier(connections, queue[1..] + Targets(connections, queue[0]),
                 depths[1..] + Level(|Targets(connections, queue[0])|, depths[0] + 1), K)
  {
    var ws := Targets(connections, queue[0]);
    var level := Level(|ws|, depths[0] + 1);
    assert Frontier(connections, queue, depths, K) ==
      Arrivals(connections, queue[0], K - depths[0]) + Frontier(connections, queue[1..], depths[1..], K);
    if queue[0] != "out" {
      if queue[0] in connections {
        assert Arrivals(connections, queue[0], K - depths[0]) == ListArrivals(connections, ws, K - depths[0] - 1);
        FrontierLevel(connections, ws, depths[0], K);
      } else {
        assert Arrivals(connections, queue[0], K - depths[0]) == 0;
        assert ws == [] && level == [];
        assert queue[1..] + ws == queue[1..] && depths[1..] + level == depths[1..];
      }
      FrontierAppend(connections, queue[1..], depths[1..], ws, level, K);
    }
  }

  /** The invariant of the queue loop: the count so far plus what the queue still holds is the answer. */
  ghost predicate QueueState(connections: map<Node, seq<Node>>, queue: seq<Node>, depths: seq<nat>, bound: nat, total: nat)
  {
    |queue| == |depths| && (forall i :: 0 <= i < |depths| ==> depths[i] <= bound) &&
    forall K :: K >= bound ==> total + Frontier(connections, queue, depths, K) == Arrivals(connections, "you", K)
  }

  /** Popping "out" moves one route from the queue to the count. */
  lemma ArriveKeeps(connections: map<Node, seq<Node>>, queue: seq<Node>, depths: seq<nat>, bound: nat, total: nat)
    requires queue != [] && queue[0] == "out" && QueueState(connections, queue, depths, bound, total)
    ensures QueueState(connections, queue[1..], depths[1..], bound, total + 1)
  {
    forall K | K >= bound
      ensures total + 1 + Frontier(connections, queue[1..], depths[1..], K) == Arrivals(connections, "you", K)
    {
      PopStep(connections, queue, depths, K);
    }
  }

  /** Popping any other node replaces it by its targets, one level deeper. */
  lemma ExpandKeeps(connections: map<Node, seq<Node>>, queue: seq<Node>, depths: seq<nat>, bound: nat, bound': nat, total: nat)
    requires queue != [] && queue[0] != "out" && QueueState(connections, queue, depths, bound, total)
    requires bound <= bound' && (queue[0] in connections ==> depths[0] + 1 <= bound')
    ensures QueueState(connections, queue[1..] + Targets(connections, queue[0]),
                       depths[1..] + Level(|Targets(connections, queue[0])|, depths[0] + 1), bound', total)
  {
    var ws := Targets(connections, queue[0]);
    var q', d' := queue[1..] + ws, depths[1..] + Level(|ws|, depths[0] + 1);
    forall K | K >= bound'
      ensures total + Frontier(connections, q', d', K) == Arrivals(connections, "you", K)
    {
      PopStep(connections, queue, depths, K);
    }
  }

  /** One pass of the queue loop: `popleft`, then count an arrival or `extend` with the targets. */
  method Pop(connections: map<Node, seq<Node>>, queue: seq<Node>, total: nat, ghost depths: seq<nat>, ghost bound: nat)
    returns (queue': seq<Node>, total': nat, ghost depths': seq<nat>, ghost bound': nat)
    requires queue != [] && QueueState(connections, queue, depths, bound, total)
    ensures queue[0] == "out" ==> queue' == queue[1..] && total' == total + 1
    ensures queue[0] != "out" ==> queue' == queue[1..] + Targets(connections, queue[0]) && total' == total
    ensures QueueState(connections, queue', depths', bound', total')
    ensures bound <= bound' <= bound + 1
  {
    var current := queue[0];
    ghost var d := depths[0];
    queue', total', depths', bound' := queue[1..], total, depths[1..], bound;
    if current == "out" {
      total' := total + 1;
      ArriveKeeps(connections, queue, depths, bound, total);
      return;
    }
    if current in connections {
      var ws := connections[current];
      queue' := queue' + ws;
      depths' := depths' + Level(|ws|, d + 1);
      if bound' < d + 1 {
        bound' := d + 1;
      }
    } else {
      assert queue' + [] == queue' && depths' + [] == depths';
    }
    assert queue' == queue[1..] + Targets(connections, current);
    assert depths' == depths[1..] + Level(|Targets(connections, current)|, d + 1);
    ExpandKeeps(connections, queue, depths, bound, bound', total);
  }

  /**
   * `part1`: pop the queue's head; "out" counts one route, any other node is
   * replaced by its targets.  With no cycle the queue empties; `fuel` bounds
   * the number of pops, and running out of it gives `None`.  The count is
   * the number of routes from "you" that end on reaching "out".
   */
  method CountRoutes(connections: map<Node, seq<Node>>, fuel: nat) returns (count: Option<nat>, ghost bound: nat)
    ensures bound <= fuel
    ensures count.Some? ==> forall K :: K >= bound ==> Arrivals(connections, "you", K) == count.value
    ensures count.Some? ==> Arrivals(connections, "you", fuel) == count.value
  {
    var total := 0;
    var queue := ["you"];
    ghost var depths: seq<nat> := [0];
    bound := 0;
    var steps := 0;
    while queue != []
      invariant QueueState(connections, queue, depths, bound, total)
      invariant bound <= steps <= fuel
      decreases fuel - steps
    {
      if steps == fuel {
        return None, bound;
      }
      steps := steps + 1;
      queue, total, depths, bound := Pop(connections, queue, total, depths, bound);
    }
    return Some(total), bound;
  }

  /** `part1`: the connections of `parse_graph`, then the queue. */
  method PartOne(lines: seq<Line>, fuel: nat) returns (connections: map<Node, seq<Node>>, count: Option<nat>, ghost bound: nat)
    ensures forall s :: s in connections <==> exists i :: 0 <= i < |lines| && lines[i].source == s
    ensures forall i :: 0 <= i < |lines| && (forall j :: i < j < |lines| ==> lines[j].source != lines[i].source) ==>
      connections[lines[i].source] == lines[i].targets
    ensures bound <= fuel
    ensures count.Some? ==> forall K :: K >= bound ==> Arrivals(connections, "you", K) == count.value
    ensures count.Some? ==> Arrivals(connections, "you", fuel) == count.value
  {
    connections := ParseGraph(lines);
    count, bound := CountRoutes(connections, fuel);
  }

  /** A positive walk count means a walk in `g` from the target to the device. */
  lemma {:induction false} WalksReach(g: Graph, t: Node, v: Node, k: nat)
    requires Walks(g, t, v, k) > 0
    ensures Connected(g, t, v)
    decreases k, 0, 0
  {
    if v == t {
      assert IsPath(g, [t]);
    } else {
      ChildReach(g, t, v, k - 1, |g.keys|);
    }
  }

  lemma {:induction false} ChildReach(g: Graph, t: Node, v: Node, k: nat, n: nat)
    requires n <= |g.keys| && ChildWalks(g, t, v, k, n) > 0
    ensures Connected(g, t, v)
    decreases k, 1, n
  {
    var c := g.keys[n - 1];
    if v in Adj(g, c) && Walks(g, t, c, k) > 0 {
      WalksReach(g, t, c, k);
      var p :| |p| >= 1 && IsPath(g, p) && p[0] == t && p[|p| - 1] == c;
      assert IsPath(g, p + [v]);
    } else {
      ChildReach(g, t, v, k, n - 1);
    }
  }

  lemma JoinPaths(g: Graph, a: Node, b: Node)
    requires Connected(g, a, b) && Connected(g, b, a) && a != b
    ensures !Acyclic(g)
  {
    var p :| |p| >= 1 && IsPath(g, p) && p[0] == a && p[|p| - 1] == b;
    var q :| |q| >= 1 && IsPath(g, q) && q[0] == b && q[|q| - 1] == a;
    var r := p + q[1..];
    assert |q| >= 2;
    forall i | 0 <= i < |r| - 1
      ensures r[i + 1] in Adj(g, r[i])
    {
      if i < |p| - 1 {
        assert r[i] == p[i] && r[i + 1] == p[i + 1];
      } else {
        assert r[i] == q[i - |p| + 1] && r[i + 1] == q[i - |p| + 2];
      }
    }
    assert IsPath(g, r) && |r| >= 2 && r[0] == a && r[|r| - 1] == a;
  }

  /** With no cycle the target is counted once, by itself: `path_counts[target_node] = 1` is never added to. */
  lemma TargetOnce(g: Graph, t: Node, k: nat)
    requires Acyclic(g)
    ensures Walks(g, t, t, k) == 1
  {
    if k > 0 && ChildWalks(g, t, t, k - 1, |g.keys|) > 0 {
      var c := FeedingKey(g, t, t, k - 1, |g.keys|);
      WalksReach(g, t, c, k - 1);
      var p :| |p| >= 1 && IsPath(g, p) && p[0] == t && p[|p| - 1] == c;
      ClosingEdge(g, p);
    }
  }

  /** A key feeding `v` whose own walk count is positive. */
  lemma {:induction false} FeedingKey(g: Graph, t: Node, v: Node, k: nat, n: nat) returns (c: Node)
    requires n <= |g.keys| && ChildWalks(g, t, v, k, n) > 0
    ensures v in Adj(g, c) && Walks(g, t, c, k) > 0
  {
    if v in Adj(g, g.keys[n - 1]) && Walks(g, t, g.keys[n - 1], k) > 0 {
      c := g.keys[n - 1];
    } else {
      c := FeedingKey(g, t, v, k, n - 1);
    }
  }

  /**
   * With no cycle, routes cannot lead both from `a` to `b` and from `b` to
   * `a`: of the two orders `part2` adds up, at most one contributes.
   */
  lemma OneOrder(g: Graph, a: Node, b: Node, k: nat)
    requires Acyclic(g) && a != b
    ensures Walks(g, b, a, k) == 0 || Walks(g, a, b, k) == 0
  {
    if Walks(g, b, a, k) > 0 && Walks(g, a, b, k) > 0 {
      WalksReach(g, b, a, k);
      WalksReach(g, a, b, k);
      JoinPaths(g, a, b);
    }
  }

  /** The routes through `dac` then `fft`, or `fft` then `dac`, from the walk counts. */
  function Through(g: Graph, k: nat): nat
  {
    Walks(g, "dac", "svr", k) * Walks(g, "fft", "dac", k) * Walks(g, "out", "fft", k) +
    Walks(g, "fft", "svr", k) * Walks(g, "dac", "fft", k) * Walks(g, "out", "dac", k)
  }

  lemma ThroughCounts(g: Graph, toOut: map<Node, int>, toFft: map<Node, int>, toDac: map<Node, int>, K: nat)
    requires Get(toOut, "fft") == Walks(g, "out", "fft", K) && Get(toOut, "dac") == Walks(g, "out", "dac", K)
    requires Get(toFft, "svr") == Walks(g, "fft", "svr", K) && Get(toFft, "dac") == Walks(g, "fft", "dac", K)
    requires Get(toDac, "svr") == Walks(g, "dac", "svr", K) && Get(toDac, "fft") == Walks(g, "dac", "fft", K)
    ensures Get(toDac, "svr") * Get(toFft, "dac") * Get(toOut, "fft") + Get(toFft, "svr") * Get(toDac, "fft") * Get(toOut, "dac") == Through(g, K)
  {
  }

  /** Three complete count tables give the walk product for every bound past the number of nodes. */
  lemma Combined(g: Graph, toOut: map<Node, int>, toFft: map<Node, int>, toDac: map<Node, int>)
    requires forall v, K :: K >= |Nodes(g)| ==> Get(toOut, v) == Walks(g, "out", v, K)
    requires forall v, K :: K >= |Nodes(g)| ==> Get(toFft, v) == Walks(g, "fft", v, K)
    requires forall v, K :: K >= |Nodes(g)| ==> Get(toDac, v) == Walks(g, "dac", v, K)
    ensures forall K :: K >= |Nodes(g)| ==>
      Get(toDac, "svr") * Get(toFft, "dac") * Get(toOut, "fft") + Get(toFft, "svr") * Get(toDac, "fft") * Get(toOut, "dac") == Through(g, K)
  {
    forall K | K >= |Nodes(g)|
      ensures Get(toDac, "svr") * Get(toFft, "dac") * Get(toOut, "fft") + Get(toFft, "svr") * Get(toDac, "fft") * Get(toOut, "dac") == Through(g, K)
    {
      ThroughCounts(g, toOut, toFft, toDac, K);
    }
  }

  /**
   * `part2`: the three count tables on the inverted graph, each failing on a
   * cycle, and the sum of the two orders.  On an acyclic graph the answer is
   * defined, at most one order contributes, and it is the walk product.
   */
  method RoutesThrough(g: Graph) returns (total: Option<int>)
    requires Valid(g)
    ensures total.Some? <==> Acyclic(g)
    ensures total.Some? ==> forall K :: K >= |Nodes(g)| ==> total.value == Through(g, K)
    ensures total.Some? ==> forall K :: Walks(g, "fft", "dac", K) == 0 || Walks(g, "dac", "fft", K) == 0
  {
    var toOut := CountPaths(g, "out");
    var toFft := CountPaths(g, "fft");
    var toDac := CountPaths(g, "dac");
    if toOut.None? || toFft.None? || toDac.None? {
      return None;
    }
    var pathA := Get(toDac.value, "svr") * Get(toFft.value, "dac") * Get(toOut.value, "fft");
    var pathB := Get(toFft.value, "svr") * Get(toDac.value, "fft") * Get(toOut.value, "dac");
    total := Some(pathA + pathB);
    Combined(g, toOut.value, toFft.value, toDac.value);
    forall K | K >= 0
      ensures Walks(g, "fft", "dac", K) == 0 || Walks(g, "dac", "fft", K) == 0
    {
      OneOrder(g, "dac", "fft", K);
    }
  }

  /** `part2`: the inverted graph of `build_inverted_graph`, then the two orders. */
  method PartTwo(lines: seq<Line>) returns (g: Graph, total: Option<int>)
    ensures Valid(g)
    ensures forall c, p :: p in Adj(g, c) <==> exists i :: 0 <= i < |lines| && lines[i].source == p && c in lines[i].targets
    ensures total.Some? <==> Acyclic(g)
    ensures total.Some? ==> forall K :: K >= |Nodes(g)| ==> total.value == Through(g, K)
  {
    g := BuildInvertedGraph(lines);
    total := RoutesThrough(g);
  }
}
