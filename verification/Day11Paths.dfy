/**
 * Day 11: counting routes through the device graph.  `count_paths_from_sources`
 * runs a dynamic programme over the topological order of the inverted graph;
 * `part1` enumerates routes with a queue; `part2` multiplies three counts.
 */
module Day11Paths {
  import opened Base
  import opened Day11Graph

  /** A `defaultdict(int)` read: a missing key reads as 0. */
  function Get(m: map<Node, int>, x: Node): int
  {
    if x in m then m[x] else 0
  }

  function Indicator(b: bool): nat
  {
    if b then 1 else 0
  }

  /**
   * The reference count, on the inverted graph `g` (an edge `c -> p` of `g`
   * is a connection `p -> c` of the device graph): the number of walks of at
   * most `k` connections that lead from `v` to `t`.
   */
  function Walks(g: Graph, t: Node, v: Node, k: nat): nat
    decreases k, 0, 0
  {
    Indicator(v == t) + if k == 0 then 0 else ChildWalks(g, t, v, k - 1, |g.keys|)
  }

  /** The walks of at most `k` connections to `t` that start at a device among the first `n` keys fed by `v`. */
  function ChildWalks(g: Graph, t: Node, v: Node, k: nat, n: nat): nat
    requires n <= |g.keys|
    decreases k, 1, n
  {
    if n == 0 then 0
    else ChildWalks(g, t, v, k, n - 1) + if v in Adj(g, g.keys[n - 1]) then Walks(g, t, g.keys[n - 1], k) else 0
  }

  /** What the nodes processed so far (`done`, with the count each had when processed) pushed into `x`. */
  ghost function Inflow(g: Graph, done: map<Node, int>, x: Node, n: nat): int
    requires n <= |g.keys|
  {
    if n == 0 then 0
    else Inflow(g, done, x, n - 1) + if g.keys[n - 1] in done && x in Adj(g, g.keys[n - 1]) then done[g.keys[n - 1]] else 0
  }

  lemma {:induction false} InflowEmpty(g: Graph, x: Node, n: nat)
    requires n <= |g.keys|
    ensures Inflow(g, map[], x, n) == 0
  {
    if n > 0 {
      InflowEmpty(g, x, n - 1);
    }
  }

  /** Processing one more node adds its count to each of its neighbours' inflow. */
  lemma {:induction false} InflowAdd(g: Graph, done: map<Node, int>, y: Node, c: int, x: Node, n: nat)
    requires n <= |g.keys| && NoDup(g.keys) && y !in done
    ensures Inflow(g, done[y := c], x, n) == Inflow(g, done, x, n) + if y in g.keys[..n] && x in Adj(g, y) then c else 0
  {
    if n > 0 {
      InflowAdd(g, done, y, c, x, n - 1);
      assert g.keys[..n] == g.keys[..n - 1] + [g.keys[n - 1]];
      if g.keys[n - 1] == y {
        assert y !in g.keys[..n - 1];
      }
    }
  }

  /** Once every key feeding `x` has been processed with its walk count, the inflow is the child walk count. */
  lemma {:induction false} InflowWalks(g: Graph, t: Node, done: map<Node, int>, x: Node, k: nat, n: nat)
    requires n <= |g.keys|
    requires forall j :: 0 <= j < n && x in Adj(g, g.keys[j]) ==> g.keys[j] in done && done[g.keys[j]] == Walks(g, t, g.keys[j], k)
    ensures Inflow(g, done, x, n) == ChildWalks(g, t, x, k, n)
  {
    if n > 0 {
      InflowWalks(g, t, done, x, k, n - 1);
    }
  }

  /** Every connection leads forward in `order`. */
  ghost predicate Forward(g: Graph, order: seq<Node>, i: nat)
    requires i <= |order|
  {
    forall j, v :: 0 <= j < i && v in Adj(g, order[j]) ==> v in order[j + 1..]
  }

  lemma {:induction false} PathRises(g: Graph, order: seq<Node>, p: seq<Node>, a: nat)
    requires NoDup(order) && Forward(g, order, |order|)
    requires |p| >= 2 && IsPath(g, p) && a < |order| && order[a] == p[0]
    ensures exists b :: a < b < |order| && order[b] == p[|p| - 1]
    decreases |p|
  {
    assert p[1] in Adj(g, order[a]);
    var b1 :| a + 1 <= b1 < |order| && order[b1] == p[1];
    if |p| > 2 {
      assert IsPath(g, p[1..]);
      PathRises(g, order, p[1..], b1);
      var b :| b1 < b < |order| && order[b] == p[1..][|p| - 2];
      assert a < b;
    } else {
      assert a < b1 && order[b1] == p[|p| - 1];
    }
  }

  /** If every connection leads forward in an order holding every key, no walk returns to its start. */
  lemma ForwardAcyclic(g: Graph, order: seq<Node>)
    requires Valid(g) && NoDup(order) && Forward(g, order, |order|)
    requires forall k :: k in g.keys ==> k in order
    ensures Acyclic(g)
  {
    forall p | |p| >= 2 && IsPath(g, p)
      ensures p[0] != p[|p| - 1]
    {
      assert p[1] in Adj(g, p[0]);
      assert p[0] in g.keys;
      var a :| 0 <= a < |order| && order[a] == p[0];
      PathRises(g, order, p, a);
      var b :| a < b < |order| && order[b] == p[|p| - 1];
    }
  }

  /** A neighbour already processed when `order[i]` is processed shows a cycle. */
  lemma CycleFound(g: Graph, order: seq<Node>, i: nat, processed: set<Node>, v: Node)
    requires NoDup(order) && i < |order| && processed == SetOf(order[..i])
    requires v in Adj(g, order[i]) && v in processed + {order[i]}
    requires Acyclic(g) ==> Forward(g, order, |order|)
    ensures !Acyclic(g)
  {
    assert order[..i + 1] == order[..i] + [order[i]];
    assert v in order[..i + 1];
  }

  /** With every connection leading forward, a key feeding `order[i]` comes before it. */
  lemma FeederProcessed(g: Graph, order: seq<Node>, i: nat, c: Node)
    requires NoDup(order) && i < |order| && Forward(g, order, |order|)
    requires c in order && order[i] in Adj(g, c)
    ensures exists m :: 0 <= m < i && order[m] == c
  {
    var m :| 0 <= m < |order| && order[m] == c;
    var m' :| m + 1 <= m' < |order| && order[m'] == order[i];
    assert m' == i;
  }

  /** The count of `order[i]` when it is processed is its walk count, for every bound at least `i`. */
  lemma ProcessedCount(g: Graph, t: Node, order: seq<Node>, done: map<Node, int>, i: nat, cur: int, K: nat)
    requires NoDup(order) && i < |order| && K >= i
    requires forall k :: k in g.keys ==> k in order
    requires Forward(g, order, |order|)
    requires done.Keys == SetOf(order[..i])
    requires forall j, k :: 0 <= j < i && k >= j ==> done[order[j]] == Walks(g, t, order[j], k)
    requires cur == Indicator(order[i] == t) + Inflow(g, done, order[i], |g.keys|)
    ensures cur == Walks(g, t, order[i], K)
  {
    var node := order[i];
    if K == 0 {
      assert done == map[];
      InflowEmpty(g, node, |g.keys|);
    } else {
      forall j | 0 <= j < |g.keys| && node in Adj(g, g.keys[j])
        ensures g.keys[j] in done && done[g.keys[j]] == Walks(g, t, g.keys[j], K - 1)
      {
        FeederProcessed(g, order, i, g.keys[j]);
        var m :| 0 <= m < i && order[m] == g.keys[j];
        assert order[m] in order[..i];
      }
      InflowWalks(g, t, done, node, K - 1, |g.keys|);
    }
  }

  /** The final count of any device, once every node of the order has been processed. */
  lemma FinalCount(g: Graph, t: Node, order: seq<Node>, done: map<Node, int>, x: Node, K: nat)
    requires Valid(g) && NoDup(order) && K >= |order|
    requires forall k :: k in g.keys ==> k in order
    requires done.Keys == SetOf(order)
    requires forall j, k :: 0 <= j < |order| && k >= j ==> done[order[j]] == Walks(g, t, order[j], k)
    ensures Indicator(x == t) + Inflow(g, done, x, |g.keys|) == Walks(g, t, x, K)
  {
    if K == 0 {
      assert |g.keys| == 0;
    } else {
      forall j | 0 <= j < |g.keys| && x in Adj(g, g.keys[j])
        ensures g.keys[j] in done && done[g.keys[j]] == Walks(g, t, g.keys[j], K - 1)
      {
        var m :| 0 <= m < |order| && order[m] == g.keys[j];
      }
      InflowWalks(g, t, done, x, K - 1, |g.keys|);
    }
  }

  /** The state of the main loop after `i` nodes of the order. */
  ghost predicate CountState(g: Graph, t: Node, order: seq<Node>, i: nat, pc: map<Node, int>, processed: set<Node>, done: map<Node, int>)
    requires i <= |order|
  {
    processed == done.Keys == SetOf(order[..i]) &&
    (forall x :: Get(pc, x) == Indicator(x == t) + Inflow(g, done, x, |g.keys|)) &&
    Forward(g, order, i) &&
    (Acyclic(g) ==> forall j, k :: 0 <= j < i && k >= j ==> done[order[j]] == Walks(g, t, order[j], k))
  }

  lemma StartState(g: Graph, t: Node, order: seq<Node>)
    ensures CountState(g, t, order, 0, map[t := 1], {}, map[])
  {
    forall x
      ensures Get(map[t := 1], x) == Indicator(x == t) + Inflow(g, map[], x, |g.keys|)
    {
      InflowEmpty(g, x, |g.keys|);
    }
  }

  /**
   * The inner loop: `path_counts[neighbor] += current_count` for each
   * neighbour, stopping at the first neighbour already processed.
   */
  method Propagate(pc: map<Node, int>, nbrs: seq<Node>, cur: int, processed: set<Node>)
    returns (pc': map<Node, int>, clash: Option<Node>)
    ensures clash.Some? ==> clash.value in nbrs && clash.value in processed
    ensures clash.None? ==> forall v :: v in nbrs ==> v !in processed
    ensures clash.None? && NoDup(nbrs) ==> forall x :: Get(pc', x) == Get(pc, x) + if x in nbrs then cur else 0
  {
    pc' := pc;
    for j := 0 to |nbrs|
      invariant forall m :: 0 <= m < j ==> nbrs[m] !in processed
      invariant NoDup(nbrs) ==> forall x :: Get(pc', x) == Get(pc, x) + if x in nbrs[..j] then cur else 0
    {
      var neighbor := nbrs[j];
      if NoDup(nbrs) {
        assert neighbor !in nbrs[..j];
      }
      pc' := pc'[neighbor := Get(pc', neighbor) + cur];
      if neighbor in processed {
        return pc', Some(neighbor);
      }
      assert nbrs[..j + 1] == nbrs[..j] + [neighbor];
    }
    assert nbrs[..|nbrs|] == nbrs;
    clash := None;
  }

  /** The final counts: the graph has no cycle and every count is a walk count. */
  lemma Finish(g: Graph, t: Node, order: seq<Node>, pc: map<Node, int>, processed: set<Node>, done: map<Node, int>)
    requires Valid(g) && NoDup(order)
    requires forall k :: k in g.keys ==> k in order
    requires forall x :: x in order ==> x in Nodes(g)
    requires CountState(g, t, order, |order|, pc, processed, done)
    ensures Acyclic(g)
    ensures forall v, K :: K >= |Nodes(g)| ==> Get(pc, v) == Walks(g, t, v, K)
  {
    assert order[..|order|] == order;
    ForwardAcyclic(g, order);
    NoDupCard(order);
    SubsetCard(SetOf(order), Nodes(g));
    forall v, K | K >= |Nodes(g)|
      ensures Get(pc, v) == Walks(g, t, v, K)
    {
      FinalCount(g, t, order, done, v, K);
    }
  }

  /**
   * `count_paths_from_sources`: it fails (`ValueError`) exactly when the
   * graph has a cycle, and otherwise gives every device its number of walks
   * to `t` (walks are bounded by the number of nodes, since with no cycle
   * none is longer).
   */
  method CountPaths(g: Graph, t: Node) returns (counts: Option<map<Node, int>>)
    requires Valid(g)
    ensures counts.Some? <==> Acyclic(g)
    ensures counts.Some? ==> forall v, K :: K >= |Nodes(g)| ==> Get(counts.value, v) == Walks(g, t, v, K)
  {
    var order := TopologicalSort(g);
    var pc: map<Node, int> := map[t := 1];
    var processed: set<Node> := {};
    ghost var done: map<Node, int> := map[];
    StartState(g, t, order);
    for i := 0 to |order|
      invariant CountState(g, t, order, i, pc, processed, done)
    {
      var node := order[i];
      var cur := Get(pc, node);
      var next, clash := Propagate(pc, Adj(g, node), cur, processed + {node});
      if clash.Some? {
        CycleFound(g, order, i, processed, clash.value);
        return None;
      }
      CountStep(g, t, order, i, pc, next, processed, done, cur);
      pc, processed, done := next, processed + {node}, done[node := cur];
    }
    Finish(g, t, order, pc, processed, done);
    return Some(pc);
  }

  lemma StepInflow(g: Graph, t: Node, order: seq<Node>, i: nat, before: map<Node, int>, pc: map<Node, int>, done: map<Node, int>, cur: int)
    requires Valid(g) && i < |order| && NoDup(order)
    requires done.Keys == SetOf(order[..i])
    requires forall x :: Get(before, x) == Indicator(x == t) + Inflow(g, done, x, |g.keys|)
    requires forall x :: Get(pc, x) == Get(before, x) + if x in Adj(g, order[i]) then cur else 0
    ensures forall x :: Get(pc, x) == Indicator(x == t) + Inflow(g, done[order[i] := cur], x, |g.keys|)
  {
    var node := order[i];
    assert node !in order[..i];
    assert g.keys[..|g.keys|] == g.keys;
    forall x
      ensures Get(pc, x) == Indicator(x == t) + Inflow(g, done[node := cur], x, |g.keys|)
    {
      InflowAdd(g, done, node, cur, x, |g.keys|);
    }
  }

  lemma StepForward(g: Graph, order: seq<Node>, i: nat, processed: set<Node>)
    requires i < |order| && NoDup(order) && Forward(g, order, i)
    requires forall u, v :: u in order && v in Adj(g, u) ==> v in order
    requires processed == SetOf(order[..i])
    requires forall v :: v in Adj(g, order[i]) ==> v !in processed + {order[i]}
    ensures Forward(g, order, i + 1)
  {
    forall v | v in Adj(g, order[i])
      ensures v in order[i + 1..]
    {
      assert order[i] in order;
      assert v in order;
      var m :| 0 <= m < |order| && order[m] == v;
    }
  }

  lemma StepWalks(g: Graph, t: Node, order: seq<Node>, i: nat, done: map<Node, int>, cur: int)
    requires Valid(g) && Acyclic(g) && i < |order| && NoDup(order)
    requires forall k :: k in g.keys ==> k in order
    requires Forward(g, order, |order|)
    requires done.Keys == SetOf(order[..i])
    requires forall j, k :: 0 <= j < i && k >= j ==> done[order[j]] == Walks(g, t, order[j], k)
    requires cur == Indicator(order[i] == t) + Inflow(g, done, order[i], |g.keys|)
    ensures forall j, k :: 0 <= j < i + 1 && k >= j ==> done[order[i] := cur][order[j]] == Walks(g, t, order[j], k)
  {
    forall j, k | 0 <= j < i + 1 && k >= j
      ensures done[order[i] := cur][order[j]] == Walks(g, t, order[j], k)
    {
      if j == i {
        ProcessedCount(g, t, order, done, i, cur, k);
      } else {
        assert order[j] != order[i];
      }
    }
  }

  /** One pass of the main loop keeps its state. */
  lemma CountStep(g: Graph, t: Node, order: seq<Node>, i: nat, before: map<Node, int>, pc: map<Node, int>,
                  processed: set<Node>, done: map<Node, int>, cur: int)
    requires Valid(g) && i < |order| && NoDup(order)
    requires forall k :: k in g.keys ==> k in order
    requires forall u, v :: u in order && v in Adj(g, u) ==> v in order
    requires Acyclic(g) ==> Forward(g, order, |order|)
    requires CountState(g, t, order, i, before, processed, done)
    requires cur == Get(before, order[i])
    requires forall x :: Get(pc, x) == Get(before, x) + if x in Adj(g, order[i]) then cur else 0
    requires forall v :: v in Adj(g, order[i]) ==> v !in processed + {order[i]}
    ensures CountState(g, t, order, i + 1, pc, processed + {order[i]}, done[order[i] := cur])
  {
    assert order[..i + 1] == order[..i] + [order[i]];
    StepInflow(g, t, order, i, before, pc, done, cur);
    StepForward(g, order, i, processed);
    if Acyclic(g) {
      StepWalks(g, t, order, i, done, cur);
    }
  }
}
