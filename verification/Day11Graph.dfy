/**
 * Day 11: a device graph, one row `source: target target ...` per device.
 * This module holds the two readings of the rows (`parse_graph`, the
 * forward map, and `build_inverted_graph`, child to parents) and the
 * iterative depth-first `topological_sort`.
 *
 * Python sets are modelled as duplicate-free sequences in insertion order;
 * Python iterates them in hash order, and nothing stated here depends on it.
 */
module Day11Graph {
  import opened Base
  import opened Text

  type Node = string

  /** A row split at its colon: the source and its targets. */
  datatype Line = Line(source: Node, targets: seq<Node>)

  /** `source, targets = row.split(":")`: exactly one colon, or `ValueError`; the targets are `targets.strip().split()`. */
  function ParseLine(row: string): (line: Option<Line>)
    ensures line.Some? <==> |Split(row, ':')| == 2
    ensures line.Some? ==> line.value.source == Split(row, ':')[0] && line.value.targets == Words(Strip(Split(row, ':')[1]))
  {
    var parts := Split(row, ':');
    if |parts| == 2 then Some(Line(parts[0], Words(Strip(parts[1])))) else None
  }

  /** All rows, or `None` at the first row that does not split in two. */
  function ParseLines(rows: seq<string>): (lines: Option<seq<Line>>)
    ensures lines.Some? <==> forall i :: 0 <= i < |rows| ==> ParseLine(rows[i]).Some?
    ensures lines.Some? ==> |lines.value| == |rows| && forall i :: 0 <= i < |rows| ==> ParseLine(rows[i]) == Some(lines.value[i])
  {
    if rows == [] then Some([])
    else
      match (ParseLines(rows[..|rows| - 1]), ParseLine(rows[|rows| - 1]))
      case (Some(init), Some(last)) => Some(init + [last])
      case (None, _) =>
        assert forall i :: 0 <= i < |rows| - 1 ==> rows[..|rows| - 1][i] == rows[i];
        None
      case (_, None) => None
  }

  /**
   * `parse_graph`: each source maps to its target list, and a later row with
   * the same source replaces an earlier one.
   */
  method ParseGraph(lines: seq<Line>) returns (connections: map<Node, seq<Node>>)
    ensures forall s :: s in connections <==> exists i :: 0 <= i < |lines| && lines[i].source == s
    ensures forall i :: 0 <= i < |lines| && (forall j :: i < j < |lines| ==> lines[j].source != lines[i].source) ==>
      connections[lines[i].source] == lines[i].targets
  {
    connections := map[];
    for k := 0 to |lines|
      invariant forall s :: s in connections <==> exists i :: 0 <= i < k && lines[i].source == s
      invariant forall i :: 0 <= i < k && (forall j :: i < j < k ==> lines[j].source != lines[i].source) ==>
        connections[lines[i].source] == lines[i].targets
    {
      connections := connections[lines[k].source := lines[k].targets];
    }
  }

  predicate NoDup<T(==)>(s: seq<T>)
  {
    forall i, j :: 0 <= i < j < |s| ==> s[i] != s[j]
  }

  function SetOf<T>(s: seq<T>): set<T>
  {
    set x | x in s
  }

  lemma {:induction false} NoDupCard<T>(s: seq<T>)
    requires NoDup(s)
    ensures |SetOf(s)| == |s|
  {
    if s != [] {
      var init := s[..|s| - 1];
      assert NoDup(init);
      NoDupCard(init);
      assert s == init + [s[|s| - 1]];
      assert SetOf(s) == SetOf(init) + {s[|s| - 1]};
    }
  }

  /** A `defaultdict(set)`: its keys in insertion order and each key's set. */
  datatype Graph = Graph(keys: seq<Node>, adj: map<Node, seq<Node>>)

  /** `graph.get(u, [])`. */
  function Adj(g: Graph, u: Node): seq<Node>
  {
    if u in g.adj then g.adj[u] else []
  }

  /** A dictionary of sets: the key order lists the keys once each, and no set repeats a member. */
  ghost predicate Valid(g: Graph)
  {
    NoDup(g.keys) && (forall u :: u in g.adj <==> u in g.keys) &&
    forall u :: u in g.adj ==> NoDup(g.adj[u])
  }

  /** Every node the graph mentions. */
  function Nodes(g: Graph): set<Node>
  {
    SetOf(g.keys) + g.adj.Keys + set u, v | u in g.adj && v in g.adj[u] :: v
  }

  /**
   * `build_inverted_graph`: `p` is in the set of `c` exactly when some row
   * lists `c` as a target of `p`, and the keys are the nodes listed as a
   * target somewhere.
   */
  method BuildInvertedGraph(lines: seq<Line>) returns (g: Graph)
    ensures Valid(g)
    ensures forall c :: c in g.adj <==> exists i :: 0 <= i < |lines| && c in lines[i].targets
    ensures forall c, p :: p in Adj(g, c) <==> exists i :: 0 <= i < |lines| && lines[i].source == p && c in lines[i].targets
  {
    g := Graph([], map[]);
    for k := 0 to |lines|
      invariant Valid(g)
      invariant forall c :: c in g.adj <==> exists i :: 0 <= i < k && c in lines[i].targets
      invariant forall c, p :: p in Adj(g, c) <==> exists i :: 0 <= i < k && lines[i].source == p && c in lines[i].targets
    {
      g := AddParent(g, lines, k);
    }
  }

  /** `inverted_graph[child].add(parent)`: the key is created on first use and the parent added once. */
  function AddEdge(g: Graph, child: Node, parent: Node): (g': Graph)
    requires Valid(g)
    ensures Valid(g')
    ensures forall c :: c in g'.adj <==> c in g.adj || c == child
    ensures forall c, p :: p in Adj(g', c) <==> p in Adj(g, c) || (p == parent && c == child)
  {
    var created := if child in g.adj then g else Graph(g.keys + [child], g.adj[child := []]);
    if parent in created.adj[child] then created
    else created.(adj := created.adj[child := created.adj[child] + [parent]])
  }

  /** One row of `build_inverted_graph`: its source is added to the set of each of its targets. */
  method AddParent(g: Graph, lines: seq<Line>, k: nat) returns (g': Graph)
    requires k < |lines| && Valid(g)
    requires forall c :: c in g.adj <==> exists i :: 0 <= i < k && c in lines[i].targets
    requires forall c, p :: p in Adj(g, c) <==> exists i :: 0 <= i < k && lines[i].source == p && c in lines[i].targets
    ensures Valid(g')
    ensures forall c :: c in g'.adj <==> exists i :: 0 <= i < k + 1 && c in lines[i].targets
    ensures forall c, p :: p in Adj(g', c) <==> exists i :: 0 <= i < k + 1 && lines[i].source == p && c in lines[i].targets
  {
    var parent, children := lines[k].source, lines[k].targets;
    g' := g;
    for j := 0 to |children|
      invariant Valid(g')
      invariant forall c :: c in g'.adj <==> c in g.adj || c in children[..j]
      invariant forall c, p :: p in Adj(g', c) <==> p in Adj(g, c) || (p == parent && c in children[..j])
    {
      assert children[..j + 1] == children[..j] + [children[j]];
      g' := AddEdge(g', children[j], parent);
    }
    assert children[..|children|] == children;
    forall c
      ensures c in g'.adj <==> exists i :: 0 <= i < k + 1 && c in lines[i].targets
    {
      if c in children {
        assert c in lines[k].targets;
      }
    }
    forall c, p
      ensures p in Adj(g', c) <==> exists i :: 0 <= i < k + 1 && lines[i].source == p && c in lines[i].targets
    {
      if p == parent && c in children {
        assert lines[k].source == p && c in lines[k].targets;
      }
    }
  }

  /** A walk along the graph's edges. */
  predicate IsPath(g: Graph, p: seq<Node>)
  {
    forall i :: 0 <= i < |p| - 1 ==> p[i + 1] in Adj(g, p[i])
  }

  /** Some walk leads from `a` to `b`. */
  ghost predicate Connected(g: Graph, a: Node, b: Node)
  {
    exists p :: |p| >= 1 && IsPath(g, p) && p[0] == a && p[|p| - 1] == b
  }

  /** No walk of one or more edges returns to where it started. */
  ghost predicate Acyclic(g: Graph)
  {
    forall p :: |p| >= 2 && IsPath(g, p) ==> p[0] != p[|p| - 1]
  }

  /** Some walk leads from a key of the graph to `x`. */
  ghost predicate Reachable(g: Graph, x: Node)
  {
    exists p :: |p| >= 1 && IsPath(g, p) && p[0] in g.keys && p[|p| - 1] == x
  }

  lemma ReachableStep(g: Graph, u: Node, v: Node)
    requires Reachable(g, u) && v in Adj(g, u)
    ensures Reachable(g, v)
  {
    var p :| |p| >= 1 && IsPath(g, p) && p[0] in g.keys && p[|p| - 1] == u;
    assert IsPath(g, p + [v]);
  }

  /** In an acyclic graph, a walk from `v` to `u` and an edge `u -> v` cannot both exist. */
  lemma NoBackEdge(g: Graph, u: Node, v: Node)
    requires Acyclic(g) && Connected(g, v, u)
    ensures v !in Adj(g, u)
  {
    var p :| |p| >= 1 && IsPath(g, p) && p[0] == v && p[|p| - 1] == u;
    if v in Adj(g, u) {
      ClosingEdge(g, p);
    }
  }

  /** A walk whose last node has an edge back to its first closes a cycle. */
  lemma ClosingEdge(g: Graph, p: seq<Node>)
    requires |p| >= 1 && IsPath(g, p) && p[0] in Adj(g, p[|p| - 1])
    ensures !Acyclic(g)
  {
    var q := p + [p[0]];
    assert IsPath(g, q) && |q| >= 2 && q[0] == q[|q| - 1];
  }

  /** The marks: finished and open nodes, each once, together exactly the marked set. */
  predicate Marks(visited: set<Node>, post: seq<Node>, stack: seq<Node>)
  {
    NoDup(post) && NoDup(stack) && (forall x :: x in stack ==> x !in post) &&
    visited == SetOf(post) + SetOf(stack)
  }

  /** Every marked node is a node of the graph reachable from one of its keys. */
  ghost predicate Found(g: Graph, visited: set<Node>)
  {
    visited <= Nodes(g) && forall x :: x in visited ==> Reachable(g, x)
  }

  /**
   * A finished node's children were all marked when it finished, and each
   * either finished before it or lies on a walk back to it.
   */
  ghost predicate Finished(g: Graph, visited: set<Node>, post: seq<Node>)
  {
    (forall i, v :: 0 <= i < |post| && v in Adj(g, post[i]) ==> v in visited) &&
    (forall i, v :: 0 <= i < |post| && v in Adj(g, post[i]) ==> v in post[..i] || Connected(g, v, post[i]))
  }

  /**
   * The state of the depth-first search: `post` holds the finished nodes in
   * the order they were popped, `stack` the open ones, each a child of the
   * one below it.
   */
  ghost predicate DfsState(g: Graph, visited: set<Node>, post: seq<Node>, stack: seq<Node>)
  {
    Marks(visited, post, stack) && Found(g, visited) && IsPath(g, stack) && Finished(g, visited, post)
  }

  /** The search for a child not yet marked (`for neighbor in graph.get(current, [])` up to the first hit). */
  method FirstUnvisited(nbrs: seq<Node>, visited: set<Node>) returns (next: Option<Node>)
    ensures next.None? <==> forall v :: v in nbrs ==> v in visited
    ensures next.Some? ==> next.value in nbrs && next.value !in visited
  {
    for j := 0 to |nbrs|
      invariant forall i :: 0 <= i < j ==> nbrs[i] in visited
    {
      if nbrs[j] !in visited {
        return Some(nbrs[j]);
      }
    }
    return None;
  }

  lemma AdjInNodes(g: Graph, u: Node, v: Node)
    requires v in Adj(g, u)
    ensures v in Nodes(g)
  {
    assert u in g.adj && v in g.adj[u];
  }

  /** Pushing an unmarked child of the top node keeps the search state. */
  lemma PushKeeps(g: Graph, visited: set<Node>, post: seq<Node>, stack: seq<Node>, neighbor: Node)
    requires DfsState(g, visited, post, stack) && stack != []
    requires neighbor in Adj(g, stack[|stack| - 1]) && neighbor !in visited
    ensures DfsState(g, visited + {neighbor}, post, stack + [neighbor])
  {
    var stack' := stack + [neighbor];
    ReachableStep(g, stack[|stack| - 1], neighbor);
    AdjInNodes(g, stack[|stack| - 1], neighbor);
    assert SetOf(stack') == SetOf(stack) + {neighbor};
    assert Marks(visited + {neighbor}, post, stack');
    assert IsPath(g, stack');
  }

  /** Each open node lies on a walk to the top of the stack. */
  lemma OpenConnected(g: Graph, stack: seq<Node>, s: nat)
    requires IsPath(g, stack) && s < |stack|
    ensures Connected(g, stack[s], stack[|stack| - 1])
  {
    var p := stack[s..];
    assert IsPath(g, p) && p[0] == stack[s] && p[|p| - 1] == stack[|stack| - 1];
  }

  lemma PopMarks(visited: set<Node>, post: seq<Node>, stack: seq<Node>)
    requires Marks(visited, post, stack) && stack != []
    ensures Marks(visited, post + [stack[|stack| - 1]], stack[..|stack| - 1])
  {
    var current := stack[|stack| - 1];
    var post', stack' := post + [current], stack[..|stack| - 1];
    assert stack == stack' + [current];
    assert current !in post;
    assert SetOf(post') + SetOf(stack') == SetOf(post) + SetOf(stack);
    assert NoDup(post');
  }

  /** The children of the popped node: each is finished already or open below it. */
  lemma PopChildren(g: Graph, visited: set<Node>, post: seq<Node>, stack: seq<Node>)
    requires DfsState(g, visited, post, stack) && stack != []
    requires forall v :: v in Adj(g, stack[|stack| - 1]) ==> v in visited
    ensures forall v :: v in Adj(g, stack[|stack| - 1]) ==> v in post || Connected(g, v, stack[|stack| - 1])
  {
    forall v | v in Adj(g, stack[|stack| - 1])
      ensures v in post || Connected(g, v, stack[|stack| - 1])
    {
      if v !in post {
        assert v in SetOf(stack);
        var s :| 0 <= s < |stack| && stack[s] == v;
        OpenConnected(g, stack, s);
      }
    }
  }

  /** Popping a top node whose children are all marked keeps the search state. */
  lemma PopKeeps(g: Graph, visited: set<Node>, post: seq<Node>, stack: seq<Node>)
    requires DfsState(g, visited, post, stack) && stack != []
    requires forall v :: v in Adj(g, stack[|stack| - 1]) ==> v in visited
    ensures DfsState(g, visited, post + [stack[|stack| - 1]], stack[..|stack| - 1])
  {
    var current := stack[|stack| - 1];
    var post', stack' := post + [current], stack[..|stack| - 1];
    PopMarks(visited, post, stack);
    PopChildren(g, visited, post, stack);
    forall i, v | 0 <= i < |post'| && v in Adj(g, post'[i])
      ensures v in post'[..i] || Connected(g, v, post'[i])
    {
      if i < |post| {
        assert post'[..i] == post[..i];
      } else {
        assert post'[..i] == post;
      }
    }
    assert Finished(g, visited, post');
    assert IsPath(g, stack');
  }

  /** One pass of the `while stack` loop: push the first unmarked child, or finish the top node. */
  method DfsStep(g: Graph, visited: set<Node>, post: seq<Node>, stack: seq<Node>)
    returns (visited': set<Node>, post': seq<Node>, stack': seq<Node>)
    requires DfsState(g, visited, post, stack) && stack != []
    ensures DfsState(g, visited', post', stack')
    ensures visited <= visited' && post <= post'
    ensures visited' != visited || |stack'| < |stack|
  {
    var current := stack[|stack| - 1];
    var next := FirstUnvisited(Adj(g, current), visited);
    if next.Some? {
      PushKeeps(g, visited, post, stack, next.value);
      visited', post', stack' := visited + {next.value}, post, stack + [next.value];
    } else {
      PopKeeps(g, visited, post, stack);
      visited', post', stack' := visited, post + [current], stack[..|stack| - 1];
    }
  }

  lemma Shrinks(all: set<Node>, before: set<Node>, after: set<Node>)
    requires before <= after <= all && before != after
    ensures |all - after| < |all - before|
  {
    var x :| x in after && x !in before;
    assert all - before == (all - after) + (after - before);
    assert (all - after) * (after - before) == {};
    assert x in after - before;
  }

  /** Opening an unmarked key on an empty stack keeps the search state. */
  lemma StartKeeps(g: Graph, visited: set<Node>, post: seq<Node>, node: Node)
    requires DfsState(g, visited, post, []) && node in g.keys && node !in visited
    ensures DfsState(g, visited + {node}, post, [node])
  {
    assert IsPath(g, [node]) && Reachable(g, node);
    assert SetOf([node]) == {node};
    assert Marks(visited + {node}, post, [node]);
    assert Found(g, visited + {node});
  }

  /** `stack = [node]` and the `while stack` loop: the search from one key. */
  method Explore(g: Graph, node: Node, visited: set<Node>, post: seq<Node>) returns (visited': set<Node>, post': seq<Node>)
    requires DfsState(g, visited, post, []) && node in g.keys && node !in visited
    ensures DfsState(g, visited', post', []) && visited + {node} <= visited' && post <= post'
  {
    var stack := [node];
    visited', post' := visited + {node}, post;
    StartKeeps(g, visited, post, node);
    while stack != []
      invariant DfsState(g, visited', post', stack) && visited + {node} <= visited' && post <= post'
      decreases |Nodes(g) - visited'|, |stack|
    {
      ghost var before := visited';
      visited', post', stack := DfsStep(g, visited', post', stack);
      if visited' != before {
        Shrinks(Nodes(g), before, visited');
      }
    }
  }

  function Reverse<T>(s: seq<T>): (r: seq<T>)
    ensures |r| == |s| && forall i :: 0 <= i < |s| ==> r[i] == s[|s| - 1 - i]
  {
    if s == [] then [] else Reverse(s[1..]) + [s[0]]
  }

  lemma ReverseNoDup<T>(s: seq<T>)
    requires NoDup(s)
    ensures NoDup(Reverse(s)) && forall x :: x in Reverse(s) <==> x in s
  {
    var r := Reverse(s);
    forall x | x in s
      ensures x in r
    {
      var i :| 0 <= i < |s| && s[i] == x;
      assert r[|s| - 1 - i] == x;
    }
  }

  /** With no cycle, every finished node's children finished before it: in the reversed order they come after it. */
  lemma ReversedOrder(g: Graph, visited: set<Node>, post: seq<Node>)
    requires Acyclic(g) && Finished(g, visited, post) && NoDup(post)
    ensures forall i, v :: 0 <= i < |post| && v in Adj(g, Reverse(post)[i]) ==> v in Reverse(post)[i + 1..]
  {
    var order := Reverse(post);
    forall i, v | 0 <= i < |order| && v in Adj(g, order[i])
      ensures v in order[i + 1..]
    {
      var a := |post| - 1 - i;
      assert order[i] == post[a];
      if v !in post[..a] {
        NoBackEdge(g, post[a], v);
      }
      var b :| 0 <= b < a && post[b] == v;
      assert order[|post| - 1 - b] == v;
    }
  }

  /**
   * `topological_sort`: every node reachable from a key, each once.  On an
   * acyclic graph every edge `u -> v` has `u` before `v`.
   */
  method TopologicalSort(g: Graph) returns (order: seq<Node>)
    ensures NoDup(order)
    ensures forall k :: k in g.keys ==> k in order
    ensures forall u, v :: u in order && v in Adj(g, u) ==> v in order
    ensures forall x :: x in order ==> Reachable(g, x) && x in Nodes(g)
    ensures Acyclic(g) ==> forall i, v :: 0 <= i < |order| && v in Adj(g, order[i]) ==> v in order[i + 1..]
  {
    var visited: set<Node> := {};
    var post: seq<Node> := [];
    assert Marks(visited, post, []);
    for idx := 0 to |g.keys|
      invariant DfsState(g, visited, post, [])
      invariant forall k :: 0 <= k < idx ==> g.keys[k] in visited
    {
      var node := g.keys[idx];
      if node in visited {
        continue;
      }
      visited, post := Explore(g, node, visited, post);
    }
    order := Reverse(post);
    ReverseNoDup(post);
    assert SetOf(post) == visited;
    forall u, v | u in order && v in Adj(g, u)
      ensures v in order
    {
      var i :| 0 <= i < |post| && post[i] == u;
      assert v in SetOf(post);
    }
    if Acyclic(g) {
      ReversedOrder(g, visited, post);
    }
  }
}
