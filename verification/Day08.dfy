/**
 * Day 8: junction boxes at integer points in space are joined pairwise, closest
 * pair first (Kruskal's order), with a union-find structure that uses path
 * compression and union by size.  Part 1 multiplies the three largest circuit
 * sizes after the 1000th connection; part 2 multiplies the x coordinates of the
 * pair whose connection leaves a single circuit.
 */
module Day08 {
  import opened Base
  import opened Text
  import Sorting

  type Coord = (int, int, int)

  /** `(dist, i, j)`: a candidate connection between boxes `i < j`. */
  type Edge = (int, nat, nat)

  /** The connection at which part 1 takes its measurement (the 1000th one). */
  const Milestone: nat := 999

  function SquaredDistance(a: Coord, b: Coord): (d: int)
    ensures d >= 0
    ensures d == 0 <==> a == b
  {
    Square(a.0 - b.0) + Square(a.1 - b.1) + Square(a.2 - b.2)
  }

  function Square(x: int): (s: int)
    ensures s >= 0 && (s == 0 <==> x == 0)
  {
    if x == 0 then 0 else SquarePositive(x); x * x
  }

  lemma SquarePositive(x: int)
    requires x != 0
    ensures x * x > 0
  {
    if x < 0 {
      assert x * x == (-x) * (-x);
    }
  }

  // ---------------------------------------------------------------------------
  // Parsing: `tuple(map(int, line.split(',')))`
  // ---------------------------------------------------------------------------

  /** The first three comma-separated integers of a line; `None` where `int` raises or a coordinate is missing. */
  function ParseCoord(line: string): Option<Coord>
  {
    var fields := Split(line, ',');
    if |fields| < 3 then None
    else if forall k :: 0 <= k < |fields| ==> ParseInt(fields[k]).Some? then
      Some((ParseInt(fields[0]).value, ParseInt(fields[1]).value, ParseInt(fields[2]).value))
    else None
  }

  function ParseCoords(lines: seq<string>): (r: Option<seq<Coord>>)
    ensures r.Some? ==> |r.value| == |lines|
  {
    if lines == [] then Some([])
    else match (ParseCoords(lines[..|lines| - 1]), ParseCoord(lines[|lines| - 1]))
      case (Some(cs), Some(c)) => Some(cs + [c])
      case _ => None
  }

  // ---------------------------------------------------------------------------
  // Edge generation and sorting
  // ---------------------------------------------------------------------------

  /** The edge for the pair `i < j`, weighted by squared distance. */
  predicate IsPairEdge(coords: seq<Coord>, e: Edge)
  {
    e.1 < e.2 < |coords| && e.0 == SquaredDistance(coords[e.1], coords[e.2])
  }

  /** Pair `(i, j)` precedes pair `(i', j')` in the order of the two nested loops. */
  predicate PairBefore(i: int, j: int, i': int, j': int)
  {
    i < i' || (i == i' && j < j')
  }

  /**
   * The nested loops that list the pairs: one edge for every pair `i < j`,
   * nothing else, and no pair twice.
   */
  method PairEdges(coords: seq<Coord>) returns (edges: seq<Edge>)
    ensures forall e: Edge :: e in edges <==> IsPairEdge(coords, e)
    ensures forall k, l :: 0 <= k < l < |edges| ==> (edges[k].1, edges[k].2) != (edges[l].1, edges[l].2)
  {
    var n := |coords|;
    edges := [];
    var i := 0;
    while i < n
      invariant 0 <= i <= n
      invariant forall e: Edge :: e in edges <==> IsPairEdge(coords, e) && e.1 < i
      invariant forall k, l :: 0 <= k < l < |edges| ==> PairBefore(edges[k].1, edges[k].2, edges[l].1, edges[l].2)
      invariant forall k :: 0 <= k < |edges| ==> edges[k].1 < i
    {
      var j := i + 1;
      while j < n
        invariant i + 1 <= j <= n
        invariant forall e: Edge :: e in edges <==> IsPairEdge(coords, e) && (e.1 < i || (e.1 == i && e.2 < j))
        invariant forall k, l :: 0 <= k < l < |edges| ==> PairBefore(edges[k].1, edges[k].2, edges[l].1, edges[l].2)
        invariant forall k :: 0 <= k < |edges| ==> PairBefore(edges[k].1, edges[k].2, i, j)
      {
        var c1, c2 := coords[i], coords[j];
        var dist := SquaredDistance(c1, c2);
        edges := edges + [(dist, i, j)];
        j := j + 1;
      }
      i := i + 1;
    }
  }

  /** Python's ordering of `(dist, i, j)` tuples. */
  predicate EdgeLe(a: Edge, b: Edge)
  {
    a.0 < b.0 || (a.0 == b.0 && (a.1 < b.1 || (a.1 == b.1 && a.2 <= b.2)))
  }

  lemma EdgeLeTotalPreorder()
    ensures Sorting.TotalPreorder<Edge>(EdgeLe)
  {
  }

  /** `edges.sort()`: the same edges, shortest first. */
  lemma SortedEdges(edges: seq<Edge>)
    ensures multiset(Sorting.SortBy<Edge>(EdgeLe, edges)) == multiset(edges)
    ensures forall k :: 0 <= k < |edges| - 1 ==>
      Sorting.SortBy<Edge>(EdgeLe, edges)[k].0 <= Sorting.SortBy<Edge>(EdgeLe, edges)[k + 1].0
  {
    EdgeLeTotalPreorder();
    Sorting.SortPermutes<Edge>(EdgeLe, edges);
    Sorting.SortSorted<Edge>(EdgeLe, edges);
  }

  // ---------------------------------------------------------------------------
  // Union-find
  // ---------------------------------------------------------------------------

  /** The elements that are their own parent: the roots. */
  function RootsOf(parent: seq<nat>): set<nat>
  {
    set k | 0 <= k < |parent| && parent[k] == k
  }

  /** The elements labelled with root `r`. */
  function MembersOf(root: seq<nat>, r: nat): set<nat>
  {
    set k | 0 <= k < |root| && root[k] == r
  }

  /** The size of each root, and 0 for every other element. */
  function RootSizes(parent: seq<nat>, size: seq<nat>): seq<int>
    requires |size| == |parent|
  {
    seq(|parent|, k requires 0 <= k < |parent| => if parent[k] == k then size[k] else 0)
  }

  /**
   * `root[k]` is the root reached from `k` by following `parent`: roots are
   * their own parents, a parent link never changes the root, and `rank`
   * strictly increases along every link, so the walk up always ends.
   */
  predicate Forest(parent: seq<nat>, root: seq<nat>, rank: seq<nat>, maxRank: nat)
  {
    var n := |parent|;
    |root| == n && |rank| == n &&
    (forall k :: 0 <= k < n ==> parent[k] < n) &&
    (forall k :: 0 <= k < n ==> root[k] < n) &&
    forall k {:trigger parent[k]} :: 0 <= k < n ==>
      (parent[k] == k <==> root[k] == k) &&
      root[parent[k]] == root[k] && root[root[k]] == root[k] &&
      (parent[k] != k ==> rank[k] < rank[parent[k]] && rank[k] < rank[root[k]]) &&
      rank[k] <= rank[root[k]] <= maxRank
  }

  /** The counter and the sizes agree with the forest. */
  predicate Counted(parent: seq<nat>, size: seq<nat>, root: seq<nat>, numComponents: nat)
    requires |size| == |parent|
  {
    numComponents == |RootsOf(parent)| &&
    (forall r :: 0 <= r < |parent| && parent[r] == r ==> size[r] == |MembersOf(root, r)|) &&
    Sum(RootSizes(parent, size)) == |parent|
  }

  /** Path compression: pointing a non-root straight at its root keeps the forest and the set of roots. */
  lemma CompressKeeps(parent: seq<nat>, root: seq<nat>, rank: seq<nat>, maxRank: nat, size: seq<nat>, i: nat)
    requires Forest(parent, root, rank, maxRank) && |size| == |parent|
    requires i < |parent| && parent[i] != i
    ensures Forest(parent[i := root[i]], root, rank, maxRank)
    ensures RootsOf(parent[i := root[i]]) == RootsOf(parent)
    ensures RootSizes(parent[i := root[i]], size) == RootSizes(parent, size)
  {
    var p := parent[i := root[i]];
    forall k | 0 <= k < |p|
      ensures p[k] < |p| && (p[k] == k <==> parent[k] == k)
      ensures (p[k] == k <==> root[k] == k) && root[p[k]] == root[k] && root[root[k]] == root[k]
      ensures p[k] != k ==> rank[k] < rank[p[k]] && rank[k] < rank[root[k]]
      ensures rank[k] <= rank[root[k]] <= maxRank
    {
      ForestAt(parent, root, rank, maxRank, k);
      ForestAt(parent, root, rank, maxRank, i);
    }
    SameRoots(parent, p, size);
  }

  /** The forest's conditions at one element. */
  lemma ForestAt(parent: seq<nat>, root: seq<nat>, rank: seq<nat>, maxRank: nat, k: nat)
    requires Forest(parent, root, rank, maxRank) && k < |parent|
    ensures parent[k] < |parent| && root[k] < |parent|
    ensures (parent[k] == k <==> root[k] == k) && root[parent[k]] == root[k] && root[root[k]] == root[k]
    ensures parent[k] != k ==> rank[k] < rank[parent[k]] && rank[k] < rank[root[k]]
    ensures rank[k] <= rank[root[k]] <= maxRank
  {
    assert parent[k] < |parent|;
  }

  /** Two parent lists with the same roots have the same root set and root sizes. */
  lemma SameRoots(parent: seq<nat>, p: seq<nat>, size: seq<nat>)
    requires |p| == |parent| == |size|
    requires forall k :: 0 <= k < |p| ==> (p[k] == k <==> parent[k] == k)
    ensures RootsOf(p) == RootsOf(parent)
    ensures RootSizes(p, size) == RootSizes(parent, size)
  {
  }

  /** Hanging root `loser` under root `winner` relabels the loser's set and keeps the forest. */
  lemma LinkKeeps(parent: seq<nat>, root: seq<nat>, rank: seq<nat>, maxRank: nat, winner: nat, loser: nat)
    returns (root': seq<nat>, rank': seq<nat>, maxRank': nat)
    requires Forest(parent, root, rank, maxRank)
    requires winner < |parent| && loser < |parent| && winner != loser
    requires parent[winner] == winner && parent[loser] == loser
    ensures |root'| == |root| && forall k :: 0 <= k < |root| ==> root'[k] == if root[k] == loser then winner else root[k]
    ensures Forest(parent[loser := winner], root', rank', maxRank')
    ensures RootsOf(parent[loser := winner]) == RootsOf(parent) - {loser}
  {
    var n := |parent|;
    root' := seq(n, k requires 0 <= k < n => if root[k] == loser then winner else root[k]);
    var r := if rank[winner] > rank[loser] then rank[winner] else rank[loser] + 1;
    rank' := rank[winner := r];
    maxRank' := if maxRank >= r then maxRank else r;
    var p := parent[loser := winner];
    forall k | 0 <= k < n
      ensures p[k] == k <==> root'[k] == k
      ensures root'[p[k]] == root'[k] && root'[root'[k]] == root'[k]
      ensures p[k] != k ==> rank'[k] < rank'[p[k]] && rank'[k] < rank'[root'[k]]
      ensures rank'[k] <= rank'[root'[k]] <= maxRank'
    {
      assert root[winner] == winner && root[loser] == loser;
    }
    assert RootsOf(p) == RootsOf(parent) - {loser};
  }

  /** Relabelling the loser's members to the winner adds the two sets together. */
  lemma LinkMembers(root: seq<nat>, root': seq<nat>, winner: nat, loser: nat, r: nat)
    requires |root'| == |root| && winner != loser
    requires forall k :: 0 <= k < |root| ==> root'[k] == if root[k] == loser then winner else root[k]
    requires r != loser
    ensures |MembersOf(root', r)| == |MembersOf(root, r)| + (if r == winner then |MembersOf(root, loser)| else 0)
  {
    if r == winner {
      assert MembersOf(root', r) == MembersOf(root, winner) + MembersOf(root, loser);
      DisjointCard(MembersOf(root, winner), MembersOf(root, loser));
    } else {
      assert MembersOf(root', r) == MembersOf(root, r);
    }
  }

  /**
   * The `parent`/`size` lists with the `num_components` counter, and as ghost
   * state the root of every element and the ranks that bound the walk up.
   */
  class UnionFind {
    var parent: seq<nat>
    var size: seq<nat>
    var numComponents: nat
    ghost var root: seq<nat>
    ghost var rank: seq<nat>
    ghost var maxRank: nat

    ghost predicate Valid()
      reads this
    {
      Inv(parent, size, numComponents, root, rank, maxRank)
    }

    /** `parent = list(range(n))`, `size = [1] * n`, `num_components = n`. */
    constructor(n: nat)
      ensures Valid() && |parent| == n && numComponents == n
      ensures forall k :: 0 <= k < n ==> root[k] == k && size[k] == 1
    {
      parent := seq(n, k => k);
      size := seq(n, k => 1);
      numComponents := n;
      root := seq(n, k => k);
      rank := seq(n, k => 0);
      maxRank := 0;
      new;
      RangeCard(n);
      assert RootsOf(parent) == Range(n);
      forall r | 0 <= r < n
        ensures size[r] == |MembersOf(root, r)|
      {
        assert MembersOf(root, r) == {r};
      }
      AllOnesSum(RootSizes(parent, size));
    }

    /** `find(i)`: the root of `i`, pointing `i` straight at it on the way back. */
    method Find(i: nat) returns (r: nat)
      requires Valid() && i < |parent|
      modifies this
      ensures Valid() && |parent| == old(|parent|)
      ensures r == root[i] && parent[r] == r
      ensures RootsOf(parent) == RootsOf(old(parent))
      ensures root == old(root) && size == old(size) && numComponents == old(numComponents)
      ensures rank == old(rank) && maxRank == old(maxRank)
      decreases maxRank - rank[i]
    {
      if parent[i] == i {
        return i;
      }
      r := Find(parent[i]);
      CompressKeeps(parent, root, rank, maxRank, size, i);
      parent := parent[i := r];
      r := parent[i];
    }

    /**
     * `union(i, j)`: merges the two sets unless they are one already, hanging
     * the smaller set's root under the larger one's; every other set is left
     * as it was.
     */
    method Union(i: nat, j: nat) returns (merged: bool)
      requires Valid() && i < |parent| && j < |parent|
      modifies this
      ensures Valid() && |parent| == old(|parent|)
      ensures merged <==> old(root[i]) != old(root[j])
      ensures root[i] == root[j]
      ensures root[i] == old(root[i]) || root[i] == old(root[j])
      ensures forall k :: 0 <= k < |root| ==>
        root[k] == if old(root[k]) == old(root[i]) || old(root[k]) == old(root[j]) then root[i] else old(root[k])
      ensures numComponents == old(numComponents) - (if merged then 1 else 0)
      ensures merged ==> old(numComponents) >= 2
      ensures merged ==> root[i] == (if old(size[root[i]]) < old(size[root[j]]) then old(root[j]) else old(root[i]))
      ensures merged ==> size[root[i]] == old(size[root[i]]) + old(size[root[j]])
      ensures merged ==> root[i] == Winner(old(root), old(root[i]), old(root[j]))
    {
      var rootI := Find(i);
      var rootJ := Find(j);
      if rootI != rootJ {
        assert size[rootI] == |MembersOf(root, rootI)| && size[rootJ] == |MembersOf(root, rootJ)|;
        SubsetCard({rootI, rootJ}, RootsOf(parent));
        if size[rootI] < size[rootJ] {
          rootI, rootJ := rootJ, rootI;
        }
        Link(rootI, rootJ);
        return true;
      }
      return false;
    }

    /** The merging branch of `union`: root `loser` is hung under root `winner`. */
    method Link(winner: nat, loser: nat)
      requires Valid() && winner < |parent| && loser < |parent| && winner != loser
      requires parent[winner] == winner && parent[loser] == loser
      modifies this
      ensures Valid() && |parent| == old(|parent|)
      ensures forall k :: 0 <= k < |root| ==> root[k] == if old(root[k]) == loser then winner else old(root[k])
      ensures numComponents == old(numComponents) - 1
      ensures size[winner] == old(size[winner]) + old(size[loser])
    {
      ghost var root', rank', maxRank' := LinkStep(parent, size, numComponents, root, rank, maxRank, winner, loser);
      parent, size, numComponents := parent[loser := winner], size[winner := size[winner] + size[loser]], numComponents - 1;
      root, rank, maxRank := root', rank', maxRank';
    }
  }

  /** The union-find invariant: a forest whose sizes and counter agree with it. */
  ghost predicate Inv(parent: seq<nat>, size: seq<nat>, numComponents: nat, root: seq<nat>, rank: seq<nat>, maxRank: nat)
  {
    |size| == |parent| && |root| == |parent| && |rank| == |parent| &&
    Forest(parent, root, rank, maxRank) && Counted(parent, size, root, numComponents)
  }

  /** The state change of a link keeps the invariant. */
  lemma LinkStep(parent: seq<nat>, size: seq<nat>, numComponents: nat, root: seq<nat>, rank: seq<nat>, maxRank: nat,
                 winner: nat, loser: nat)
    returns (root': seq<nat>, rank': seq<nat>, maxRank': nat)
    requires Inv(parent, size, numComponents, root, rank, maxRank)
    requires winner < |parent| && loser < |parent| && winner != loser
    requires parent[winner] == winner && parent[loser] == loser
    ensures numComponents >= 1
    ensures Inv(parent[loser := winner], size[winner := size[winner] + size[loser]], numComponents - 1, root', rank', maxRank')
    ensures |root'| == |root| && forall k :: 0 <= k < |root| ==> root'[k] == if root[k] == loser then winner else root[k]
  {
    root', rank', maxRank' := LinkKeeps(parent, root, rank, maxRank, winner, loser);
    LinkCounts(parent, size, root, root', numComponents, winner, loser);
  }

  /** After a link the counter drops by one and the winner's size absorbs the loser's. */
  lemma LinkCounts(parent: seq<nat>, size: seq<nat>, root: seq<nat>, root': seq<nat>, numComponents: nat,
                   winner: nat, loser: nat)
    requires |size| == |parent| && |root| == |parent| && |root'| == |root|
    requires winner < |parent| && loser < |parent| && winner != loser
    requires parent[winner] == winner && parent[loser] == loser
    requires Counted(parent, size, root, numComponents)
    requires forall k :: 0 <= k < |root| ==> root'[k] == if root[k] == loser then winner else root[k]
    requires RootsOf(parent[loser := winner]) == RootsOf(parent) - {loser}
    ensures numComponents >= 1
    ensures Counted(parent[loser := winner], size[winner := size[winner] + size[loser]], root', numComponents - 1)
  {
    var p, s := parent[loser := winner], size[winner := size[winner] + size[loser]];
    assert loser in RootsOf(parent);
    RemoveCard(RootsOf(parent), loser);
    forall r | 0 <= r < |p| && p[r] == r
      ensures s[r] == |MembersOf(root', r)|
    {
      LinkMembers(root, root', winner, loser, r);
    }
    var before := RootSizes(parent, size);
    var middle := before[loser := 0];
    SumUpdate(before, loser, 0);
    SumUpdate(middle, winner, s[winner]);
    assert RootSizes(p, s) == middle[winner := s[winner]];
  }

  /** The numbers below `n`. */
  function Range(n: nat): (s: set<nat>)
    ensures forall k: nat :: k in s <==> k < n
  {
    if n == 0 then {} else Range(n - 1) + {n - 1}
  }

  lemma {:induction false} RangeCard(n: nat)
    ensures |Range(n)| == n
  {
    if n > 0 {
      var below := Range(n - 1);
      RangeCard(n - 1);
      assert n - 1 !in below;
      assert |below + {n - 1}| == |below| + 1;
    }
  }

  lemma RemoveCard<T>(s: set<T>, x: T)
    requires x in s
    ensures |s - {x}| == |s| - 1
  {
  }

  lemma {:induction false} AllOnesSum(s: seq<int>)
    requires forall k :: 0 <= k < |s| ==> s[k] == 1
    ensures Sum(s) == |s|
  {
    if s != [] {
      AllOnesSum(s[..|s| - 1]);
    }
  }

  // ---------------------------------------------------------------------------
  // Part 1: the three largest circuits
  // ---------------------------------------------------------------------------

  /** `[size[k] for k in range(n) if parent[k] == k]`. */
  function SizesOfRoots(parent: seq<nat>, size: seq<nat>): (r: seq<nat>)
    requires |size| == |parent|
    ensures |r| <= |parent|
  {
    if parent == [] then []
    else
      var k := |parent| - 1;
      SizesOfRoots(parent[..k], size[..k]) + (if parent[k] == k then [size[k]] else [])
  }

  predicate Ge(a: nat, b: nat) { a >= b }

  /** The three largest root sizes multiplied; `None` where there are fewer than three roots (IndexError). */
  function TopThree(sizes: seq<nat>): Option<int>
  {
    var sorted := Sorting.SortBy(Ge, sizes);
    if |sorted| < 3 then None else Some(sorted[0] * sorted[1] * sorted[2])
  }

  /** The descending sort of the sizes puts the three largest first. */
  lemma TopThreeLargest(sizes: seq<nat>)
    requires |sizes| >= 3
    ensures var sorted := Sorting.SortBy(Ge, sizes);
      multiset(sorted) == multiset(sizes) &&
      forall k :: 0 <= k < |sorted| ==> sorted[0] >= sorted[1] >= sorted[2] && (k >= 2 ==> sorted[2] >= sorted[k])
  {
    var sorted := Sorting.SortBy(Ge, sizes);
    assert Sorting.TotalPreorder(Ge);
    Sorting.SortPermutes(Ge, sizes);
    Sorting.SortSorted(Ge, sizes);
    forall k | 2 <= k < |sorted|
      ensures sorted[2] >= sorted[k]
    {
      Sorting.SortedAll(Ge, sorted, 2, k);
    }
  }

  // ---------------------------------------------------------------------------
  // Kruskal's circuits as labels
  // ---------------------------------------------------------------------------

  /** Every edge refers to one of `n` boxes. */
  predicate EdgesBelow(n: nat, es: seq<Edge>)
  {
    forall k :: 0 <= k < |es| ==> es[k].1 < n && es[k].2 < n
  }

  /** Union by size: of two roots, the one with fewer members goes under the other; a tie keeps `a`. */
  function Winner(labels: seq<nat>, a: nat, b: nat): (w: nat)
    ensures w == a || w == b
    ensures |MembersOf(labels, w)| >= |MembersOf(labels, a)| && |MembersOf(labels, w)| >= |MembersOf(labels, b)|
  {
    if |MembersOf(labels, a)| < |MembersOf(labels, b)| then b else a
  }

  /** Connecting a box labelled `a` with one labelled `b`: both groups take the winner's label. */
  function Merge(labels: seq<nat>, a: nat, b: nat): (l: seq<nat>)
    ensures |l| == |labels|
  {
    if a == b then labels
    else
      var w := Winner(labels, a, b);
      seq(|labels|, k requires 0 <= k < |labels| => if labels[k] == a || labels[k] == b then w else labels[k])
  }

  /**
   * Kruskal's circuits after connecting the first `m` pairs of `es` in order,
   * as one label per box, the labels being the ones union by size picks.
   */
  function Circuits(n: nat, es: seq<Edge>, m: nat): (l: seq<nat>)
    requires EdgesBelow(n, es) && m <= |es|
    ensures |l| == n
  {
    if m == 0 then seq(n, k => k)
    else
      var prev := Circuits(n, es, m - 1);
      var e := es[m - 1];
      Merge(prev, prev[e.1], prev[e.2])
  }

  /** Merging keeps every pair that shared a label together. */
  lemma MergeKeepsTogether(labels: seq<nat>, a: nat, b: nat, x: nat, y: nat)
    requires x < |labels| && y < |labels| && labels[x] == labels[y]
    ensures Merge(labels, a, b)[x] == Merge(labels, a, b)[y]
  {
  }

  /** The two boxes of every connection made end up in one circuit. */
  lemma {:induction false} ConnectedTogether(n: nat, es: seq<Edge>, m: nat)
    requires EdgesBelow(n, es) && m <= |es|
    ensures forall k :: 0 <= k < m ==> Circuits(n, es, m)[es[k].1] == Circuits(n, es, m)[es[k].2]
  {
    if m > 0 {
      ConnectedTogether(n, es, m - 1);
      var prev := Circuits(n, es, m - 1);
      var e := es[m - 1];
      forall k | 0 <= k < m
        ensures Circuits(n, es, m)[es[k].1] == Circuits(n, es, m)[es[k].2]
      {
        if k < m - 1 {
          MergeKeepsTogether(prev, prev[e.1], prev[e.2], es[k].1, es[k].2);
        }
      }
    }
  }

  /** After the first `m` connections all `n` boxes form one circuit. */
  predicate Spanning(n: nat, es: seq<Edge>, m: nat)
    requires EdgesBelow(n, es) && m <= |es|
  {
    n >= 1 && forall k :: 0 <= k < n ==> Circuits(n, es, m)[k] == Circuits(n, es, m)[0]
  }

  /** A root list with a single root labels every element alike, and back. */
  lemma OneComponent(parent: seq<nat>, size: seq<nat>, numComponents: nat, root: seq<nat>, rank: seq<nat>, maxRank: nat)
    requires Inv(parent, size, numComponents, root, rank, maxRank) && |parent| >= 1
    ensures numComponents == 1 <==> forall k :: 0 <= k < |parent| ==> root[k] == root[0]
  {
    var roots := RootsOf(parent);
    ForestAt(parent, root, rank, maxRank, 0);
    var r := root[0];
    ForestAt(parent, root, rank, maxRank, r);
    assert r in roots;
    if forall k :: 0 <= k < |parent| ==> root[k] == root[0] {
      forall k | k in roots
        ensures k == r
      {
        ForestAt(parent, root, rank, maxRank, k);
      }
      assert roots == {r};
    } else {
      var k :| 0 <= k < |parent| && root[k] != root[0];
      ForestAt(parent, root, rank, maxRank, k);
      ForestAt(parent, root, rank, maxRank, root[k]);
      assert root[k] in roots;
      SubsetCard({r, root[k]}, roots);
    }
  }

  /** Once every box is in one circuit, further connections keep it so. */
  lemma {:induction false} SpanningStays(n: nat, es: seq<Edge>, m: nat)
    requires EdgesBelow(n, es) && m <= |es| && Spanning(n, es, m)
    ensures Spanning(n, es, |es|)
    decreases |es| - m
  {
    if m < |es| {
      SpanningStays(n, es, m + 1);
    }
  }

  // ---------------------------------------------------------------------------
  // The connection loop
  // ---------------------------------------------------------------------------

  /** What `solve` prints, or a crash (IndexError when fewer than three circuits remain at the milestone). */
  datatype Outcome = Crash | Answers(part1: Option<int>, part2: Option<int>)

  /** Every edge refers to a box of `coords`. */
  predicate EdgesIn(coords: seq<Coord>, edges: seq<Edge>)
  {
    EdgesBelow(|coords|, edges)
  }

  /** One connection: the union-find makes the merge of the pure model, and one root means one circuit. */
  lemma ConnectStep(n: nat, edges: seq<Edge>, idx: nat, rootBefore: seq<nat>,
                    parent: seq<nat>, size: seq<nat>, numComponents: nat, root: seq<nat>, rank: seq<nat>, maxRank: nat)
    requires EdgesBelow(n, edges) && idx < |edges|
    requires rootBefore == Circuits(n, edges, idx) && |parent| == n
    requires Inv(parent, size, numComponents, root, rank, maxRank)
    requires var i, j := edges[idx].1, edges[idx].2;
      (rootBefore[i] == rootBefore[j] ==> root[i] == rootBefore[i]) &&
      (rootBefore[i] != rootBefore[j] ==> root[i] == Winner(rootBefore, rootBefore[i], rootBefore[j])) &&
      forall k :: 0 <= k < n ==> root[k] == if rootBefore[k] == rootBefore[i] || rootBefore[k] == rootBefore[j] then root[i] else rootBefore[k]
    ensures root == Circuits(n, edges, idx + 1)
    ensures numComponents == 1 <==> Spanning(n, edges, idx + 1)
    ensures rootBefore[edges[idx].1] != rootBefore[edges[idx].2] ==> !Spanning(n, edges, idx)
  {
    var i, j := edges[idx].1, edges[idx].2;
    var after := Circuits(n, edges, idx + 1);
    assert after == Merge(rootBefore, rootBefore[i], rootBefore[j]);
    assert root == after;
    OneComponent(parent, size, numComponents, root, rank, maxRank);
  }

  /** `uf.union(i, j)` for the connection at `idx`, seen through the pure model. */
  method ConnectPair(uf: UnionFind, n: nat, edges: seq<Edge>, idx: nat) returns (merged: bool)
    requires uf.Valid() && |uf.parent| == n && EdgesBelow(n, edges) && idx < |edges|
    requires uf.root == Circuits(n, edges, idx)
    modifies uf
    ensures uf.Valid() && |uf.parent| == n
    ensures uf.root == Circuits(n, edges, idx + 1)
    ensures uf.numComponents == 1 <==> Spanning(n, edges, idx + 1)
    ensures merged ==> !Spanning(n, edges, idx) && old(uf.numComponents) >= 2
    ensures uf.numComponents == old(uf.numComponents) - (if merged then 1 else 0)
  {
    ghost var rootBefore := uf.root;
    merged := uf.Union(edges[idx].1, edges[idx].2);
    ConnectStep(n, edges, idx, rootBefore, uf.parent, uf.size, uf.numComponents, uf.root, uf.rank, uf.maxRank);
  }

  /**
   * One pass of the loop body before the part 2 test: `union(i, j)`, then at
   * index 999 the product of the three largest circuit sizes, which raises
   * `IndexError` (`crash`) when there are fewer than three circuits.
   */
  method Connection(uf: UnionFind, n: nat, edges: seq<Edge>, idx: nat, part1Ans: Option<int>)
    returns (part1: Option<int>, crash: bool, merged: bool)
    requires uf.Valid() && |uf.parent| == n && EdgesBelow(n, edges) && idx < |edges|
    requires uf.root == Circuits(n, edges, idx)
    modifies uf
    ensures uf.Valid() && |uf.parent| == n
    ensures uf.root == Circuits(n, edges, idx + 1)
    ensures uf.numComponents == 1 <==> Spanning(n, edges, idx + 1)
    ensures merged ==> !Spanning(n, edges, idx) && old(uf.numComponents) >= 2
    ensures uf.numComponents == old(uf.numComponents) - (if merged then 1 else 0)
    ensures crash ==> idx == Milestone
    ensures !crash && idx != Milestone ==> part1 == part1Ans
    ensures !crash && idx == Milestone ==> part1.Some? && part1 == TopThree(SizesOfRoots(uf.parent, uf.size))
  {
    merged := ConnectPair(uf, n, edges, idx);
    part1, crash := part1Ans, false;
    if idx == Milestone {
      var allSizes := SizesOfRoots(uf.parent, uf.size);
      var top := TopThree(allSizes);
      if top.None? {
        crash := true;
        return;
      }
      part1 := top;
    }
  }

  /** `UnionFind(n)`: before any connection every box is its own circuit, so two or more boxes are not one. */
  method Start(n: nat, edges: seq<Edge>) returns (uf: UnionFind)
    requires EdgesBelow(n, edges)
    ensures fresh(uf) && uf.Valid() && |uf.parent| == n
    ensures uf.root == Circuits(n, edges, 0)
    ensures n >= 2 ==> !Spanning(n, edges, 0) && uf.numComponents >= 2
  {
    uf := new UnionFind(n);
    assert n >= 2 ==> Circuits(n, edges, 0)[1] != Circuits(n, edges, 0)[0];
  }

  /**
   * The connection loop over the sorted edges.  Part 2 is reported at the
   * first connection after which all boxes form one circuit, and the loop stops
   * there; without such a connection there is no part 2.  Part 1 is taken at
   * index 999 if the loop gets there.
   */
  method Connect(coords: seq<Coord>, edges: seq<Edge>) returns (outcome: Outcome, stop: nat)
    requires EdgesIn(coords, edges)
    ensures stop <= |edges|
    ensures outcome.Answers? && outcome.part2.Some? ==>
      stop < |edges| && Spanning(|coords|, edges, stop + 1) && !Spanning(|coords|, edges, stop) &&
      outcome.part2.value == coords[edges[stop].1].0 * coords[edges[stop].2].0
    ensures outcome.Answers? && outcome.part2.None? ==> stop == |edges| && (|coords| <= 1 || !Spanning(|coords|, edges, |edges|))
    ensures outcome.Answers? ==> (outcome.part1.Some? <==> Milestone <= stop && Milestone < |edges|)
    ensures outcome.Crash? ==> stop == Milestone < |edges| && (|coords| <= 1 || !Spanning(|coords|, edges, stop))
  {
    var n := |coords|;
    var uf := Start(n, edges);
    var part1Ans: Option<int> := None;
    var part2Ans: Option<int> := None;
    var idx := 0;
    while idx < |edges|
      invariant 0 <= idx <= |edges|
      invariant uf.Valid() && |uf.parent| == n
      invariant part1Ans.Some? <==> Milestone < idx
      invariant part2Ans.None?
      invariant uf.root == Circuits(n, edges, idx)
      invariant n >= 2 ==> !Spanning(n, edges, idx) && uf.numComponents >= 2
    {
      var (dist, i, j) := edges[idx];
      var crash, mergeHappened;
      part1Ans, crash, mergeHappened := Connection(uf, n, edges, idx, part1Ans);
      if crash {
        return Crash, idx;
      }
      if mergeHappened && uf.numComponents == 1 {
        part2Ans := Some(coords[i].0 * coords[j].0);
        break;
      }
      assert uf.root == Circuits(n, edges, idx + 1);
      idx := idx + 1;
    }
    return Answers(part1Ans, part2Ans), idx;
  }

  /** Sorting the pair list keeps exactly the pairs, in `EdgeLe` order. */
  lemma SortedPairs(coords: seq<Coord>, pairs: seq<Edge>)
    requires forall e: Edge :: e in pairs <==> IsPairEdge(coords, e)
    ensures var sorted := Sorting.SortBy<Edge>(EdgeLe, pairs);
      (forall e: Edge :: e in sorted <==> IsPairEdge(coords, e)) &&
      Sorting.SortedBy(EdgeLe, sorted) && EdgesBelow(|coords|, sorted)
  {
    var sorted := Sorting.SortBy<Edge>(EdgeLe, pairs);
    Sorting.SortPermutes(EdgeLe, pairs);
    EdgeLeTotalPreorder();
    Sorting.SortSorted(EdgeLe, pairs);
    forall e: Edge
      ensures e in sorted <==> IsPairEdge(coords, e)
    {
      assert e in sorted <==> e in multiset(pairs);
    }
    forall k | 0 <= k < |sorted|
      ensures sorted[k].1 < |coords| && sorted[k].2 < |coords|
    {
      assert sorted[k] in sorted;
    }
  }

  /** `solve`: parse, list and sort the pairs, then connect them shortest first. */
  method Solve(lines: seq<string>) returns (outcome: Outcome, ghost edges: seq<Edge>, stop: nat)
    ensures ParseCoords(lines).None? ==> outcome == Crash
    ensures ParseCoords(lines).Some? ==>
      var coords := ParseCoords(lines).value;
      (forall e: Edge :: e in edges <==> IsPairEdge(coords, e)) &&
      Sorting.SortedBy(EdgeLe, edges) && EdgesBelow(|coords|, edges) && stop <= |edges| &&
      (outcome.Answers? && outcome.part2.Some? ==>
        stop < |edges| && Spanning(|coords|, edges, stop + 1) && !Spanning(|coords|, edges, stop) &&
        outcome.part2.value == coords[edges[stop].1].0 * coords[edges[stop].2].0) &&
      (outcome.Answers? && outcome.part2.None? ==> |coords| <= 1 || !Spanning(|coords|, edges, |edges|)) &&
      (outcome.Answers? ==> (outcome.part1.Some? <==> Milestone <= stop && Milestone < |edges|)) &&
      (outcome.Crash? ==> stop == Milestone < |edges| && (|coords| <= 1 || !Spanning(|coords|, edges, stop)))
  {
    var parsed := ParseCoords(lines);
    if parsed.None? {
      return Crash, [], 0;
    }
    var coords := parsed.value;
    var pairs := PairEdges(coords);
    var sorted := Sorting.SortBy<Edge>(EdgeLe, pairs);
    edges := sorted;
    SortedPairs(coords, pairs);
    outcome, stop := Connect(coords, sorted);
  }
}
