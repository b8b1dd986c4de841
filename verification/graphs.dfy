/**
 Undirected, unweighted graphs given as adjacency lists, the shapes of the
 paths the search strategies build, and the cost oracle they all consult.
 */
module Graphs {
  import opened Wrappers

  /** Node identifiers; the graph generator numbers nodes 0 .. n-1. */
  type Node = int

  /** Adjacency lists, each in the graph library's iteration order. */
  type Graph = map<Node, seq<Node>>

  type Path = seq<Node>

  /** The external cost program: deterministic in (seed, path), None when it
      failed or printed something that is not a number. */
  type Oracle = (int, Path) -> Option<real>

  /** The exceptions the search code can raise. */
  datatype Error =
    | NoNeighbour       // ValueError: a node with no neighbour at all (baseline)
    | ZeroDivision      // a visit-memory weight of exactly -1e-6, or a density over no possible edge
    | NonPositiveTotal  // ValueError from random.choices: weights summing to <= 0
    | InvalidAction     // ValueError: an environment action that is not a neighbour
    | MissingKey        // KeyError or NetworkXError: a node absent from the graph
    | NodeNotFound      // networkx's NodeNotFound: a shortest-path query towards a goal outside the graph
    | Incomparable      // TypeError: a failed evaluation compared with `<`
    | OutOfFuel         // the step budget given to a possibly endless walk ran out

  predicate NoDup<T(==)>(s: seq<T>) {
    forall i, j | 0 <= i < j < |s| :: s[i] != s[j]
  }

  function Last<T>(s: seq<T>): T
    requires |s| > 0
  {
    s[|s| - 1]
  }

  /** Undirected, without self loops, without repeated neighbours, and every
      neighbour is itself a node. */
  ghost predicate ValidGraph(g: Graph) {
    && (forall n, m | n in g && m in g[n] :: m in g && n in g[m] && m != n)
    && (forall n | n in g :: NoDup(g[n]))
  }

  lemma NeighbourInGraph(g: Graph, n: Node, m: Node)
    requires ValidGraph(g) && n in g && m in g[n]
    ensures m in g && n in g[m]
  {
  }

  /** Consecutive nodes are joined by an edge. */
  ghost predicate Adjacent(g: Graph, p: Path) {
    forall i | 0 <= i < |p| - 1 :: p[i] in g && p[i + 1] in g[p[i]]
  }

  ghost predicate InGraph(g: Graph, p: Path) {
    forall i | 0 <= i < |p| :: p[i] in g
  }

  /** A simple path from s to t along edges of g. */
  ghost predicate Route(g: Graph, s: Node, t: Node, p: Path) {
    && |p| > 0
    && p[0] == s
    && Last(p) == t
    && NoDup(p)
    && Adjacent(g, p)
  }

  /** A walk from s to t along edges of g; nodes may repeat. */
  ghost predicate Walk(g: Graph, s: Node, t: Node, p: Path) {
    |p| > 0 && p[0] == s && Last(p) == t && Adjacent(g, p)
  }

  /** q continues p: p is a prefix of q and q adds only nodes that are not in p. */
  ghost predicate Continues(q: Path, p: Path) {
    && |p| <= |q|
    && q[..|p|] == p
    && forall i | |p| <= i < |q| :: q[i] !in p
  }

  /** The neighbours in nbrs that are not on the path, in their original order
      (`set(G.neighbors(current)) - visited`, where visited is the path's set). */
  function Unvisited(nbrs: seq<Node>, path: Path): (r: seq<Node>)
    ensures forall n :: n in r <==> n in nbrs && n !in path
  {
    if nbrs == [] then []
    else (if nbrs[0] in path then [] else [nbrs[0]]) + Unvisited(nbrs[1..], path)
  }

  /** Every node of the last node's neighbourhood is already on the path. */
  ghost predicate DeadEnd(g: Graph, p: Path)
    requires |p| > 0
  {
    Last(p) in g && forall n | n in g[Last(p)] :: n in p
  }

  lemma AppendNoDup(p: Path, n: Node)
    requires NoDup(p) && n !in p
    ensures NoDup(p + [n])
  {
  }

  lemma AppendAdjacent(g: Graph, p: Path, n: Node)
    requires |p| > 0 && Adjacent(g, p) && Last(p) in g && n in g[Last(p)]
    ensures Adjacent(g, p + [n])
  {
    var q := p + [n];
    forall i | 0 <= i < |q| - 1
      ensures q[i] in g && q[i + 1] in g[q[i]]
    {
      if i < |p| - 1 {
        assert q[i] == p[i] && q[i + 1] == p[i + 1];
      }
    }
  }

  lemma AppendContinues(q: Path, p: Path, n: Node)
    requires Continues(q, p) && n !in p
    ensures Continues(q + [n], p)
  {
    assert (q + [n])[..|p|] == q[..|p|];
  }

  /** The set of nodes on a path (Python's `set(path)`). */
  function Nodes(p: Path): set<Node> {
    set n | n in p
  }

  /** Adding a fresh node of the graph shrinks the set of nodes left to visit. */
  lemma FewerUnvisited(g: Graph, p: Path, n: Node)
    requires n in g && n !in p
    ensures |g.Keys - Nodes(p + [n])| < |g.Keys - Nodes(p)|
  {
    assert Nodes(p + [n]) == Nodes(p) + {n};
    assert g.Keys - Nodes(p + [n]) == (g.Keys - Nodes(p)) - {n};
    assert n in g.Keys - Nodes(p);
  }

  /** A walk that starts at a node of a valid graph stays inside the graph. */
  lemma AdjacentInGraph(g: Graph, p: Path)
    requires ValidGraph(g) && |p| > 0 && p[0] in g && Adjacent(g, p)
    ensures InGraph(g, p)
  {
    forall i | 0 <= i < |p|
      ensures p[i] in g
    {
      NodeInGraph(g, p, i);
    }
  }

  lemma {:induction false} NodeInGraph(g: Graph, p: Path, i: nat)
    requires ValidGraph(g) && i < |p| && p[0] in g && Adjacent(g, p)
    ensures p[i] in g
  {
    if i > 0 {
      NodeInGraph(g, p, i - 1);
      var prev, next := p[i - 1], p[i];
      assert prev in g && next in g[prev];
      assert next in g;
    }
  }
}
