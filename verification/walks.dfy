/**
 The two random walks of the Monte Carlo strategies (uniform and
 visit-memory-weighted) and the visit memory they share with the
 exploration strategy.
 */
module Walks {
  import opened Wrappers
  import opened Graphs
  import opened Randomness

  type Edge = (Node, Node)

  /** The visit memory, `defaultdict(lambda: 1.0)` keyed by directed edge.
      Only the weights as read through MemoryOf are modelled. */
  type Memory = map<Edge, real>

  const InitialWeight: real := 1.0

  /** The 1e-6 added to every memory weight before inverting it. */
  const Smoothing: real := 0.000001

  /** `defaultdict(lambda: 1.0)` before any update. */
  const FreshMemory: Memory := map[]

  function MemoryOf(m: Memory, e: Edge): real {
    if e in m then m[e] else InitialWeight
  }

  /** The selection weight of an edge whose memory weight is w. */
  function Inverse(w: real): real
    requires w + Smoothing != 0.0
  {
    1.0 / (w + Smoothing)
  }

  /** `[1 / (memory[(current, n)] + 1e-6) for n in candidates]`; None is the
      ZeroDivisionError raised on a weight of exactly -1e-6. */
  function SelectionWeights(m: Memory, current: Node, cands: seq<Node>): (r: Option<seq<real>>)
    ensures r.Some? <==> forall i | 0 <= i < |cands| :: MemoryOf(m, (current, cands[i])) + Smoothing != 0.0
    ensures r.Some? ==> |r.value| == |cands|
    ensures r.Some? ==> forall i | 0 <= i < |cands| :: r.value[i] == Inverse(MemoryOf(m, (current, cands[i])))
  {
    if cands == [] then Some([])
    else
      var w := MemoryOf(m, (current, cands[0]));
      if w + Smoothing == 0.0 then None
      else
        match SelectionWeights(m, current, cands[1..])
        case None => None
        case Some(rest) => Some([Inverse(w)] + rest)
  }

  lemma InversePositive(w: real)
    requires w > -Smoothing
    ensures Inverse(w) > 0.0
  {
  }

  /** A lighter memory weight gives a heavier selection weight. */
  lemma LighterMemoryHeavierWeight(a: real, b: real)
    requires -Smoothing < a < b
    ensures Inverse(a) > Inverse(b)
  {
    var x, y := a + Smoothing, b + Smoothing;
    assert 0.0 < x < y;
    assert Inverse(a) * x == 1.0 && Inverse(b) * y == 1.0;
    assert Inverse(a) - Inverse(b) == (y - x) / (x * y);
  }

  /** How the next node is drawn: uniformly, or in inverse proportion to the
      visit memory of the edge taken. */
  datatype Chooser = Uniform | Weighted(memory: Memory)

  ghost predicate MemoryAbove(m: Memory, floor: real) {
    forall e :: MemoryOf(m, e) > floor
  }

  /** The exceptions a weighted draw can raise. */
  predicate WeightError(e: Error) {
    e == ZeroDivision || e == NonPositiveTotal
  }

  datatype Picked = Picked(node: Node, pos: nat) | PickRaised(error: Error)

  /** `random.choice(candidates)` or `random.choices(candidates, weights, k=1)[0]`. */
  function Pick(how: Chooser, rng: Rng, pos: nat, current: Node, cands: seq<Node>): (r: Picked)
    requires |cands| > 0
    ensures r.Picked? ==> r.node in cands && r.pos == pos + 1
    ensures r.PickRaised? ==> how.Weighted? && WeightError(r.error)
    ensures how.Weighted? && MemoryAbove(how.memory, -Smoothing) ==> r.Picked?
  {
    match how
    case Uniform => Picked(Choice(rng, pos, cands), pos + 1)
    case Weighted(m) =>
      match SelectionWeights(m, current, cands)
      case None => PickRaised(ZeroDivision)
      case Some(ws) =>
        PositiveWeights(m, current, cands, ws);
        match WeightedIndex(rng, pos, ws)
        case None => PickRaised(NonPositiveTotal)
        case Some(i) => Picked(cands[i], pos + 1)
  }

  lemma PositiveWeights(m: Memory, current: Node, cands: seq<Node>, ws: seq<real>)
    requires |cands| > 0 && SelectionWeights(m, current, cands) == Some(ws)
    ensures MemoryAbove(m, -Smoothing) ==> Sum(ws) > 0.0
  {
    if MemoryAbove(m, -Smoothing) {
      forall i | 0 <= i < |ws|
        ensures ws[i] > 0.0
      {
        InversePositive(MemoryOf(m, (current, cands[i])));
      }
      SumPositive(ws);
    }
  }

  /** A path the walks can continue: simple, along edges, ending at a node. */
  ghost predicate Walkable(g: Graph, p: Path) {
    |p| > 0 && Last(p) in g && NoDup(p) && Adjacent(g, p)
  }

  /** Stepping to an unvisited neighbour keeps the path walkable and leaves
      fewer nodes to visit. */
  lemma WalkableAppend(g: Graph, path: Path, n: Node)
    requires ValidGraph(g) && Walkable(g, path) && n in g[Last(path)] && n !in path
    ensures Walkable(g, path + [n]) && Last(path + [n]) == n
    ensures |g.Keys - Nodes(path + [n])| < |g.Keys - Nodes(path)|
  {
    NeighbourInGraph(g, Last(path), n);
    FewerUnvisited(g, path, n);
    AppendNoDup(path, n);
    AppendAdjacent(g, path, n);
  }

  datatype Walked = Walked(path: Path, pos: nat) | WalkRaised(error: Error)

  /** The loop `while current != target` of both walks, continuing path. It
      stops at target or where no neighbour of the current node is unvisited. */
  function WalkOn(g: Graph, target: Node, how: Chooser, rng: Rng, path: Path, pos: nat): (r: Walked)
    requires ValidGraph(g) && Walkable(g, path)
    ensures r.Walked? ==> WalkedFrom(g, target, r.path, path)
    ensures r.WalkRaised? ==> WeightError(r.error)
    decreases |g.Keys - Nodes(path)|
  {
    var current := Last(path);
    if current == target then Walked(path, pos)
    else
      var cands := Unvisited(g[current], path);
      if cands == [] then Walked(path, pos)
      else
        match Pick(how, rng, pos, current, cands)
        case PickRaised(e) => WalkRaised(e)
        case Picked(next, pos') =>
          WalkableAppend(g, path, next);
          var r := WalkOn(g, target, how, rng, path + [next], pos');
          if r.Walked? then
            WalkedStep(g, target, r.path, path, next);
            r
          else r
  }

  /** q is how the walk loop can end from path: it continues path with
      fresh nodes, stays simple and along edges, and stops at the target,
      met only there, or at a dead end. */
  ghost predicate WalkedFrom(g: Graph, target: Node, q: Path, path: Path)
    requires |path| > 0
  {
    && Continues(q, path)
    && Walkable(g, q)
    && (Last(q) == target || DeadEnd(g, q))
    && forall i | |path| - 1 <= i < |q| - 1 :: q[i] != target
  }

  /** A walk ending that holds after one more step from a node that is not
      the target holds before it. */
  lemma WalkedStep(g: Graph, target: Node, q: Path, path: Path, next: Node)
    requires |path| > 0 && next !in path && Last(path) != target
    requires WalkedFrom(g, target, q, path + [next])
    ensures WalkedFrom(g, target, q, path)
  {
    ContinuesStep(q, path, next);
  }

  /** Only a weighted draw can raise, and only when some memory weight is at
      or below -1e-6. */
  lemma {:induction false} WalkOnTotal(g: Graph, target: Node, how: Chooser, rng: Rng, path: Path, pos: nat)
    requires ValidGraph(g) && Walkable(g, path)
    ensures how.Uniform? || MemoryAbove(how.memory, -Smoothing) ==> WalkOn(g, target, how, rng, path, pos).Walked?
    decreases |g.Keys - Nodes(path)|
  {
    var current := Last(path);
    if current != target && (how.Uniform? || MemoryAbove(how.memory, -Smoothing)) {
      var cands := Unvisited(g[current], path);
      if cands != [] {
        var next := Pick(how, rng, pos, current, cands);
        WalkableAppend(g, path, next.node);
        WalkOnTotal(g, target, how, rng, path + [next.node], next.pos);
      }
    }
  }

  lemma ContinuesStep(q: Path, p: Path, n: Node)
    requires |p| > 0 && n !in p && Continues(q, p + [n])
    ensures Continues(q, p) && q[|p| - 1] == Last(p) && q[|p|] == n
  {
    assert q[..|p| + 1][..|p|] == q[..|p|];
    assert q[|p| - 1] == q[..|p| + 1][|p| - 1];
    assert q[|p|] == q[..|p| + 1][|p|];
  }

  /** A walk from s that got stuck before reaching t: simple, along edges,
      t nowhere on it, and every neighbour of its last node already on it. */
  ghost predicate StuckWalk(g: Graph, s: Node, t: Node, w: Path) {
    && |w| > 0 && w[0] == s
    && Walkable(g, w)
    && t !in w
    && DeadEnd(g, w)
  }

  /** No walk from s can get stuck before t, so every walk reaches it. */
  ghost predicate NeverStuck(g: Graph, s: Node, t: Node) {
    forall w :: !StuckWalk(g, s, t, w)
  }

  /** A walk that starts at the target is never stuck before it. */
  lemma SameEndsNeverStuck(g: Graph, s: Node)
    ensures NeverStuck(g, s, s)
  {
    forall w
      ensures !StuckWalk(g, s, s, w)
    {
      if |w| > 0 && w[0] == s {
        assert s in w;
      }
    }
  }

  datatype Drawn = Drawn(path: Option<Path>, pos: nat) | DrawRaised(error: Error)

  /** `generate_random_path` (how = Uniform) and `generate_random_path_weighted`
      (how = Weighted(memory)): a simple path from source to target, or None
      when the walk reached a node whose neighbours were all visited. */
  function RandomPath(g: Graph, source: Node, target: Node, how: Chooser, rng: Rng, pos: nat): (r: Drawn)
    requires ValidGraph(g) && source in g
    ensures r.Drawn? && r.path.Some? ==> Route(g, source, target, r.path.value)
    ensures r.Drawn? && r.path.None? ==> exists w :: StuckWalk(g, source, target, w)
    ensures source == target ==> r == Drawn(Some([source]), pos)
    ensures r.DrawRaised? ==> WeightError(r.error)
    ensures how.Uniform? ==> r.Drawn?
    ensures how.Weighted? && MemoryAbove(how.memory, -Smoothing) ==> r.Drawn?
  {
    WalkOnTotal(g, target, how, rng, [source], pos);
    match WalkOn(g, target, how, rng, [source], pos)
    case WalkRaised(e) => DrawRaised(e)
    case Walked(w, pos') =>
      assert w[..1] == [source];
      if Last(w) == target then Drawn(Some(w), pos')
      else
        assert target !in w by {
          forall i | 0 <= i < |w|
            ensures w[i] != target
          {
          }
        }
        assert StuckWalk(g, source, target, w);
        Drawn(None, pos')
  }

  /** The directed edges of a path, `(path[i], path[i+1])` in order. */
  function Edges(p: Path): (r: seq<Edge>)
    ensures |r| == if |p| == 0 then 0 else |p| - 1
    ensures forall i | 0 <= i < |r| :: r[i] == (p[i], p[i + 1])
  {
    if |p| < 2 then [] else [(p[0], p[1])] + Edges(p[1..])
  }

  /** What the edge e gains when every edge of es gains penalty: one
      penalty per occurrence. */
  function Gain(es: seq<Edge>, e: Edge, penalty: real): real {
    if es == [] then 0.0 else (if es[0] == e then penalty else 0.0) + Gain(es[1..], e, penalty)
  }

  /** `memory[e] += penalty` for every e of es, in order. */
  function AddPenalty(m: Memory, es: seq<Edge>, penalty: real): (r: Memory)
    ensures forall e :: MemoryOf(r, e) == MemoryOf(m, e) + Gain(es, e, penalty)
    decreases |es|
  {
    if es == [] then m
    else AddPenalty(m[es[0] := MemoryOf(m, es[0]) + penalty], es[1..], penalty)
  }

  /** `for i in range(len(path) - 1): memory[(path[i], path[i+1])] += penalty`. */
  function Penalize(m: Memory, p: Path, penalty: real): (r: Memory)
    ensures forall e :: MemoryOf(r, e) == MemoryOf(m, e) + Gain(Edges(p), e, penalty)
  {
    AddPenalty(m, Edges(p), penalty)
  }

  /** On a simple path every edge appears once: each edge of the path gains
      exactly the penalty and every other weight is unchanged. */
  lemma PenalizeSimplePath(m: Memory, p: Path, penalty: real)
    requires NoDup(p)
    ensures forall e :: (MemoryOf(Penalize(m, p, penalty), e)
      == if e in Edges(p) then MemoryOf(m, e) + penalty else MemoryOf(m, e))
  {
    var es := Edges(p);
    assert NoDup(es) by {
      forall i, j | 0 <= i < j < |es|
        ensures es[i] != es[j]
      {
        assert es[i] == (p[i], p[i + 1]) && es[j] == (p[j], p[j + 1]);
      }
    }
    forall e
      ensures Gain(es, e, penalty) == if e in es then penalty else 0.0
    {
      GainOnce(es, e, penalty);
    }
  }

  lemma {:induction false} GainOnce(es: seq<Edge>, e: Edge, penalty: real)
    requires NoDup(es)
    ensures Gain(es, e, penalty) == if e in es then penalty else 0.0
  {
    if es != [] {
      assert NoDup(es[1..]) by {
        forall i, j | 0 <= i < j < |es[1..]|
          ensures es[1..][i] != es[1..][j]
        {
          assert es[1..][i] == es[i + 1] && es[1..][j] == es[j + 1];
        }
      }
      GainOnce(es[1..], e, penalty);
      assert es[0] !in es[1..] by {
        forall i | 0 <= i < |es[1..]|
          ensures es[1..][i] != es[0]
        {
          assert es[1..][i] == es[i + 1];
        }
      }
      assert e in es <==> e == es[0] || e in es[1..];
    }
  }
}
