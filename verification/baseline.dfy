/**
 The greedy baseline: a lookahead walk that never steps straight back
 unless it must, ranking the neighbours of the current node by the cost of
 one sampled random completion from each.
 */
module Baseline {
  import opened Wrappers
  import opened Graphs
  import opened Randomness
  import opened Anytime

  // ---------------------------------------------------------------------
  // Sizing

  /** Python's `int(x)`: truncation toward zero. */
  function Trunc(x: real): (r: int)
    ensures x >= 0.0 ==> 0 <= r && r as real <= x < r as real + 1.0
    ensures x < 0.0 ==> r <= 0 && r as real - 1.0 < x <= r as real
  {
    if x >= 0.0 then x.Floor else -((-x).Floor)
  }

  const SizeAlpha: real := 0.1
  const SizeBeta: real := 0.5

  /** `compute_num_random_paths`: `max(1, int(alpha * n + beta * density * n) + 1)`. */
  function ComputeNumRandomPaths(numNodes: int, density: real): (r: int)
    ensures r >= 1
    ensures var x := SizeAlpha * numNodes as real + SizeBeta * density * numNodes as real;
      x >= 0.0 ==> (r - 1) as real <= x < r as real
  {
    var x := SizeAlpha * numNodes as real + SizeBeta * density * numNodes as real;
    var k := Trunc(x) + 1;
    if k > 1 then k else 1
  }

  /** The undirected edges, each once (the graph library's `G.edges()`). */
  function EdgeSet(g: Graph): set<(Node, Node)> {
    set n, m | n in g && m in g[n] && n < m :: (n, m)
  }

  /** `len(G.edges()) / (n * (n - 1) / 2)`; None is the ZeroDivisionError of
      a graph with at most one node. */
  function Density(g: Graph): (r: Option<real>)
    ensures r.None? <==> |g.Keys| <= 1
    ensures r.Some? ==> r.value >= 0.0
  {
    var n := |g.Keys|;
    if n <= 1 then None
    else
      var possible := (n * (n - 1)) as real / 2.0;
      assert possible > 0.0;
      Some(|EdgeSet(g)| as real / possible)
  }

  /** How many completions `baseline_method` would sample per neighbour:
      the caller's count, or one computed from the caller's density or the
      graph's own. The count is only reported. */
  function SampleCount(g: Graph, density: Option<real>, given: Option<int>): (r: Option<int>)
    ensures r.None? <==> given.None? && density.None? && |g.Keys| <= 1
    ensures given.None? && r.Some? ==> r.value >= 1
  {
    if given.Some? then given
    else if density.Some? then Some(ComputeNumRandomPaths(|g.Keys|, density.value))
    else
      match Density(g)
      case None => None
      case Some(d) => Some(ComputeNumRandomPaths(|g.Keys|, d))
  }

  // ---------------------------------------------------------------------
  // Walks without immediate backtracking

  /** `list.remove(x)`: drop the first occurrence of x. */
  function Remove(s: seq<Node>, x: Node): (r: seq<Node>)
    requires x in s
    ensures |r| == |s| - 1
    ensures forall y | y != x :: y in r <==> y in s
    ensures NoDup(s) ==> x !in r && NoDup(r)
  {
    if s[0] == x then s[1..]
    else
      var r := [s[0]] + Remove(s[1..], x);
      assert NoDup(s) ==> s[0] !in s[1..] by {
        if NoDup(s) {
          forall i | 1 <= i < |s|
            ensures s[i] != s[0]
          {
          }
        }
      }
      r
  }

  /** Remove takes out exactly the first occurrence and keeps the order of
      everything else. */
  lemma {:induction false} RemoveFirstOccurrence(s: seq<Node>, x: Node)
    requires x in s
    ensures RemovesFirst(s, x, Remove(s, x))
  {
    if s[0] == x {
      assert s[..0] + s[1..] == s[1..];
      assert RemovedAt(s, x, s[1..], 0);
    } else {
      RemoveFirstOccurrence(s[1..], x);
      var i :| 0 <= i < |s| - 1 && RemovedAt(s[1..], x, Remove(s[1..], x), i);
      RemovedUnderHead(s[0], s[1..], x, Remove(s[1..], x), i);
      assert [s[0]] + s[1..] == s;
    }
  }

  /** A head other than x moves the first occurrence one place on. */
  lemma RemovedUnderHead(a: Node, t: seq<Node>, x: Node, rest: seq<Node>, i: int)
    requires a != x && 0 <= i < |t| && RemovedAt(t, x, rest, i)
    ensures RemovedAt([a] + t, x, [a] + rest, i + 1)
  {
    var s := [a] + t;
    assert s[..i + 1] == [a] + t[..i];
    assert s[i + 2..] == t[i + 1..];
  }

  /** r is s less its first occurrence of x. */
  ghost predicate RemovesFirst(s: seq<Node>, x: Node, r: seq<Node>)
  {
    exists i | 0 <= i < |s| :: RemovedAt(s, x, r, i)
  }

  /** The first occurrence of x in s is at i, and r is s without it. */
  ghost predicate RemovedAt(s: seq<Node>, x: Node, r: seq<Node>, i: int)
    requires 0 <= i < |s|
  {
    s[i] == x && x !in s[..i] && r == s[..i] + s[i + 1..]
  }

  /** The neighbours a step may take: all of them, less the previous node
      when it is one of several. */
  function Candidates(nbrs: seq<Node>, previous: Option<Node>): (r: seq<Node>)
    requires NoDup(nbrs)
    ensures |nbrs| > 0 ==> |r| > 0
    ensures forall y :: y in r ==> y in nbrs
    ensures forall y | previous.None? || y != previous.value :: y in nbrs ==> y in r
    ensures previous.Some? && previous.value in r ==> previous.value !in nbrs || |nbrs| <= 1
  {
    if previous.Some? && previous.value in nbrs && |nbrs| > 1 then Remove(nbrs, previous.value) else nbrs
  }

  /** No immediate step back, unless the node in between has a single
      neighbour. */
  ghost predicate NoBacktrack(g: Graph, p: Path) {
    forall i | 0 <= i < |p| - 2 :: p[i + 2] == p[i] ==> p[i + 1] in g && |g[p[i + 1]]| == 1
  }

  /** The loop state shared by both walks: path ends at current, follows
      edges and never backtracks, and previous is the node before current. */
  ghost predicate Walking(g: Graph, current: Node, previous: Option<Node>, path: Path) {
    && |path| > 0
    && Last(path) == current
    && current in g
    && Adjacent(g, path)
    && NoBacktrack(g, path)
    && (previous.None? <==> |path| == 1)
    && (previous.Some? ==> previous.value == path[|path| - 2])
  }

  /** Stepping from current to a candidate keeps the walk state. */
  lemma WalkingStep(g: Graph, current: Node, previous: Option<Node>, path: Path, next: Node)
    requires ValidGraph(g) && Walking(g, current, previous, path)
    requires next in Candidates(g[current], previous)
    ensures Walking(g, next, Some(current), path + [next])
  {
    NeighbourInGraph(g, current, next);
    AppendAdjacent(g, path, next);
    NoBacktrackStep(g, current, previous, path, next);
  }

  /** A candidate is never the node just left, unless it is the only neighbour. */
  lemma NoBacktrackStep(g: Graph, current: Node, previous: Option<Node>, path: Path, next: Node)
    requires ValidGraph(g) && Walking(g, current, previous, path)
    requires next in Candidates(g[current], previous)
    ensures NoBacktrack(g, path + [next])
  {
    var p := path + [next];
    forall i | 0 <= i < |p| - 2 && p[i + 2] == p[i]
      ensures p[i + 1] in g && |g[p[i + 1]]| == 1
    {
      if i < |path| - 2 {
        assert p[i] == path[i] && p[i + 1] == path[i + 1] && p[i + 2] == path[i + 2];
      } else {
        assert p[i + 1] == current && p[i] == previous.value && p[i + 2] == next;
        ForcedBack(g[current], previous, next);
      }
    }
  }

  /** Going back to the previous node is a candidate only for a single neighbour. */
  lemma ForcedBack(nbrs: seq<Node>, previous: Option<Node>, next: Node)
    requires NoDup(nbrs) && next in Candidates(nbrs, previous)
    requires previous.Some? && next == previous.value
    ensures |nbrs| == 1
  {
  }

  /** A node without neighbours can only be where the walk started. */
  lemma IsolatedStart(g: Graph, current: Node, previous: Option<Node>, path: Path)
    requires ValidGraph(g) && Walking(g, current, previous, path) && g[current] == []
    ensures previous.None? && |path| == 1
  {
    if previous.Some? {
      NeighbourInGraph(g, previous.value, current);
    }
  }

  datatype Sampled = Sampled(path: Path, pos: nat) | SampleRaised(error: Error)

  /** The loop of the baseline's `generate_random_path` from current, with
      at most fuel more passes. */
  function SampleFrom(g: Graph, target: Node, rng: Rng, current: Node, previous: Option<Node>, path: Path, pos: nat, fuel: nat): (r: Sampled)
    requires ValidGraph(g) && Walking(g, current, previous, path)
    ensures r.Sampled? ==> |r.path| >= |path| && r.path[0] == path[0] && Last(r.path) == target
    ensures r.Sampled? ==> Adjacent(g, r.path) && NoBacktrack(g, r.path)
    ensures r.SampleRaised? ==> r.error == OutOfFuel || (r.error == NoNeighbour && |path| == 1 && g[current] == [])
    ensures current == target ==> r == Sampled(path, pos)
    decreases fuel
  {
    if current == target then Sampled(path, pos)
    else if fuel == 0 then SampleRaised(OutOfFuel)
    else
      var nbrs := g[current];
      if nbrs == [] then
        IsolatedStart(g, current, previous, path);
        SampleRaised(NoNeighbour)
      else
        var cands := Candidates(nbrs, previous);
        if target in cands then
          WalkingStep(g, current, previous, path, target);
          Sampled(path + [target], pos)
        else
          var next := Choice(rng, pos, cands);
          WalkingStep(g, current, previous, path, next);
          SampleFrom(g, target, rng, next, Some(current), path + [next], pos + 1, fuel - 1)
  }

  /** A sampled walk extends the walk so far; each of its steps takes a
      candidate, the target is appended as soon as it is a candidate, and
      not before. */
  lemma {:induction false} SampledWalk(g: Graph, target: Node, rng: Rng, current: Node, previous: Option<Node>, path: Path, pos: nat, fuel: nat)
    requires ValidGraph(g) && Walking(g, current, previous, path)
    ensures var r := SampleFrom(g, target, rng, current, previous, path, pos, fuel);
      && (r.Sampled? ==> r.path[..|path|] == path && SampledFrom(g, target, r.path, |path| - 1))
      && (r.Sampled? && current != target ==> |r.path| > |path|)
      && (fuel > 0 && current != target && g[current] != [] && target in Candidates(g[current], previous)
          ==> r == Sampled(path + [target], pos))
    decreases fuel
  {
    var r := SampleFrom(g, target, rng, current, previous, path, pos, fuel);
    if current == target || fuel == 0 || g[current] == [] {
    } else {
      var cands := Candidates(g[current], previous);
      if target in cands {
        SampledExtend(g, target, current, previous, path, cands, target, path + [target]);
      } else {
        var next := Choice(rng, pos, cands);
        WalkingStep(g, current, previous, path, next);
        SampledWalk(g, target, rng, next, Some(current), path + [next], pos + 1, fuel - 1);
        if r.Sampled? {
          SampledExtend(g, target, current, previous, path, cands, next, r.path);
        }
      }
    }
  }

  /** The previous node of position i on a path, as a walk passes it to
      the step out of i. */
  function PrevAt(p: Path, i: nat): (r: Option<Node>)
    requires i < |p|
    ensures r.None? <==> i == 0
    ensures r.Some? ==> r.value == p[i - 1]
  {
    if i == 0 then None else Some(p[i - 1])
  }

  /** Step i of a sampled walk took one of the candidates at p[i], and the
      target was among those candidates exactly at the last step. */
  ghost predicate SampledStep(g: Graph, target: Node, p: Path, i: int)
    requires 0 <= i < |p| - 1
  {
    && p[i] in g
    && NoDup(g[p[i]])
    && var c := Candidates(g[p[i]], PrevAt(p, i));
       p[i + 1] in c && (target in c <==> i == |p| - 2)
  }

  /** Every step of p from position `from` on is a sampled step. */
  ghost predicate SampledFrom(g: Graph, target: Node, p: Path, from: int) {
    forall i | from <= i < |p| - 1 && 0 <= i :: SampledStep(g, target, p, i)
  }

  /** A sampled continuation of path + [next] is a sampled continuation of
      path. */
  lemma SampledExtend(g: Graph, target: Node, current: Node, previous: Option<Node>, path: Path, cands: seq<Node>, next: Node, q: Path)
    requires ValidGraph(g) && Walking(g, current, previous, path)
    requires cands == Candidates(g[current], previous) && next in cands
    requires |q| > |path| && q[..|path| + 1] == path + [next]
    requires target in cands <==> |q| == |path| + 1
    requires SampledFrom(g, target, q, |path|)
    ensures q[..|path|] == path && SampledFrom(g, target, q, |path| - 1)
  {
    assert q[..|path|] == (path + [next])[..|path|] == path;
    SampleStepHolds(g, target, current, previous, path, cands, next, q);
  }

  /** The step out of the walk's current end into q's next node is a
      sampled step when the target is among the candidates exactly when q
      ends there. */
  lemma SampleStepHolds(g: Graph, target: Node, current: Node, previous: Option<Node>, path: Path, cands: seq<Node>, next: Node, q: Path)
    requires ValidGraph(g) && Walking(g, current, previous, path)
    requires cands == Candidates(g[current], previous) && next in cands
    requires |q| > |path| && q[..|path| + 1] == path + [next]
    requires target in cands <==> |q| == |path| + 1
    ensures SampledStep(g, target, q, |path| - 1)
  {
    var i := |path| - 1;
    assert q[i] == (path + [next])[i] == current;
    assert q[i + 1] == (path + [next])[i + 1] == next;
    if i > 0 {
      assert q[i - 1] == (path + [next])[i - 1] == path[i - 1];
    }
    assert PrevAt(q, i) == previous;
  }

  /** Step i of a walk drawn by the sampling loop, whose draws start at
      position pos at node w[from]: the target was not among the candidates,
      and the next node is the draw from them. */
  ghost predicate FruitlessStep(g: Graph, target: Node, rng: Rng, w: Path, from: int, pos: nat, i: int)
    requires 0 <= from <= i < |w| - 1
  {
    && w[i] in g
    && NoDup(g[w[i]])
    && var c := Candidates(g[w[i]], PrevAt(w, i));
       c != [] && target !in c && w[i + 1] == Choice(rng, pos + (i - from), c)
  }

  /** Every step of w from position `from` on is a fruitless draw. */
  ghost predicate FruitlessFrom(g: Graph, target: Node, rng: Rng, w: Path, from: int, pos: nat)
    requires 0 <= from
  {
    forall i | from <= i < |w| - 1 :: FruitlessStep(g, target, rng, w, from, pos, i)
  }

  /** w continues path by fuel draws of the sampling loop from pos, none of
      which met the target: the walk the loop was on when its budget ran out. */
  ghost predicate Starved(g: Graph, target: Node, rng: Rng, path: Path, pos: nat, fuel: nat, w: Path)
    requires |path| > 0
  {
    && |w| == |path| + fuel
    && w[..|path|] == path
    && Last(w) != target
    && FruitlessFrom(g, target, rng, w, |path| - 1, pos)
  }

  /** The sampling loop gives up only after it has drawn fuel steps, none
      of which had the target among its candidates. */
  lemma {:induction false} SampleStarved(g: Graph, target: Node, rng: Rng, current: Node, previous: Option<Node>, path: Path, pos: nat, fuel: nat)
    requires ValidGraph(g) && Walking(g, current, previous, path)
    ensures SampleFrom(g, target, rng, current, previous, path, pos, fuel) == SampleRaised(OutOfFuel) ==>
      exists w :: Starved(g, target, rng, path, pos, fuel, w)
    decreases fuel
  {
    if SampleFrom(g, target, rng, current, previous, path, pos, fuel) == SampleRaised(OutOfFuel) {
      if fuel == 0 {
        assert path[..|path|] == path;
        assert Starved(g, target, rng, path, pos, 0, path);
      } else {
        var cands := Candidates(g[current], previous);
        var next := Choice(rng, pos, cands);
        WalkingStep(g, current, previous, path, next);
        SampleStarved(g, target, rng, next, Some(current), path + [next], pos + 1, fuel - 1);
        var w :| Starved(g, target, rng, path + [next], pos + 1, fuel - 1, w);
        StarvedStep(g, target, rng, current, previous, path, pos, fuel, cands, next, w);
      }
    }
  }

  /** Fuel - 1 fruitless draws after a fruitless draw of next are fuel
      fruitless draws. */
  lemma StarvedStep(g: Graph, target: Node, rng: Rng, current: Node, previous: Option<Node>, path: Path, pos: nat, fuel: nat, cands: seq<Node>, next: Node, w: Path)
    requires ValidGraph(g) && Walking(g, current, previous, path) && fuel > 0
    requires cands == Candidates(g[current], previous) && cands != [] && target !in cands
    requires next == Choice(rng, pos, cands)
    requires Starved(g, target, rng, path + [next], pos + 1, fuel - 1, w)
    ensures Starved(g, target, rng, path, pos, fuel, w)
  {
    var k := |path|;
    assert w[..k] == (path + [next])[..k] == path;
    assert w[k - 1] == (path + [next])[k - 1] == current;
    assert w[k] == (path + [next])[k] == next;
    if k > 1 {
      assert w[k - 2] == (path + [next])[k - 2] == path[k - 2];
    }
    assert PrevAt(w, k - 1) == previous;
    assert FruitlessStep(g, target, rng, w, k - 1, pos, k - 1);
    FruitlessShift(g, target, rng, w, k - 1, pos);
  }

  /** A fruitless draw at `from` followed by fruitless draws from the next
      draw position on. */
  lemma FruitlessShift(g: Graph, target: Node, rng: Rng, w: Path, from: nat, pos: nat)
    requires from < |w| - 1
    requires FruitlessStep(g, target, rng, w, from, pos, from)
    requires FruitlessFrom(g, target, rng, w, from + 1, pos + 1)
    ensures FruitlessFrom(g, target, rng, w, from, pos)
  {
    forall i | from < i < |w| - 1
      ensures FruitlessStep(g, target, rng, w, from, pos, i)
    {
      assert FruitlessStep(g, target, rng, w, from + 1, pos + 1, i);
    }
  }

  /** The baseline's `generate_random_path(G, start, target)`: a walk from
      start to target along edges that never backtracks unless forced; it
      may revisit nodes. */
  function SamplePath(g: Graph, start: Node, target: Node, rng: Rng, pos: nat, fuel: nat): (r: Sampled)
    requires ValidGraph(g) && start in g
    ensures r.Sampled? ==> Walk(g, start, target, r.path) && NoBacktrack(g, r.path)
    ensures r.SampleRaised? ==> r.error == OutOfFuel || (r.error == NoNeighbour && g[start] == [])
    ensures start == target ==> r == Sampled([start], pos)
    ensures r.Sampled? ==> SampledFrom(g, target, r.path, 0)
    ensures fuel > 0 && start != target && target in g[start] ==> r == Sampled([start, target], pos)
    ensures r == SampleRaised(OutOfFuel) ==> exists w :: Starved(g, target, rng, [start], pos, fuel, w)
  {
    SampledWalk(g, target, rng, start, None, [start], pos, fuel);
    SampleStarved(g, target, rng, start, None, [start], pos, fuel);
    SampleFrom(g, target, rng, start, None, [start], pos, fuel)
  }

  // ---------------------------------------------------------------------
  // Ranking the candidates

  /** The exceptions ranking can raise. */
  predicate RankError(e: Error) {
    e == OutOfFuel || e == Incomparable
  }

  datatype Ranking = Ranked(best: Best, evaluations: seq<Eval>, pos: nat) | RankRaised(error: Error)

  /** Evaluation i is the sampled completion from cands[i]: a walk from it
      to target that the sampling loop can draw, with the oracle's cost for
      it. */
  ghost predicate Completions(g: Graph, target: Node, seed: int, oracle: Oracle, cands: seq<Node>, evals: seq<Eval>) {
    && |evals| == |cands|
    && forall i | 0 <= i < |cands| ::
         && Walk(g, cands[i], target, evals[i].path)
         && NoBacktrack(g, evals[i].path)
         && SampledFrom(g, target, evals[i].path, 0)
         && evals[i].cost.Some?
         && evals[i].cost == oracle(seed, evals[i].path)
  }

  /** The completion sampled from n at draw position q fails with err:
      the sampling raised it, or the oracle gave no cost and comparing None
      raised. */
  ghost predicate SampleFails(g: Graph, target: Node, seed: int, oracle: Oracle, rng: Rng, n: Node, q: nat, fuel: nat, err: Error) {
    && ValidGraph(g)
    && n in g
    && match SamplePath(g, n, target, rng, q, fuel)
       case SampleRaised(e) => e == err
       case Sampled(p, _) => err == Incomparable && oracle(seed, p).None?
  }

  /** Some candidate's completion failed with err. */
  ghost predicate RankingFailed(g: Graph, target: Node, seed: int, oracle: Oracle, rng: Rng, cands: seq<Node>, fuel: nat, err: Error) {
    exists i, q: nat | 0 <= i < |cands| :: SampleFails(g, target, seed, oracle, rng, cands[i], q, fuel, err)
  }

  /** The `for neighbor in neighbors` loop from the local best so far: one
      completion is sampled and evaluated per candidate, and a failed
      evaluation raises the TypeError of comparing None with a number. */
  function RankFrom(g: Graph, target: Node, seed: int, oracle: Oracle, rng: Rng, cands: seq<Node>, local: Best, pos: nat, fuel: nat): (r: Ranking)
    requires ValidGraph(g) && forall n | n in cands :: n in g
    ensures r.Ranked? ==> r.best == TrackFrom(local, r.evaluations)
    ensures r.Ranked? ==> Completions(g, target, seed, oracle, cands, r.evaluations)
    ensures r.RankRaised? ==> RankError(r.error) || (r.error == NoNeighbour && exists i | 0 <= i < |cands| :: cands[i] in g && g[cands[i]] == [])
    ensures r.RankRaised? ==> RankingFailed(g, target, seed, oracle, rng, cands, fuel, r.error)
    decreases |cands|
  {
    if cands == [] then Ranked(local, [], pos)
    else
      match SamplePath(g, cands[0], target, rng, pos, fuel)
      case SampleRaised(err) =>
        assert SampleFails(g, target, seed, oracle, rng, cands[0], pos, fuel, err);
        RankRaised(err)
      case Sampled(p, pos') =>
        var cost := oracle(seed, p);
        if cost.None? then
          assert SampleFails(g, target, seed, oracle, rng, cands[0], pos, fuel, Incomparable);
          RankRaised(Incomparable)
        else
          var e := Eval(p, cost);
          match RankFrom(g, target, seed, oracle, rng, cands[1..], Improve(local, e), pos', fuel)
          case RankRaised(err) =>
            assert forall i | 0 <= i < |cands| - 1 :: cands[1..][i] == cands[i + 1];
            RankFailsLater(g, target, seed, oracle, rng, cands, fuel, err);
            RankRaised(err)
          case Ranked(b, rest, pos'') =>
            var evals := [e] + rest;
            assert evals[1..] == rest;
            Ranked(b, evals, pos'')
  }

  /** A failure among the later candidates is a failure among all of them. */
  lemma RankFailsLater(g: Graph, target: Node, seed: int, oracle: Oracle, rng: Rng, cands: seq<Node>, fuel: nat, err: Error)
    requires cands != [] && RankingFailed(g, target, seed, oracle, rng, cands[1..], fuel, err)
    ensures RankingFailed(g, target, seed, oracle, rng, cands, fuel, err)
  {
    var i, q: nat :| 0 <= i < |cands| - 1 && SampleFails(g, target, seed, oracle, rng, cands[1..][i], q, fuel, err);
    assert cands[1..][i] == cands[i + 1];
  }

  /** cands[i] is next, its completion cost is cost, no completion is
      cheaper, and every earlier one is dearer. */
  ghost predicate FirstCheapestAt(cands: seq<Node>, evals: seq<Eval>, next: Node, cost: real, i: int) {
    && 0 <= i < |cands| == |evals|
    && cands[i] == next
    && evals[i].cost == Some(cost)
    && (forall j | 0 <= j < |evals| :: evals[j].cost.Some? && cost <= evals[j].cost.value)
    && (forall j | 0 <= j < i :: cost < evals[j].cost.value)
  }

  /** The candidates were several and did not include target; each got a
      sampled completion, and the first one whose completion is cheapest
      was taken. */
  ghost predicate CheapestChoice(g: Graph, target: Node, seed: int, oracle: Oracle, cands: seq<Node>, r: Pass)
    requires r.Chosen?
  {
    && |cands| > 1 && target !in cands
    && Completions(g, target, seed, oracle, cands, r.evaluations)
    && exists i :: FirstCheapestAt(cands, r.evaluations, r.next, r.sampled, i)
  }

  /** One pass of the `baseline_method` loop, from a node that is not the
      target. */
  datatype Pass =
    | Forced(next: Node, cost: Option<real>)
    | Finish(cost: Option<real>)
    | Chosen(next: Node, sampled: real, evaluations: seq<Eval>, pos: nat)
    | PassRaised(error: Error)

  /** Which kind of pass the neighbours and candidates select: no neighbour
      raises, a single candidate is forced, and a target among several
      candidates finishes the walk. */
  ghost predicate Dispatched(nbrs: seq<Node>, cands: seq<Node>, target: Node, r: Pass)
  {
    && (nbrs == [] ==> r == PassRaised(NoNeighbour))
    && (nbrs != [] && |cands| == 1 ==> r.Forced?)
    && (nbrs != [] && |cands| > 1 && target in cands ==> r.Finish?)
  }

  /** The pass: a single candidate is taken without ranking; otherwise a
      candidate target ends the walk; otherwise the candidates are ranked
      and the first one whose completion is cheapest is taken, its
      completion's cost becoming `total_cost`. */
  function GreedyPass(g: Graph, target: Node, seed: int, oracle: Oracle, rng: Rng, current: Node, previous: Option<Node>, path: Path, pos: nat, fuel: nat): (r: Pass)
    requires ValidGraph(g) && Walking(g, current, previous, path) && current != target
    ensures r.Forced? ==> Candidates(g[current], previous) == [r.next] && r.cost == oracle(seed, path + [r.next])
    ensures r.Finish? ==>
      var cands := Candidates(g[current], previous);
      |cands| > 1 && target in cands && r.cost == oracle(seed, path + [target])
    ensures r.Chosen? ==> CheapestChoice(g, target, seed, oracle, Candidates(g[current], previous), r)
    ensures r.PassRaised? ==> RankError(r.error) || (r.error == NoNeighbour && g[current] == [])
    ensures r.Forced? || r.Chosen? ==> r.next in Candidates(g[current], previous)
    ensures r.Chosen? ==> r.next != target
    ensures Dispatched(g[current], Candidates(g[current], previous), target, r)
    ensures r.PassRaised? && g[current] != [] ==>
      var cands := Candidates(g[current], previous);
      |cands| > 1 && target !in cands && RankingFailed(g, target, seed, oracle, rng, cands, fuel, r.error)
  {
    var nbrs := g[current];
    if nbrs == [] then PassRaised(NoNeighbour)
    else
      var cands := Candidates(nbrs, previous);
      if |cands| == 1 then Forced(cands[0], oracle(seed, path + [cands[0]]))
      else if target in cands then Finish(oracle(seed, path + [target]))
      else
        forall n | n in cands
          ensures n in g && g[n] != []
        {
          NeighbourInGraph(g, current, n);
        }
        match RankFrom(g, target, seed, oracle, rng, cands, NoBest, pos, fuel)
        case RankRaised(err) => PassRaised(err)
        case Ranked(b, evals, pos') =>
          TrackKeepsBest(evals);
          assert evals[0].cost.Some?;
          var i :| 0 <= i < |evals| && evals[i] == Eval(b.path.value, Some(b.cost.value))
            && forall j | 0 <= j < i && evals[j].cost.Some? :: b.cost.value < evals[j].cost.value;
          var next := b.path.value[0];
          assert FirstCheapestAt(cands, evals, next, b.cost.value, i);
          var r := Chosen(next, b.cost.value, evals, pos');
          assert CheapestChoice(g, target, seed, oracle, cands, r);
          r
  }

  // ---------------------------------------------------------------------
  // The greedy walk

  datatype Outcome = Found(path: Path, cost: Option<real>, pos: nat) | Raised(error: Error)

  /** The `while current_node != target` loop of `baseline_method` from
      current, with `total_cost` so far and at most fuel more passes. The
      loop can only stop after a pass that evaluated the whole path, so the
      cost it reports is always the oracle's cost of the path returned,
      unless no pass ran. */
  function GreedyFrom(g: Graph, target: Node, seed: int, oracle: Oracle, rng: Rng, current: Node, previous: Option<Node>, path: Path, total: Option<real>, pos: nat, fuel: nat): (r: Outcome)
    requires ValidGraph(g) && Walking(g, current, previous, path)
    ensures r.Found? ==> Arrived(g, target, seed, oracle, path, total, r)
    ensures r.Raised? ==> RankError(r.error) || (r.error == NoNeighbour && |path| == 1 && g[current] == [])
    ensures current == target ==> r == Found(path, total, pos)
    ensures current != target && r.Found? ==> |r.path| > |path|
    decreases fuel, 1
  {
    if current == target then Found(path, total, pos)
    else if fuel == 0 then Raised(OutOfFuel)
    else AfterPass(g, target, seed, oracle, rng, current, previous, path, total, GreedyPass(g, target, seed, oracle, rng, current, previous, path, pos, fuel), pos, fuel)
  }

  /** The rest of a pass of the loop, once the pass has been decided. */
  function AfterPass(g: Graph, target: Node, seed: int, oracle: Oracle, rng: Rng, current: Node, previous: Option<Node>, path: Path, total: Option<real>, pass: Pass, pos: nat, fuel: nat): (r: Outcome)
    requires ValidGraph(g) && Walking(g, current, previous, path) && current != target && fuel > 0
    requires pass.Forced? ==> pass.next in Candidates(g[current], previous) && pass.cost == oracle(seed, path + [pass.next])
    requires pass.Finish? ==> target in Candidates(g[current], previous) && pass.cost == oracle(seed, path + [target])
    requires pass.Chosen? ==> pass.next in Candidates(g[current], previous) && pass.next != target
    requires pass.PassRaised? ==> RankError(pass.error) || (pass.error == NoNeighbour && g[current] == [])
    ensures r.Found? ==> Arrived(g, target, seed, oracle, path, total, r)
    ensures r.Raised? ==> RankError(r.error) || (r.error == NoNeighbour && |path| == 1 && g[current] == [])
    ensures r.Found? ==> |r.path| > |path|
    decreases fuel, 0
  {
    match pass
    case PassRaised(err) =>
      if err == NoNeighbour then IsolatedStart(g, current, previous, path); Raised(err) else Raised(err)
    case Forced(next, cost) =>
      WalkingStep(g, current, previous, path, next);
      var r := GreedyFrom(g, target, seed, oracle, rng, next, Some(current), path + [next], cost, pos, fuel - 1);
      if r.Found? then ArrivedStep(g, target, seed, oracle, path, next, cost, total, r); r else r
    case Finish(cost) =>
      WalkingStep(g, current, previous, path, target);
      var r := Found(path + [target], cost, pos);
      assert Arrived(g, target, seed, oracle, path + [target], cost, r);
      ArrivedStep(g, target, seed, oracle, path, target, cost, total, r);
      r
    case Chosen(next, cost, _, pos') =>
      WalkingStep(g, current, previous, path, next);
      var r := GreedyFrom(g, target, seed, oracle, rng, next, Some(current), path + [next], Some(cost), pos', fuel - 1);
      if r.Found? then ArrivedStep(g, target, seed, oracle, path, next, Some(cost), total, r); r else r
  }

  /** A forced pass moves the loop on to its single candidate. */
  lemma ForcedStep(g: Graph, target: Node, seed: int, oracle: Oracle, rng: Rng, current: Node, previous: Option<Node>, path: Path, total: Option<real>, pos: nat, fuel: nat, next: Node, cost: Option<real>)
    requires ValidGraph(g) && Walking(g, current, previous, path) && current != target && fuel > 0
    requires GreedyPass(g, target, seed, oracle, rng, current, previous, path, pos, fuel) == Forced(next, cost)
    ensures Walking(g, next, Some(current), path + [next])
    ensures GreedyFrom(g, target, seed, oracle, rng, current, previous, path, total, pos, fuel)
         == GreedyFrom(g, target, seed, oracle, rng, next, Some(current), path + [next], cost, pos, fuel - 1)
  {
    WalkingStep(g, current, previous, path, next);
  }

  /** A finishing pass ends the loop with the target appended and the
      whole path's cost reported. */
  lemma FinishStep(g: Graph, target: Node, seed: int, oracle: Oracle, rng: Rng, current: Node, previous: Option<Node>, path: Path, total: Option<real>, pos: nat, fuel: nat, cost: Option<real>)
    requires ValidGraph(g) && Walking(g, current, previous, path) && current != target && fuel > 0
    requires GreedyPass(g, target, seed, oracle, rng, current, previous, path, pos, fuel) == Finish(cost)
    ensures GreedyFrom(g, target, seed, oracle, rng, current, previous, path, total, pos, fuel) == Found(path + [target], cost, pos)
  {
  }

  /** A ranked pass moves the loop on to the chosen candidate, with its
      completion's cost as `total_cost` and the draws the ranking left. */
  lemma ChosenStep(g: Graph, target: Node, seed: int, oracle: Oracle, rng: Rng, current: Node, previous: Option<Node>, path: Path, total: Option<real>, pos: nat, fuel: nat, next: Node, sampled: real, evals: seq<Eval>, pos': nat)
    requires ValidGraph(g) && Walking(g, current, previous, path) && current != target && fuel > 0
    requires GreedyPass(g, target, seed, oracle, rng, current, previous, path, pos, fuel) == Chosen(next, sampled, evals, pos')
    ensures Walking(g, next, Some(current), path + [next])
    ensures GreedyFrom(g, target, seed, oracle, rng, current, previous, path, total, pos, fuel)
         == GreedyFrom(g, target, seed, oracle, rng, next, Some(current), path + [next], Some(sampled), pos', fuel - 1)
  {
    WalkingStep(g, current, previous, path, next);
  }

  /** A pass that raised ends the loop with its error. */
  lemma RaisedStep(g: Graph, target: Node, seed: int, oracle: Oracle, rng: Rng, current: Node, previous: Option<Node>, path: Path, total: Option<real>, pos: nat, fuel: nat, err: Error)
    requires ValidGraph(g) && Walking(g, current, previous, path) && current != target && fuel > 0
    requires GreedyPass(g, target, seed, oracle, rng, current, previous, path, pos, fuel) == PassRaised(err)
    ensures GreedyFrom(g, target, seed, oracle, rng, current, previous, path, total, pos, fuel) == Raised(err)
  {
  }

  /** q is a walk to target that extends path and never backtracks. */
  ghost predicate Extends(g: Graph, target: Node, q: Path, path: Path) {
    && |path| > 0
    && |q| >= |path|
    && q[0] == path[0]
    && Last(q) == target
    && Adjacent(g, q)
    && NoBacktrack(g, q)
  }

  /** r is what the loop returns from path with `total_cost` total: a walk
      to target extending path, whose cost is the oracle's cost for it
      unless no pass ran. */
  ghost predicate Arrived(g: Graph, target: Node, seed: int, oracle: Oracle, path: Path, total: Option<real>, r: Outcome)
    requires r.Found?
  {
    && Extends(g, target, r.path, path)
    && r.cost == if |r.path| == |path| then total else oracle(seed, r.path)
  }

  /** One pass that appended next and set `total_cost` to cost, which is the
      oracle's cost of the longer path unless the loop goes on. */
  lemma ArrivedStep(g: Graph, target: Node, seed: int, oracle: Oracle, path: Path, next: Node, cost: Option<real>, total: Option<real>, r: Outcome)
    requires |path| > 0 && r.Found? && Arrived(g, target, seed, oracle, path + [next], cost, r)
    requires next == target ==> r.path == path + [next] && cost == oracle(seed, path + [next])
    requires next != target ==> |r.path| > |path| + 1
    ensures Arrived(g, target, seed, oracle, path, total, r)
  {
  }

  /** `baseline_method(G, source, target, seed, blackbox_path, density,
      num_random_paths)`: size the sampling (a ZeroDivisionError on a graph
      of at most one node when neither count nor density is given), then
      walk greedily from source with `total_cost = 0`. */
  function BaselineMethod(g: Graph, source: Node, target: Node, seed: int, oracle: Oracle, rng: Rng, density: Option<real>, given: Option<int>, pos: nat, fuel: nat): (r: Outcome)
    requires ValidGraph(g)
    ensures r == Raised(ZeroDivision) <==> SampleCount(g, density, given).None?
    ensures r.Found? ==> Walk(g, source, target, r.path) && NoBacktrack(g, r.path)
    ensures r.Found? ==> r.cost == if source == target then Some(0.0) else oracle(seed, r.path)
    ensures SampleCount(g, density, given).Some? && source == target ==> r == Found([source], Some(0.0), pos)
    ensures SampleCount(g, density, given).Some? && source in g ==>
      Walking(g, source, None, [source]) && r == GreedyFrom(g, target, seed, oracle, rng, source, None, [source], Some(0.0), pos, fuel)
    ensures r.Raised? && r.error != ZeroDivision ==>
      || RankError(r.error)
      || (r.error == NoNeighbour && source in g && g[source] == [])
      || (r.error == MissingKey && source !in g)
    ensures SampleCount(g, density, given).Some? && source !in g && source != target ==> r == Raised(MissingKey)
  {
    if SampleCount(g, density, given).None? then Raised(ZeroDivision)
    else if source !in g then
      if source == target then Found([source], Some(0.0), pos) else Raised(MissingKey)
    else
      var r := GreedyFrom(g, target, seed, oracle, rng, source, None, [source], Some(0.0), pos, fuel);
      assert r.Found? && |r.path| == 1 ==> source == target;
      r
  }

  /** The sample count only feeds the report: two calls that both size
      successfully return the same thing. */
  lemma SampleCountIrrelevant(g: Graph, source: Node, target: Node, seed: int, oracle: Oracle, rng: Rng, d1: Option<real>, n1: Option<int>, d2: Option<real>, n2: Option<int>, pos: nat, fuel: nat)
    requires ValidGraph(g)
    requires SampleCount(g, d1, n1).Some? && SampleCount(g, d2, n2).Some?
    ensures BaselineMethod(g, source, target, seed, oracle, rng, d1, n1, pos, fuel)
         == BaselineMethod(g, source, target, seed, oracle, rng, d2, n2, pos, fuel)
  {
  }

  // ---------------------------------------------------------------------
  // A worked case

  /** The line 0 - 1 - 2 - 3 - 4. */
  const Line: Graph := map[0 := [1], 1 := [0, 2], 2 := [1, 3], 3 := [2, 4], 4 := [3]]

  /** An oracle charging one per edge. */
  function EdgeCount(seed: int, p: Path): Option<real> {
    Some(if |p| == 0 then 0.0 else (|p| - 1) as real)
  }

  lemma LineValid()
    ensures ValidGraph(Line)
  {
    forall n, m | n in Line && m in Line[n]
      ensures m in Line && n in Line[m] && m != n
    {
      LineNeighbours(n);
    }
    forall n | n in Line
      ensures NoDup(Line[n])
    {
      LineNeighbours(n);
    }
  }

  lemma LineSize()
    ensures |Line.Keys| == 5
  {
    assert Line.Keys == {0, 1, 2, 3, 4};
  }

  /** Node n of the line is joined to n - 1 and n + 1 where those exist. */
  lemma LineNeighbours(n: Node)
    requires n in Line
    ensures Line[n] == (if n > 0 then [n - 1] else []) + (if n < 4 then [n + 1] else [])
  {
    assert n in Line.Keys;
    assert Line.Keys == {0, 1, 2, 3, 4};
  }

  /** The loop at node k of the line, with the walk [0, ..., k] behind it,
      returns the whole line at the cost of its four edges. */
  ghost predicate LineReaches(k: nat, seed: int, rng: Rng, pos: nat, fuel: nat) {
    var previous, path := if k == 0 then None else Some(k - 1), LinePrefix(k);
    && ValidGraph(Line)
    && Walking(Line, k, previous, path)
    && GreedyFrom(Line, 4, seed, EdgeCount, rng, k, previous, path, EdgeCount(seed, path), pos, fuel)
       == Found([0, 1, 2, 3, 4], Some(4.0), pos)
  }

  /** From node k of the line, k < 4, with the walk [0, ..., k] behind it,
      the pass is forced to k + 1 and the rest of the walk reaches 4. */
  lemma {:induction false} LineFrom(k: nat, seed: int, rng: Rng, pos: nat, fuel: nat)
    requires k <= 4 && fuel >= 4 - k
    ensures LineReaches(k, seed, rng, pos, fuel)
    decreases 4 - k
  {
    if k < 4 {
      LineFrom(k + 1, seed, rng, pos, fuel - 1);
      LineStep(k, seed, rng, pos, fuel);
    } else {
      LineValid();
      LinePrefixWalking(k);
    }
  }

  /** One forced pass takes the loop from node k to node k + 1. */
  lemma LineStep(k: nat, seed: int, rng: Rng, pos: nat, fuel: nat)
    requires k < 4 && fuel > 0 && LineReaches(k + 1, seed, rng, pos, fuel - 1)
    ensures LineReaches(k, seed, rng, pos, fuel)
  {
    var path := LinePrefix(k);
    var previous := if k == 0 then None else Some(k - 1);
    LinePass(k, seed, rng, pos, fuel);
    ForcedStep(Line, 4, seed, EdgeCount, rng, k, previous, path, EdgeCount(seed, path), pos, fuel, k + 1, EdgeCount(seed, path + [k + 1]));
    assert path + [k + 1] == LinePrefix(k + 1);
  }

  /** The pass at node k < 4 of the line has the single candidate k + 1. */
  lemma LinePass(k: nat, seed: int, rng: Rng, pos: nat, fuel: nat)
    requires k < 4
    ensures ValidGraph(Line)
    ensures var previous := if k == 0 then None else Some(k - 1);
      Walking(Line, k, previous, LinePrefix(k))
      && GreedyPass(Line, 4, seed, EdgeCount, rng, k, previous, LinePrefix(k), pos, fuel)
         == Forced(k + 1, EdgeCount(seed, LinePrefix(k) + [k + 1]))
  {
    LineValid();
    LinePrefixWalking(k);
    var previous := if k == 0 then None else Some(k - 1);
    assert Candidates(Line[k], previous) == [k + 1];
  }

  /** [0, 1, ..., k]. */
  function LinePrefix(k: nat): (r: Path)
    ensures |r| == k + 1 && forall i | 0 <= i <= k :: r[i] == i
  {
    if k == 0 then [0] else LinePrefix(k - 1) + [k]
  }

  lemma LinePrefixWalking(k: nat)
    requires k <= 4
    ensures Walking(Line, k, if k == 0 then None else Some(k - 1), LinePrefix(k))
  {
    var p := LinePrefix(k);
    forall i | 0 <= i < |p| - 1
      ensures p[i] in Line && p[i + 1] in Line[p[i]]
    {
      assert p[i] == i && p[i + 1] == i + 1;
      assert i in Line.Keys;
      LineNeighbours(i);
    }
  }

  /** On the line every step is forced, so from 0 to 4 the baseline walks
      the line and reports its cost, whatever the random draws and however
      the sampling is sized. */
  lemma LineIsForced(seed: int, rng: Rng, density: Option<real>, given: Option<int>, pos: nat, fuel: nat)
    requires fuel >= 4
    ensures ValidGraph(Line)
    ensures BaselineMethod(Line, 0, 4, seed, EdgeCount, rng, density, given, pos, fuel) == Found([0, 1, 2, 3, 4], Some(4.0), pos)
  {
    LineSize();
    LineFrom(0, seed, rng, pos, fuel);
  }
}
