/**
 The three Monte Carlo strategies: classic (uniform walks), exploration
 (walks weighted by a visit memory that is penalised after every
 evaluation), and nested rollouts (a depth-bounded recursion that keeps the
 cheapest complete candidate at each level, with a random fallback at depth
 zero).
 */
module MonteCarlo {
  import opened Wrappers
  import opened Graphs
  import opened Randomness
  import opened Anytime
  import opened Walks

  /** What a strategy returns, `(best_path, best_cost)`, with the trace of
      the evaluations that decided it. */
  datatype Run = Run(best: Best, evaluations: seq<Eval>)

  /** Every evaluation is a simple path from s to t carrying the oracle's
      answer for it. */
  ghost predicate Evaluated(g: Graph, s: Node, t: Node, seed: int, oracle: Oracle, evals: seq<Eval>) {
    forall i | 0 <= i < |evals| :: Route(g, s, t, evals[i].path) && evals[i].cost == oracle(seed, evals[i].path)
  }

  /** The reported path is an evaluated one, so it is a route and the
      reported cost is the oracle's answer for it. */
  lemma BestIsEvaluated(g: Graph, s: Node, t: Node, seed: int, oracle: Oracle, b: Best, evals: seq<Eval>)
    requires KeptBest(b, evals) && Evaluated(g, s, t, seed, oracle, evals)
    ensures b.path.Some? ==> Route(g, s, t, b.path.value) && oracle(seed, b.path.value) == Some(b.cost.value)
  {
    if b.path.Some? {
      var i :| 0 <= i < |evals| && evals[i] == Eval(b.path.value, Some(b.cost.value));
      assert Route(g, s, t, evals[i].path);
    }
  }

  // ---------------------------------------------------------------------
  // Classic Monte Carlo

  /** The evaluations of `monte_carlo_simulation` over `iterations` passes of
      its loop: each pass draws a uniform walk and evaluates it when it
      reached the target. */
  function ClassicEvaluations(g: Graph, s: Node, t: Node, seed: int, oracle: Oracle, rng: Rng, pos: nat, iterations: nat): (r: seq<Eval>)
    requires ValidGraph(g) && s in g
    ensures |r| <= iterations
    ensures Evaluated(g, s, t, seed, oracle, r)
    ensures NeverStuck(g, s, t) ==> |r| == iterations
    ensures iterations > 0 ==> var d := RandomPath(g, s, t, Uniform, rng, pos);
      d.Drawn? && (d.path.Some? ==> |r| > 0 && r[0] == Eval(d.path.value, oracle(seed, d.path.value)))
    decreases iterations
  {
    if iterations == 0 then []
    else
      match RandomPath(g, s, t, Uniform, rng, pos)
      case DrawRaised(_) => assert false; []
      case Drawn(None, pos') => ClassicEvaluations(g, s, t, seed, oracle, rng, pos', iterations - 1)
      case Drawn(Some(p), pos') => [Eval(p, oracle(seed, p))] + ClassicEvaluations(g, s, t, seed, oracle, rng, pos', iterations - 1)
  }

  /** `monte_carlo_simulation`, the time budget being the number of loop
      passes it allows. */
  function MonteCarloSimulation(g: Graph, s: Node, t: Node, seed: int, oracle: Oracle, rng: Rng, iterations: nat): (r: Run)
    requires ValidGraph(g) && s in g
    ensures Evaluated(g, s, t, seed, oracle, r.evaluations) && |r.evaluations| <= iterations
    ensures KeptBest(r.best, r.evaluations)
    ensures iterations == 0 ==> r.best == NoBest
    ensures NeverStuck(g, s, t) ==> |r.evaluations| == iterations
    ensures r.best.path.Some? ==> Route(g, s, t, r.best.path.value) && oracle(seed, r.best.path.value) == Some(r.best.cost.value)
  {
    var evals := ClassicEvaluations(g, s, t, seed, oracle, rng, 0, iterations);
    var b := Track(evals);
    BestIsEvaluated(g, s, t, seed, oracle, b, evals);
    Run(b, evals)
  }

  /** From a node whose only neighbour is the target (a leaf of a star whose
      centre is the target) every uniform walk is the one edge. */
  lemma SingleExitWalk(g: Graph, s: Node, t: Node, rng: Rng, pos: nat)
    requires ValidGraph(g) && s in g && g[s] == [t]
    ensures RandomPath(g, s, t, Uniform, rng, pos) == Drawn(Some([s, t]), pos + 1)
  {
    NeighbourInGraph(g, s, t);
    assert Unvisited(g[s], [s]) == [t];
    assert Choice(rng, pos, [t]) == t;
    assert Walkable(g, [s, t]);
    assert WalkOn(g, t, Uniform, rng, [s, t], pos + 1) == Walked([s, t], pos + 1);
    assert s != t && Last([s]) == s && [s] + [t] == [s, t];
    assert Pick(Uniform, rng, pos, s, [t]) == Picked(t, pos + 1);
    assert WalkOn(g, t, Uniform, rng, [s], pos) == Walked([s, t], pos + 1);
  }

  /** ... so every pass of the classic loop evaluates that edge. */
  lemma {:induction false} SingleExitEvaluations(g: Graph, s: Node, t: Node, seed: int, oracle: Oracle, rng: Rng, pos: nat, iterations: nat)
    requires ValidGraph(g) && s in g && g[s] == [t]
    ensures var r := ClassicEvaluations(g, s, t, seed, oracle, rng, pos, iterations);
      |r| == iterations && forall i | 0 <= i < |r| :: r[i] == Eval([s, t], oracle(seed, [s, t]))
    decreases iterations
  {
    if iterations > 0 {
      SingleExitWalk(g, s, t, rng, pos);
      SingleExitEvaluations(g, s, t, seed, oracle, rng, pos + 1, iterations - 1);
    }
  }

  /** On such a leaf the classic strategy settles on the edge after one
      pass, provided the oracle answers for it. */
  lemma SingleExitConverges(g: Graph, s: Node, t: Node, seed: int, oracle: Oracle, rng: Rng, iterations: nat)
    requires ValidGraph(g) && s in g && g[s] == [t]
    requires iterations > 0 && oracle(seed, [s, t]).Some?
    ensures MonteCarloSimulation(g, s, t, seed, oracle, rng, iterations).best == Best(Some([s, t]), Finite(oracle(seed, [s, t]).value))
  {
    SingleExitEvaluations(g, s, t, seed, oracle, rng, 0, iterations);
    var r := MonteCarloSimulation(g, s, t, seed, oracle, rng, iterations);
    assert r.evaluations[0].cost.Some?;
  }

  // ---------------------------------------------------------------------
  // Monte Carlo with exploration

  const Alpha: real := 100.0

  /** `1 + cost * alpha`: the weight an evaluated path adds to each of its edges. */
  function Penalty(c: real): (r: real)
    ensures c >= 0.0 ==> r >= 1.0
  {
    1.0 + c * Alpha
  }

  /** Costlier paths are penalised more. */
  lemma PenaltyGrowsWithCost(a: real, b: real)
    requires a < b
    ensures Penalty(a) < Penalty(b)
  {
  }

  /** What the evaluations add to the memory weight of edge e: the penalty of
      every successful evaluation whose path takes e. */
  function Penalties(evals: seq<Eval>, e: Edge): real {
    if evals == [] then 0.0
    else
      (if evals[0].cost.Some? && e in Edges(evals[0].path) then Penalty(evals[0].cost.value) else 0.0)
      + Penalties(evals[1..], e)
  }

  /** The oracle never answers a negative cost for this seed. */
  ghost predicate NonNegativeCosts(seed: int, oracle: Oracle) {
    forall p :: oracle(seed, p).Some? ==> oracle(seed, p).value >= 0.0
  }

  /** A non-negative penalty on a simple path keeps every weight above -1e-6. */
  lemma PenalizeKeepsAbove(m: Memory, p: Path, penalty: real)
    requires NoDup(p)
    ensures penalty >= 0.0 && MemoryAbove(m, -Smoothing) ==> MemoryAbove(Penalize(m, p, penalty), -Smoothing)
  {
    PenalizeSimplePath(m, p, penalty);
  }

  datatype Explored = Explored(evaluations: seq<Eval>, memory: Memory) | ExploreRaised(error: Error)

  /** What a finished exploration loop of `iterations` passes from memory m
      accounts for: evaluated routes, at most one per pass and exactly one
      per pass when no walk can get stuck, and a memory that is m plus the
      penalties of the successful evaluations. */
  ghost predicate Accounted(g: Graph, s: Node, t: Node, seed: int, oracle: Oracle, m: Memory, iterations: nat, r: Explored) {
    r.Explored? ==>
      && Evaluated(g, s, t, seed, oracle, r.evaluations)
      && |r.evaluations| <= iterations
      && (NeverStuck(g, s, t) ==> |r.evaluations| == iterations)
      && forall e :: MemoryOf(r.memory, e) == MemoryOf(m, e) + Penalties(r.evaluations, e)
  }

  /** The loop of `monte_carlo_simulation_with_exploration` over `iterations`
      passes, from the visit memory m: each pass draws a weighted walk,
      evaluates it when it reached the target, and penalises its edges when
      the oracle answered. */
  function ExplorationEvaluations(g: Graph, s: Node, t: Node, seed: int, oracle: Oracle, rng: Rng, m: Memory, pos: nat, iterations: nat): (r: Explored)
    requires ValidGraph(g) && s in g
    ensures Accounted(g, s, t, seed, oracle, m, iterations, r)
    ensures r.ExploreRaised? ==> WeightError(r.error)
    ensures MemoryAbove(m, -Smoothing) && NonNegativeCosts(seed, oracle) ==> r.Explored?
    decreases iterations, 1
  {
    if iterations == 0 then Explored([], m)
    else
      match RandomPath(g, s, t, Weighted(m), rng, pos)
      case DrawRaised(err) => ExploreRaised(err)
      case Drawn(None, pos') => ExplorationEvaluations(g, s, t, seed, oracle, rng, m, pos', iterations - 1)
      case Drawn(Some(p), pos') => ExploreRoute(g, s, t, seed, oracle, rng, m, p, pos', iterations)
  }

  /** The rest of a pass whose walk p reached the target: evaluate it,
      penalise its edges when the oracle answered, and go on. */
  function ExploreRoute(g: Graph, s: Node, t: Node, seed: int, oracle: Oracle, rng: Rng, m: Memory, p: Path, pos: nat, iterations: nat): (r: Explored)
    requires ValidGraph(g) && s in g && Route(g, s, t, p) && iterations > 0
    ensures Accounted(g, s, t, seed, oracle, m, iterations, r)
    ensures r.ExploreRaised? ==> WeightError(r.error)
    ensures r.Explored? ==> |r.evaluations| > 0 && r.evaluations[0] == Eval(p, oracle(seed, p))
    ensures MemoryAbove(m, -Smoothing) && NonNegativeCosts(seed, oracle) ==> r.Explored?
    decreases iterations, 0
  {
    var e := Eval(p, oracle(seed, p));
    var m' := if e.cost.Some? then Penalize(m, p, Penalty(e.cost.value)) else m;
    PenaltyKeepsAbove(m, p, seed, oracle);
    match ExplorationEvaluations(g, s, t, seed, oracle, rng, m', pos, iterations - 1)
    case ExploreRaised(err) => ExploreRaised(err)
    case Explored(rest, final) =>
      PenaltiesStep(m, m', e, rest, final);
      Explored([e] + rest, final)
  }

  /** With non-negative costs the penalty of a route is at least 1, so the
      weights stay above -1e-6 and the next weighted walk cannot raise. */
  lemma PenaltyKeepsAbove(m: Memory, p: Path, seed: int, oracle: Oracle)
    requires NoDup(p)
    ensures var cost := oracle(seed, p);
      MemoryAbove(m, -Smoothing) && NonNegativeCosts(seed, oracle) ==>
        MemoryAbove(if cost.Some? then Penalize(m, p, Penalty(cost.value)) else m, -Smoothing)
  {
    var cost := oracle(seed, p);
    if cost.Some? && NonNegativeCosts(seed, oracle) {
      assert cost.value >= 0.0;
      PenalizeKeepsAbove(m, p, Penalty(cost.value));
    }
  }

  /** One evaluation e followed by the rest: the penalties add up. */
  lemma PenaltiesStep(m: Memory, m': Memory, e: Eval, rest: seq<Eval>, final: Memory)
    requires NoDup(e.path)
    requires m' == if e.cost.Some? then Penalize(m, e.path, Penalty(e.cost.value)) else m
    requires forall x :: MemoryOf(final, x) == MemoryOf(m', x) + Penalties(rest, x)
    ensures forall x :: MemoryOf(final, x) == MemoryOf(m, x) + Penalties([e] + rest, x)
  {
    assert ([e] + rest)[1..] == rest;
    if e.cost.Some? {
      PenalizeSimplePath(m, e.path, Penalty(e.cost.value));
    }
  }

  /** The outcome of a strategy that can raise. */
  datatype Outcome = Done(run: Run) | Failed(error: Error)

  /** `monte_carlo_simulation_with_exploration`, from the fresh memory in
      which every edge weighs 1.0. */
  function MonteCarloSimulationWithExploration(g: Graph, s: Node, t: Node, seed: int, oracle: Oracle, rng: Rng, iterations: nat): (r: Outcome)
    requires ValidGraph(g) && s in g
    ensures r.Done? ==> Evaluated(g, s, t, seed, oracle, r.run.evaluations) && |r.run.evaluations| <= iterations
    ensures r.Done? ==> KeptBest(r.run.best, r.run.evaluations)
    ensures r.Done? && r.run.best.path.Some? ==>
      Route(g, s, t, r.run.best.path.value) && oracle(seed, r.run.best.path.value) == Some(r.run.best.cost.value)
    ensures iterations == 0 ==> r == Done(Run(NoBest, []))
    ensures r.Done? && NeverStuck(g, s, t) ==> |r.run.evaluations| == iterations
    ensures r.Failed? ==> WeightError(r.error)
    ensures NonNegativeCosts(seed, oracle) ==> r.Done?
  {
    assert MemoryAbove(FreshMemory, -Smoothing);
    match ExplorationEvaluations(g, s, t, seed, oracle, rng, FreshMemory, 0, iterations)
    case ExploreRaised(err) => Failed(err)
    case Explored(evals, _) =>
      var b := Track(evals);
      BestIsEvaluated(g, s, t, seed, oracle, b, evals);
      Done(Run(b, evals))
  }

  // ---------------------------------------------------------------------
  // Monte Carlo with nested rollouts

  const DefaultDepth: nat := 3
  const MaxFallbackLength: nat := 50

  /** What the nested functions see of their enclosing call. deadline is the
      index of the first clock read that finds the budget spent: reads are
      numbered in program order and the clock never goes back, so every
      later read finds it spent too. */
  datatype Ctx = Ctx(g: Graph, target: Node, seed: int, oracle: Oracle, rng: Rng, deadline: nat)

  /** The position of the next random draw and the number of clock reads so far. */
  datatype Tape = Tape(pos: nat, ticks: nat)

  /** `time.time() - start_time >= duration` at the next clock read. */
  predicate Expired(ctx: Ctx, tape: Tape) {
    tape.ticks >= ctx.deadline
  }

  function Read(tape: Tape): Tape {
    tape.(ticks := tape.ticks + 1)
  }

  /** What a rollout returns, with every candidate it evaluated on the way,
      at every level and in the order `eval_count` counts them. */
  datatype Rolled = Rolled(path: Option<Path>, candidates: seq<Eval>, tape: Tape)

  /** q extends p with fresh nodes along edges and ends at the target. */
  ghost predicate Reaches(ctx: Ctx, q: Path, p: Path) {
    Continues(q, p) && Walkable(ctx.g, q) && Last(q) == ctx.target
  }

  /** Every evaluation carries the oracle's answer for its path. */
  ghost predicate Oracled(ctx: Ctx, evals: seq<Eval>) {
    forall i | 0 <= i < |evals| :: evals[i].cost == ctx.oracle(ctx.seed, evals[i].path)
  }

  /** The bound b is at most the cost of every successful evaluation. */
  ghost predicate Bounded(b: Bound, evals: seq<Eval>) {
    forall i | 0 <= i < |evals| && evals[i].cost.Some? :: AtMost(b, evals[i].cost.value)
  }

  /** When any evaluation succeeded, p is a path the oracle prices no higher
      than every successful one. */
  ghost predicate Dominated(ctx: Ctx, p: Option<Path>, evals: seq<Eval>) {
    forall i | 0 <= i < |evals| && evals[i].cost.Some? ::
      p.Some? && ctx.oracle(ctx.seed, p.value).Some? && ctx.oracle(ctx.seed, p.value).value <= evals[i].cost.value
  }

  /** `extend_randomly_to_target(path)` with `steps` passes of its loop
      already made. It evaluates nothing. */
  function ExtendRandomly(ctx: Ctx, path: Path, steps: nat, tape: Tape): (r: Rolled)
    requires ValidGraph(ctx.g) && Walkable(ctx.g, path)
    ensures r.path.Some? ==> Reaches(ctx, r.path.value, path)
    ensures r.path.Some? ==>
      |r.path.value| <= |path| + (if steps <= MaxFallbackLength + 1 then MaxFallbackLength + 1 - steps else 0)
    ensures Last(path) == ctx.target ==> r == Rolled(Some(path), [], tape)
    ensures Last(path) != ctx.target && (Expired(ctx, tape) || steps > MaxFallbackLength || DeadEnd(ctx.g, path)) ==>
      r.path.None?
    ensures r.candidates == []
    ensures tape.ticks <= r.tape.ticks && tape.pos <= r.tape.pos
    decreases |ctx.g.Keys - Nodes(path)|
  {
    var current := Last(path);
    if current == ctx.target then Rolled(Some(path), [], tape)
    else if Expired(ctx, tape) || steps > MaxFallbackLength then Rolled(None, [], Read(tape))
    else
      var cands := Unvisited(ctx.g[current], path);
      if cands == [] then Rolled(None, [], Read(tape))
      else
        var next := Choice(ctx.rng, tape.pos, cands);
        FewerUnvisited(ctx.g, path, next);
        AppendNoDup(path, next);
        AppendAdjacent(ctx.g, path, next);
        var r := ExtendRandomly(ctx, path + [next], steps + 1, Tape(tape.pos + 1, tape.ticks + 1));
        if r.path.Some? then
          ContinuesStep(r.path.value, path, next);
          r
        else r
  }

  /** Pass i of the fallback loop over the walk w, whose draws start at
      position pos at node w[from]: w[i] is not the target, and w[i + 1] is
      the draw from its neighbours not yet on the walk. */
  ghost predicate FallbackStep(ctx: Ctx, w: Path, from: int, pos: nat, i: int)
    requires 0 <= from <= i < |w| - 1
  {
    && w[i] != ctx.target
    && w[i] in ctx.g
    && var c := Unvisited(ctx.g[w[i]], w[..i + 1]);
       c != [] && w[i + 1] == Choice(ctx.rng, pos + (i - from), c)
  }

  /** Every pass of w from position `from` on is a fallback pass. */
  ghost predicate FallbackFrom(ctx: Ctx, w: Path, from: int, pos: nat)
    requires 0 <= from
  {
    forall i | from <= i < |w| - 1 :: FallbackStep(ctx, w, from, pos, i)
  }

  /** w is the walk the fallback loop draws from path, after `steps` passes
      and from `tape`: fresh nodes along edges, each pass made while the
      clock read before it found budget left and the cap was not passed. */
  ghost predicate FallbackRun(ctx: Ctx, path: Path, steps: nat, tape: Tape, w: Path)
    requires |path| > 0
  {
    && Continues(w, path)
    && Walkable(ctx.g, w)
    && FallbackFrom(ctx, w, |path| - 1, tape.pos)
    && (|w| > |path| ==> tape.ticks + (|w| - |path|) <= ctx.deadline && steps + (|w| - |path|) <= MaxFallbackLength + 1)
  }

  /** What the fallback returns at the end of the walk w it drew: w when it
      reached the target, otherwise None, because the next clock read finds
      the budget spent, the cap is passed, or no neighbour is left. */
  ghost predicate FallbackOutcome(ctx: Ctx, path: Path, steps: nat, tape: Tape, w: Path, r: Rolled)
    requires 0 < |path| <= |w|
  {
    var k := |w| - |path|;
    if Last(w) == ctx.target then r.path == Some(w)
    else
      && r.path.None?
      && (tape.ticks + k >= ctx.deadline || steps + k > MaxFallbackLength || (Last(w) in ctx.g && Unvisited(ctx.g[Last(w)], w) == []))
  }

  /** The fallback returns None only when the walk it draws stops short of
      the target for one of the loop's reasons, and otherwise returns that
      walk. */
  lemma {:induction false} ExtendRandomlyDraws(ctx: Ctx, path: Path, steps: nat, tape: Tape)
    requires ValidGraph(ctx.g) && Walkable(ctx.g, path)
    ensures exists w :: FallbackRun(ctx, path, steps, tape, w) && FallbackOutcome(ctx, path, steps, tape, w, ExtendRandomly(ctx, path, steps, tape))
    decreases |ctx.g.Keys - Nodes(path)|
  {
    var current := Last(path);
    if current == ctx.target || Expired(ctx, tape) || steps > MaxFallbackLength || Unvisited(ctx.g[current], path) == [] {
      assert path[..|path|] == path;
      assert FallbackRun(ctx, path, steps, tape, path);
    } else {
      var cands := Unvisited(ctx.g[current], path);
      var next := Choice(ctx.rng, tape.pos, cands);
      FewerUnvisited(ctx.g, path, next);
      AppendNoDup(path, next);
      AppendAdjacent(ctx.g, path, next);
      var tape' := Tape(tape.pos + 1, tape.ticks + 1);
      var r := ExtendRandomly(ctx, path + [next], steps + 1, tape');
      ExtendRandomlyPass(ctx, path, steps, tape);
      ExtendRandomlyDraws(ctx, path + [next], steps + 1, tape');
      var w :| FallbackRun(ctx, path + [next], steps + 1, tape', w) && FallbackOutcome(ctx, path + [next], steps + 1, tape', w, r);
      FallbackRunStep(ctx, path, steps, tape, next, w);
      FallbackOutcomeStep(ctx, path, steps, tape, next, w, r);
    }
  }

  /** A pass of the fallback loop that draws a node goes on from it. */
  lemma ExtendRandomlyPass(ctx: Ctx, path: Path, steps: nat, tape: Tape)
    requires ValidGraph(ctx.g) && Walkable(ctx.g, path)
    requires Last(path) != ctx.target && !Expired(ctx, tape) && steps <= MaxFallbackLength
    requires Unvisited(ctx.g[Last(path)], path) != []
    ensures var next := Choice(ctx.rng, tape.pos, Unvisited(ctx.g[Last(path)], path));
      && next !in path
      && Walkable(ctx.g, path + [next])
      && ExtendRandomly(ctx, path, steps, tape) == ExtendRandomly(ctx, path + [next], steps + 1, Tape(tape.pos + 1, tape.ticks + 1))
  {
    var next := Choice(ctx.rng, tape.pos, Unvisited(ctx.g[Last(path)], path));
    AppendNoDup(path, next);
    AppendAdjacent(ctx.g, path, next);
  }

  /** The outcome after one more pass, counted from before it. */
  lemma FallbackOutcomeStep(ctx: Ctx, path: Path, steps: nat, tape: Tape, next: Node, w: Path, r: Rolled)
    requires 0 < |path| && |path| + 1 <= |w|
    requires FallbackOutcome(ctx, path + [next], steps + 1, Tape(tape.pos + 1, tape.ticks + 1), w, r)
    ensures FallbackOutcome(ctx, path, steps, tape, w, r)
  {
  }

  /** A fallback walk after one pass that drew next is a fallback walk
      before it. */
  lemma FallbackRunStep(ctx: Ctx, path: Path, steps: nat, tape: Tape, next: Node, w: Path)
    requires |path| > 0 && Last(path) in ctx.g
    requires Last(path) != ctx.target && !Expired(ctx, tape) && steps <= MaxFallbackLength
    requires Unvisited(ctx.g[Last(path)], path) != []
    requires next == Choice(ctx.rng, tape.pos, Unvisited(ctx.g[Last(path)], path))
    requires FallbackRun(ctx, path + [next], steps + 1, Tape(tape.pos + 1, tape.ticks + 1), w)
    ensures FallbackRun(ctx, path, steps, tape, w)
  {
    var k := |path|;
    assert |path + [next]| - 1 == k;
    assert next !in path;
    ContinuesStep(w, path, next);
    FallbackFirstStep(ctx, path, tape.pos, next, w);
    FallbackShift(ctx, w, k - 1, tape.pos);
  }

  /** The pass out of the end of path that drew next is a fallback pass of
      any walk continuing path + [next]. */
  lemma FallbackFirstStep(ctx: Ctx, path: Path, pos: nat, next: Node, w: Path)
    requires |path| > 0 && Last(path) in ctx.g && Last(path) != ctx.target
    requires Unvisited(ctx.g[Last(path)], path) != []
    requires next == Choice(ctx.rng, pos, Unvisited(ctx.g[Last(path)], path))
    requires |w| > |path| && w[..|path|] == path && w[|path|] == next
    ensures FallbackStep(ctx, w, |path| - 1, pos, |path| - 1)
  {
    var k := |path|;
    assert w[k - 1] == w[..k][k - 1] == Last(path);
    assert w[..k] == path;
  }

  /** A fallback pass at `from` followed by fallback passes from the next
      draw position on. */
  lemma FallbackShift(ctx: Ctx, w: Path, from: nat, pos: nat)
    requires from < |w| - 1
    requires FallbackStep(ctx, w, from, pos, from)
    requires FallbackFrom(ctx, w, from + 1, pos + 1)
    ensures FallbackFrom(ctx, w, from, pos)
  {
    forall i | from < i < |w| - 1
      ensures FallbackStep(ctx, w, from, pos, i)
    {
      assert FallbackStep(ctx, w, from + 1, pos + 1, i);
    }
  }

  /** One complete candidate found at a level: it extends the level's path by
      at least one fresh node, reaches the target, and carries the oracle's
      answer for it. */
  ghost predicate Candidate(ctx: Ctx, path: Path, e: Eval) {
    Reaches(ctx, e.path, path) && |path| < |e.path| && e.cost == ctx.oracle(ctx.seed, e.path)
  }

  /** A level of the recursion: its local best, the candidates it evaluated
      itself, every candidate evaluated at it or below it, and where it left
      the draws and the clock. */
  datatype Sweep = Sweep(best: Best, evaluations: seq<Eval>, candidates: seq<Eval>, tape: Tape)

  /** `nested_rollout(path, depth)`. The path it returns is never beaten by a
      candidate evaluated inside it, at any level. */
  function NestedRollout(ctx: Ctx, path: Path, depth: nat, tape: Tape): (r: Rolled)
    requires ValidGraph(ctx.g) && Walkable(ctx.g, path)
    ensures r.path.Some? ==> Reaches(ctx, r.path.value, path)
    ensures Expired(ctx, tape) ==> r.path.None? && r.candidates == []
    ensures !Expired(ctx, tape) && Last(path) == ctx.target ==> r.path == Some(path) && r.candidates == []
    ensures Oracled(ctx, r.candidates) && Dominated(ctx, r.path, r.candidates)
    ensures tape.ticks < r.tape.ticks
    ensures !Expired(ctx, tape) && Last(path) != ctx.target && depth == 0 ==> r == ExtendRandomly(ctx, path, 0, Read(tape))
    decreases depth, 2, 0
  {
    var t1 := Read(tape);
    if Expired(ctx, tape) then Rolled(None, [], t1)
    else if Last(path) == ctx.target then Rolled(Some(path), [], t1)
    else if depth == 0 then ExtendRandomly(ctx, path, 0, t1)
    else
      var level := RolloutLevel(ctx, path, depth, t1);
      LevelBest(ctx, path, level);
      Rolled(level.best.path, level.candidates, level.tape)
  }

  /** A level's best is one of its candidates, so it reaches the target and
      the oracle prices it at the best cost, which bounds every candidate. */
  lemma LevelBest(ctx: Ctx, path: Path, level: Sweep)
    requires KeptBest(level.best, level.evaluations)
    requires forall i | 0 <= i < |level.evaluations| :: Candidate(ctx, path, level.evaluations[i])
    requires Bounded(level.best.cost, level.candidates)
    ensures level.best.path.Some? ==> Reaches(ctx, level.best.path.value, path)
    ensures Dominated(ctx, level.best.path, level.candidates)
  {
    if level.best.path.Some? {
      var i :| 0 <= i < |level.evaluations| && level.evaluations[i] == Eval(level.best.path.value, Some(level.best.cost.value));
      assert Candidate(ctx, path, level.evaluations[i]);
    }
  }

  /** The branching part of `nested_rollout` at depth > 0: the neighbours of
      the last node are shuffled and tried in turn, and the result is the
      first cheapest of the candidates the level evaluated. */
  function RolloutLevel(ctx: Ctx, path: Path, depth: nat, tape: Tape): (r: Sweep)
    requires ValidGraph(ctx.g) && Walkable(ctx.g, path) && depth > 0
    ensures KeptBest(r.best, r.evaluations)
    ensures forall i | 0 <= i < |r.evaluations| :: Candidate(ctx, path, r.evaluations[i])
    ensures Oracled(ctx, r.candidates) && Bounded(r.best.cost, r.candidates)
    ensures tape.ticks <= r.tape.ticks
    decreases depth, 1, 0
  {
    var nbrs := ctx.g[Last(path)];
    var (order, pos') := Shuffle(ctx.rng, tape.pos, nbrs);
    assert forall n | n in order :: n in multiset(nbrs);
    var level := Branches(ctx, path, depth, order, NoBest, Tape(pos', tape.ticks));
    TrackKeepsBest(level.evaluations);
    level
  }

  /** The `for neighbor in neighbors` loop of a level, from the local best
      found so far. A candidate's own rollout evaluates its candidates
      before the level evaluates it. */
  function Branches(ctx: Ctx, path: Path, depth: nat, nbrs: seq<Node>, local: Best, tape: Tape): (r: Sweep)
    requires ValidGraph(ctx.g) && Walkable(ctx.g, path) && depth > 0
    requires forall n | n in nbrs :: n in ctx.g[Last(path)]
    ensures r.best == TrackFrom(local, r.evaluations)
    ensures forall i | 0 <= i < |r.evaluations| :: Candidate(ctx, path, r.evaluations[i])
    ensures Oracled(ctx, r.candidates) && Bounded(r.best.cost, r.candidates)
    ensures tape.ticks <= r.tape.ticks
    decreases depth, 0, |nbrs|
  {
    if nbrs == [] then Sweep(local, [], [], tape)
    else if Expired(ctx, tape) then Sweep(local, [], [], Read(tape))
    else
      var t1 := Read(tape);
      var n := nbrs[0];
      if n in path then Branches(ctx, path, depth, nbrs[1..], local, t1)
      else
        var next := path + [n];
        AppendNoDup(path, n);
        AppendAdjacent(ctx.g, path, n);
        NeighbourInGraph(ctx.g, Last(path), n);
        var cand := if n == ctx.target then Rolled(Some(next), [], t1) else NestedRollout(ctx, next, depth - 1, t1);
        match cand.path
        case None =>
          var rest := Branches(ctx, path, depth, nbrs[1..], local, cand.tape);
          var r := Sweep(rest.best, rest.evaluations, cand.candidates + rest.candidates, rest.tape);
          UnpricedFirst(ctx, cand, rest, r);
          r
        case Some(p) =>
          ContinuesStep(p, path, n);
          var e := Eval(p, ctx.oracle(ctx.seed, p));
          var rest := Branches(ctx, path, depth, nbrs[1..], Improve(local, e), cand.tape);
          var evals := [e] + rest.evaluations;
          assert evals[1..] == rest.evaluations;
          var r := Sweep(rest.best, evals, cand.candidates + [e] + rest.candidates, rest.tape);
          PricedFirst(ctx, cand, e, local, rest, r);
          r
  }

  /** A loop whose clock reads all found budget left tried every neighbour:
      in particular a target among them, not yet on the path, was evaluated
      as the path one step longer. */
  lemma {:induction false} BranchesTryTarget(ctx: Ctx, path: Path, depth: nat, nbrs: seq<Node>, local: Best, tape: Tape)
    requires ValidGraph(ctx.g) && Walkable(ctx.g, path) && depth > 0
    requires forall n | n in nbrs :: n in ctx.g[Last(path)]
    ensures var r := Branches(ctx, path, depth, nbrs, local, tape);
      r.tape.ticks <= ctx.deadline && ctx.target in nbrs && ctx.target !in path ==>
        exists i | 0 <= i < |r.evaluations| :: r.evaluations[i].path == path + [ctx.target]
    decreases |nbrs|
  {
    var r := Branches(ctx, path, depth, nbrs, local, tape);
    if nbrs != [] && !Expired(ctx, tape) && r.tape.ticks <= ctx.deadline && ctx.target in nbrs && ctx.target !in path {
      var t1 := Read(tape);
      var n := nbrs[0];
      assert nbrs == [n] + nbrs[1..];
      if n in path {
        BranchesTryTarget(ctx, path, depth, nbrs[1..], local, t1);
      } else if n == ctx.target {
        assert r.evaluations[0].path == path + [n];
      } else {
        var next := path + [n];
        AppendNoDup(path, n);
        AppendAdjacent(ctx.g, path, n);
        NeighbourInGraph(ctx.g, Last(path), n);
        var cand := NestedRollout(ctx, next, depth - 1, t1);
        match cand.path
        case None =>
          BranchesTryTarget(ctx, path, depth, nbrs[1..], local, cand.tape);
        case Some(p) =>
          var e := Eval(p, ctx.oracle(ctx.seed, p));
          var rest := Branches(ctx, path, depth, nbrs[1..], Improve(local, e), cand.tape);
          BranchesTryTarget(ctx, path, depth, nbrs[1..], Improve(local, e), cand.tape);
          assert r.evaluations == [e] + rest.evaluations;
          var i :| 0 <= i < |rest.evaluations| && rest.evaluations[i].path == path + [ctx.target];
          assert r.evaluations[i + 1] == rest.evaluations[i];
      }
    }
  }

  /** A level whose clock reads all found budget left evaluated a target
      adjacent to the end of the path as the path one step longer. */
  lemma LevelTriesTarget(ctx: Ctx, path: Path, depth: nat, tape: Tape)
    requires ValidGraph(ctx.g) && Walkable(ctx.g, path) && depth > 0
    ensures var r := RolloutLevel(ctx, path, depth, tape);
      r.tape.ticks <= ctx.deadline && ctx.target in ctx.g[Last(path)] && ctx.target !in path ==>
        exists i | 0 <= i < |r.evaluations| :: r.evaluations[i].path == path + [ctx.target]
  {
    var nbrs := ctx.g[Last(path)];
    var (order, pos') := Shuffle(ctx.rng, tape.pos, nbrs);
    assert forall n | n in order :: n in multiset(nbrs);
    if ctx.target in nbrs {
      assert ctx.target in multiset(order);
    }
    BranchesTryTarget(ctx, path, depth, order, NoBest, Tape(pos', tape.ticks));
  }

  /** A rollout above the fallback whose clock reads all found budget left,
      from a path one edge short of the target, returns a path the oracle
      prices no higher than that edge's completion. */
  lemma RolloutFindsTarget(ctx: Ctx, path: Path, depth: nat, tape: Tape)
    requires ValidGraph(ctx.g) && Walkable(ctx.g, path) && depth > 0
    requires Last(path) != ctx.target && ctx.target in ctx.g[Last(path)] && ctx.target !in path
    requires ctx.oracle(ctx.seed, path + [ctx.target]).Some?
    ensures var r := NestedRollout(ctx, path, depth, tape);
      r.tape.ticks <= ctx.deadline ==>
        && r.path.Some?
        && ctx.oracle(ctx.seed, r.path.value).Some?
        && ctx.oracle(ctx.seed, r.path.value).value <= ctx.oracle(ctx.seed, path + [ctx.target]).value
  {
    var r := NestedRollout(ctx, path, depth, tape);
    if r.tape.ticks <= ctx.deadline {
      var level := RolloutLevel(ctx, path, depth, Read(tape));
      assert r.path == level.best.path;
      LevelTriesTarget(ctx, path, depth, Read(tape));
      var i :| 0 <= i < |level.evaluations| && level.evaluations[i].path == path + [ctx.target];
      assert Candidate(ctx, path, level.evaluations[i]);
      var j :| 0 <= j < |level.evaluations| && level.evaluations[j] == Eval(level.best.path.value, Some(level.best.cost.value));
      assert Candidate(ctx, path, level.evaluations[j]);
    }
  }

  /** A candidate rollout that found nothing evaluated nothing that
      succeeded, so the bound of the rest of the level covers it too. */
  lemma UnpricedFirst(ctx: Ctx, cand: Rolled, rest: Sweep, r: Sweep)
    requires cand.path.None? && Oracled(ctx, cand.candidates) && Dominated(ctx, cand.path, cand.candidates)
    requires Oracled(ctx, rest.candidates) && Bounded(rest.best.cost, rest.candidates)
    requires r.best == rest.best && r.candidates == cand.candidates + rest.candidates
    ensures Oracled(ctx, r.candidates) && Bounded(r.best.cost, r.candidates)
  {
    var cs := r.candidates;
    forall i | 0 <= i < |cs|
      ensures cs[i].cost == ctx.oracle(ctx.seed, cs[i].path)
      ensures cs[i].cost.Some? ==> AtMost(r.best.cost, cs[i].cost.value)
    {
      if i >= |cand.candidates| {
        assert cs[i] == rest.candidates[i - |cand.candidates|];
      } else {
        assert cs[i] == cand.candidates[i];
      }
    }
  }

  /** A candidate p evaluated as e after its own rollout: the level's best
      ends at most e's cost, which is at most every candidate inside p's
      rollout. */
  lemma PricedFirst(ctx: Ctx, cand: Rolled, e: Eval, local: Best, rest: Sweep, r: Sweep)
    requires cand.path.Some? && e == Eval(cand.path.value, ctx.oracle(ctx.seed, cand.path.value))
    requires Oracled(ctx, cand.candidates) && Dominated(ctx, cand.path, cand.candidates)
    requires IsBestOf(rest.best, Improve(local, e), rest.evaluations)
    requires Oracled(ctx, rest.candidates) && Bounded(rest.best.cost, rest.candidates)
    requires r.best == rest.best && r.candidates == cand.candidates + [e] + rest.candidates
    ensures Oracled(ctx, r.candidates) && Bounded(r.best.cost, r.candidates)
  {
    if e.cost.Some? {
      ImproveAtMost(local, e);
      BestOfKeeps(rest.best, Improve(local, e), rest.evaluations, e.cost.value);
    }
    var cs, k := r.candidates, |cand.candidates|;
    forall i | 0 <= i < |cs|
      ensures cs[i].cost == ctx.oracle(ctx.seed, cs[i].path)
      ensures cs[i].cost.Some? ==> AtMost(r.best.cost, cs[i].cost.value)
    {
      if i > k {
        assert cs[i] == rest.candidates[i - k - 1];
      } else if i == k {
        assert cs[i] == e;
      } else {
        assert cs[i] == cand.candidates[i];
      }
    }
  }

  /** The rollouts of the main loop: what it evaluated itself, and every
      candidate evaluated inside the rollouts. */
  datatype Trace = Trace(evaluations: seq<Eval>, candidates: seq<Eval>)

  /** Every successful candidate is matched by a successful evaluation that
      costs no more. */
  ghost predicate Covered(evals: seq<Eval>, cands: seq<Eval>) {
    forall i | 0 <= i < |cands| && cands[i].cost.Some? ::
      exists j | 0 <= j < |evals| :: evals[j].cost.Some? && evals[j].cost.value <= cands[i].cost.value
  }

  /** The main loop of `monte_carlo_with_nested_rollouts`: the rollouts from
      `[source]` run until the clock read at the loop head finds the budget
      spent, and every rollout that reached the target is evaluated. */
  function NestedEvaluations(ctx: Ctx, source: Node, depth: nat, tape: Tape): (r: Trace)
    requires ValidGraph(ctx.g) && source in ctx.g
    ensures Evaluated(ctx.g, source, ctx.target, ctx.seed, ctx.oracle, r.evaluations)
    ensures Oracled(ctx, r.candidates) && Covered(r.evaluations, r.candidates)
    ensures Expired(ctx, tape) ==> r == Trace([], [])
    ensures !Expired(ctx, tape) ==> var rolled := NestedRollout(ctx, [source], depth, Read(tape));
      rolled.path.Some? ==> |r.evaluations| > 0 && r.evaluations[0] == Eval(rolled.path.value, ctx.oracle(ctx.seed, rolled.path.value))
    decreases ctx.deadline - tape.ticks
  {
    if Expired(ctx, tape) then Trace([], [])
    else
      var rolled := NestedRollout(ctx, [source], depth, Read(tape));
      var rest := NestedEvaluations(ctx, source, depth, rolled.tape);
      match rolled.path
      case None =>
        var r := Trace(rest.evaluations, rolled.candidates + rest.candidates);
        CoveredUnpriced(ctx, rolled, rest, r);
        r
      case Some(p) =>
        assert p[..1] == [source];
        var r := Trace([Eval(p, ctx.oracle(ctx.seed, p))] + rest.evaluations, rolled.candidates + rest.candidates);
        CoveredPriced(ctx, rolled, rest, r);
        r
  }

  lemma CoveredUnpriced(ctx: Ctx, rolled: Rolled, rest: Trace, r: Trace)
    requires rolled.path.None? && Oracled(ctx, rolled.candidates) && Dominated(ctx, rolled.path, rolled.candidates)
    requires Oracled(ctx, rest.candidates) && Covered(rest.evaluations, rest.candidates)
    requires r == Trace(rest.evaluations, rolled.candidates + rest.candidates)
    ensures Oracled(ctx, r.candidates) && Covered(r.evaluations, r.candidates)
  {
    var cs, k := r.candidates, |rolled.candidates|;
    forall i | 0 <= i < |cs|
      ensures cs[i].cost == ctx.oracle(ctx.seed, cs[i].path)
      ensures cs[i].cost.Some? ==>
        exists j | 0 <= j < |r.evaluations| :: r.evaluations[j].cost.Some? && r.evaluations[j].cost.value <= cs[i].cost.value
    {
      if i >= k {
        assert cs[i] == rest.candidates[i - k];
      } else {
        assert cs[i] == rolled.candidates[i];
      }
    }
  }

  lemma CoveredPriced(ctx: Ctx, rolled: Rolled, rest: Trace, r: Trace)
    requires rolled.path.Some? && Oracled(ctx, rolled.candidates) && Dominated(ctx, rolled.path, rolled.candidates)
    requires Oracled(ctx, rest.candidates) && Covered(rest.evaluations, rest.candidates)
    requires var p := rolled.path.value;
      r == Trace([Eval(p, ctx.oracle(ctx.seed, p))] + rest.evaluations, rolled.candidates + rest.candidates)
    ensures Oracled(ctx, r.candidates) && Covered(r.evaluations, r.candidates)
  {
    var cs, es, k := r.candidates, r.evaluations, |rolled.candidates|;
    forall i | 0 <= i < |cs|
      ensures cs[i].cost == ctx.oracle(ctx.seed, cs[i].path)
      ensures cs[i].cost.Some? ==> exists j | 0 <= j < |es| :: es[j].cost.Some? && es[j].cost.value <= cs[i].cost.value
    {
      if i >= k {
        assert cs[i] == rest.candidates[i - k];
        if cs[i].cost.Some? {
          var j :| 0 <= j < |rest.evaluations| && rest.evaluations[j].cost.Some? && rest.evaluations[j].cost.value <= cs[i].cost.value;
          assert es[j + 1] == rest.evaluations[j];
        }
      } else {
        assert cs[i] == rolled.candidates[i];
        assert es[0].cost == ctx.oracle(ctx.seed, rolled.path.value);
      }
    }
  }

  /** `monte_carlo_with_nested_rollouts`: deadline is the number of clock
      ticks the budget allows, rng the streams fixed by `random.seed(seed)`.
      The best it reports costs no more than any candidate evaluated at any
      level of any rollout. */
  function MonteCarloWithNestedRollouts(g: Graph, s: Node, t: Node, seed: int, oracle: Oracle, rng: Rng, deadline: nat, depth: nat): (r: Run)
    requires ValidGraph(g) && s in g
    ensures Evaluated(g, s, t, seed, oracle, r.evaluations)
    ensures KeptBest(r.best, r.evaluations)
    ensures deadline == 0 ==> r.best == NoBest
    ensures r.best.path.Some? ==> Route(g, s, t, r.best.path.value) && oracle(seed, r.best.path.value) == Some(r.best.cost.value)
    ensures var inner := NestedEvaluations(Ctx(g, t, seed, oracle, rng, deadline), s, depth, Tape(0, 0)).candidates;
      Bounded(r.best.cost, inner)
  {
    var ctx := Ctx(g, t, seed, oracle, rng, deadline);
    var trace := NestedEvaluations(ctx, s, depth, Tape(0, 0));
    var b := Track(trace.evaluations);
    BestIsEvaluated(g, s, t, seed, oracle, b, trace.evaluations);
    Run(b, trace.evaluations)
  }
}
