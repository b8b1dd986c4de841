/**
 Tabular Q-learning over the navigation environment: the Q-table, its
 one-entry temporal-difference update, the training episodes, and the
 greedy policy read back from the table.
 */
module QLearning {
  import opened Wrappers
  import opened Graphs
  import opened Randomness
  import opened Navigation

  /** One `action: value` item of a state's dict, in insertion order. */
  datatype Entry = Entry(action: Node, value: real)

  type Row = seq<Entry>

  type QTable = map<Node, Row>

  /** alpha and gamma. */
  const LearningRate: real := 0.2
  const Discount: real := 0.9

  function Actions(row: Row): (r: seq<Node>)
    ensures |r| == |row| && forall i | 0 <= i < |row| :: r[i] == row[i].action
  {
    if row == [] then [] else [row[0].action] + Actions(row[1..])
  }

  /** `{a: 0 for a in actions}`. */
  function ZeroRow(actions: seq<Node>): (r: Row)
    ensures Actions(r) == actions
    ensures forall i | 0 <= i < |r| :: r[i].value == 0.0
  {
    if actions == [] then [] else [Entry(actions[0], 0.0)] + ZeroRow(actions[1..])
  }

  /** Every node of the graph has a row, and a row lists the node's
      neighbours in adjacency order. */
  ghost predicate Shaped(g: Graph, q: QTable) {
    q.Keys == g.Keys && forall n | n in q :: Actions(q[n]) == g[n]
  }

  /** The table built before training: every neighbour of every node at 0. */
  function InitTable(g: Graph): (r: QTable)
    ensures Shaped(g, r)
    ensures forall n, i | n in r && 0 <= i < |r[n]| :: r[n][i].value == 0.0
  {
    map n | n in g :: ZeroRow(g[n])
  }

  /** `max(row.values(), default=0)`. */
  function RowMax(row: Row): (r: real)
    ensures row == [] ==> r == 0.0
    ensures forall i | 0 <= i < |row| :: row[i].value <= r
    ensures row != [] ==> exists i | 0 <= i < |row| :: row[i].value == r
  {
    if row == [] then 0.0
    else if |row| == 1 then row[0].value
    else
      var rest := RowMax(row[1..]);
      if row[0].value >= rest then row[0].value else rest
  }

  /** The index `max(row, key=row.get)` picks: a greatest value, the first
      one when several are equal. */
  function Argmax(row: Row): (r: nat)
    requires row != []
    ensures r < |row|
    ensures forall j | 0 <= j < |row| :: row[j].value <= row[r].value
    ensures forall j | 0 <= j < r :: row[j].value < row[r].value
  {
    ArgmaxFrom(row, 1, 0)
  }

  /** The scan of `max`: best is the first greatest among row[..i]. */
  function ArgmaxFrom(row: Row, i: nat, best: nat): (r: nat)
    requires best < i <= |row|
    requires forall j | 0 <= j < i :: row[j].value <= row[best].value
    requires forall j | 0 <= j < best :: row[j].value < row[best].value
    ensures best <= r < |row|
    ensures forall j | 0 <= j < |row| :: row[j].value <= row[r].value
    ensures forall j | 0 <= j < r :: row[j].value < row[r].value
    decreases |row| - i
  {
    if i == |row| then best
    else if row[i].value > row[best].value then ArgmaxFrom(row, i + 1, i)
    else ArgmaxFrom(row, i + 1, best)
  }

  /** The position of action in the row. */
  function IndexOf(row: Row, action: Node): (r: nat)
    requires action in Actions(row)
    ensures r < |row| && row[r].action == action
    ensures forall j | 0 <= j < r :: row[j].action != action
  {
    if row[0].action == action then 0
    else
      assert Actions(row)[1..] == Actions(row[1..]);
      1 + IndexOf(row[1..], action)
  }

  /** `Q[state][action]`. */
  function ValueOf(row: Row, action: Node): real
    requires action in Actions(row)
  {
    row[IndexOf(row, action)].value
  }

  /** `if next_state not in Q: Q[next_state] = {a: 0 for a in get_actions(next_state)}`. */
  function AddRow(q: QTable, g: Graph, n: Node): (r: QTable)
    requires n in g
    ensures n in r && forall m | m in q :: m in r && r[m] == q[m]
    ensures r.Keys == q.Keys + {n}
    ensures n !in q ==> r[n] == ZeroRow(g[n])
    ensures Shaped(g, q) ==> r == q
  {
    if n in q then q else q[n := ZeroRow(g[n])]
  }

  /** `Q[state][action] += alpha * (reward + gamma * max(Q[next].values(), default=0) - Q[state][action])`. */
  function Update(q: QTable, state: Node, action: Node, reward: real, next: Node): (r: QTable)
    requires state in q && next in q && action in Actions(q[state])
    ensures r.Keys == q.Keys
    ensures forall n | n in q && n != state :: r[n] == q[n]
    ensures Actions(r[state]) == Actions(q[state])
    ensures forall j | 0 <= j < |q[state]| && q[state][j].action != action :: r[state][j] == q[state][j]
    ensures var before, target := ValueOf(q[state], action), reward + Discount * RowMax(q[next]);
      ValueOf(r[state], action) == (1.0 - LearningRate) * before + LearningRate * target
    ensures forall g: Graph :: Shaped(g, q) ==> Shaped(g, r)
  {
    var row := q[state];
    var i := IndexOf(row, action);
    var before := row[i].value;
    var target := reward + Discount * RowMax(q[next]);
    var row' := row[i := Entry(action, before + LearningRate * (target - before))];
    assert Actions(row') == Actions(row);
    q[state := row']
  }

  /** The updated entry moves from its old value towards the target, and
      never past it. */
  lemma UpdateMovesTowardTarget(q: QTable, state: Node, action: Node, reward: real, next: Node)
    requires state in q && next in q && action in Actions(q[state])
    ensures var before, target := ValueOf(q[state], action), reward + Discount * RowMax(q[next]);
      var v := ValueOf(Update(q, state, action, reward, next)[state], action);
      (before <= target ==> before <= v <= target) && (target <= before ==> target <= v <= before)
  {
  }

  /** The Q-table, the next position in the `random` stream, and the next
      position in the exploration stream. */
  datatype Learned = Learned(table: QTable, pos: nat, tick: nat)

  /** Entry i holds a greatest value of the row, and no earlier entry does. */
  ghost predicate FirstMax(row: Row, i: int)
    requires 0 <= i < |row|
  {
    && (forall j | 0 <= j < |row| :: row[j].value <= row[i].value)
    && (forall j | 0 <= j < i :: row[j].value < row[i].value)
  }

  /** `max(Q[state], key=Q[state].get)`: the action of the first entry of
      greatest value. */
  function BestAction(row: Row): (r: Node)
    requires row != []
    ensures r in Actions(row)
    ensures exists i | 0 <= i < |row| :: FirstMax(row, i) && r == row[i].action
  {
    var i := Argmax(row);
    assert FirstMax(row, i);
    row[i].action
  }

  /** The action chosen greedily: `max(Q[state], key=Q[state].get,
      default=fallback)`. The default is an argument, so it is drawn even
      when the row is not empty. */
  function Greedy(row: Row, fallback: Node): (r: Node)
    ensures row != [] ==> r == BestAction(row) && r in Actions(row)
    ensures row != [] ==> exists i | 0 <= i < |row| :: FirstMax(row, i) && r == row[i].action
    ensures row == [] ==> r == fallback
  {
    if row == [] then fallback else BestAction(row)
  }

  /** What the table learns from one step of a live environment: the row
      of the state reached is made sure of, then the entry of the action
      taken is updated. */
  function Learn(cfg: Config, q: QTable, env: Env, action: Node, t: Transition): (r: QTable)
    requires ValidGraph(cfg.graph) && Live(cfg, env) && Shaped(cfg.graph, q)
    requires Step(cfg, env, action) == Stepped(t)
    ensures Shaped(cfg.graph, r)
    ensures r == Update(q, env.current, action, t.reward, t.next)
  {
    NeighbourInGraph(cfg.graph, env.current, action);
    var q1 := AddRow(q, cfg.graph, t.next);
    Update(q1, env.current, action, t.reward, t.next)
  }

  /** The action of one training step at a state with neighbours. explore(k)
      is the k-th `np.random.rand() < epsilon`; the `random.choice` draw is
      made whichever branch is taken. */
  function Pick(g: Graph, rng: Rng, explore: nat -> bool, q: QTable, state: Node, pos: nat, tick: nat): (r: Node)
    requires state in g && g[state] != [] && Shaped(g, q)
    ensures r in g[state]
    ensures explore(tick) ==> r == Choice(rng, pos, g[state])
    ensures !explore(tick) ==> r == BestAction(q[state])
  {
    var drawn := Choice(rng, pos, g[state]);
    if explore(tick) then drawn else Greedy(q[state], drawn)
  }

  /** The inner `while not done` loop of one training episode; each step
      consumes one draw from each stream. Its first step raises when the
      goal is not a node, so an episode that gets that far needs the goal
      in the graph. */
  function Episode(cfg: Config, rng: Rng, explore: nat -> bool, q: QTable, env: Env, pos: nat, tick: nat): (r: Learned)
    requires ValidGraph(cfg.graph) && Live(cfg, env) && Shaped(cfg.graph, q)
    requires cfg.goal in cfg.graph || cfg.graph[env.current] == []
    ensures Shaped(cfg.graph, r.table)
    ensures r.pos - pos == r.tick - tick
    ensures tick <= r.tick <= tick + |cfg.graph.Keys - Nodes(env.path)| + 1
    ensures cfg.graph[env.current] == [] ==> r == Learned(q, pos, tick)
    ensures cfg.graph[env.current] != [] ==> tick < r.tick
    ensures cfg.graph[env.current] != [] ==>
      var a := Pick(cfg.graph, rng, explore, q, env.current, pos, tick);
      && Step(cfg, env, a).Stepped?
      && (Step(cfg, env, a).t.done ==> r == Learned(Learn(cfg, q, env, a, Step(cfg, env, a).t), pos + 1, tick + 1))
    decreases |cfg.graph.Keys - Nodes(env.path)|
  {
    var g, state := cfg.graph, env.current;
    if GetActions(cfg, state) == [] then Learned(q, pos, tick)
    else
      var action := Pick(g, rng, explore, q, state, pos, tick);
      match Step(cfg, env, action)
      case StepRaised(_) => assert false; Learned(q, pos, tick)
      case Stepped(t) =>
        StepKeepsTrack(cfg, env, action);
        var q2 := Learn(cfg, q, env, action, t);
        if t.done then Learned(q2, pos + 1, tick + 1)
        else
          FewerUnvisited(g, env.path, t.next);
          Episode(cfg, rng, explore, q2, t.env, pos + 1, tick + 1)
  }

  /** A first step that does not end the episode learns from it and goes on
      from the state it reached, one draw further along each stream. */
  lemma EpisodeContinues(cfg: Config, rng: Rng, explore: nat -> bool, q: QTable, env: Env, pos: nat, tick: nat)
    requires ValidGraph(cfg.graph) && Live(cfg, env) && Shaped(cfg.graph, q)
    requires cfg.goal in cfg.graph && cfg.graph[env.current] != []
    ensures var a := Pick(cfg.graph, rng, explore, q, env.current, pos, tick);
      var s := Step(cfg, env, a);
      s.Stepped? && !s.t.done ==>
        && Live(cfg, s.t.env)
        && Shaped(cfg.graph, Learn(cfg, q, env, a, s.t))
        && Episode(cfg, rng, explore, q, env, pos, tick)
           == Episode(cfg, rng, explore, Learn(cfg, q, env, a, s.t), s.t.env, pos + 1, tick + 1)
  {
    var a := Pick(cfg.graph, rng, explore, q, env.current, pos, tick);
    StepKeepsTrack(cfg, env, a);
  }

  /** What `q_learning` returns, or the error that ended it. */
  datatype Training = Trained(learned: Learned) | TrainRaised(error: Error)

  /** `q_learning(env, duration)`, the time budget being the number of
      episodes it allows; epsilon's annealing is folded into explore. It
      raises when the start is not a node (its actions are looked up), and
      when the goal is not a node but the start has a neighbour (the first
      step asks for the hop count to the goal). */
  function Train(cfg: Config, rng: Rng, explore: nat -> bool, episodes: nat): (r: Training)
    requires ValidGraph(cfg.graph)
    ensures r.TrainRaised? <==>
      episodes > 0 && (cfg.start !in cfg.graph || (cfg.goal !in cfg.graph && cfg.graph[cfg.start] != []))
    ensures r.TrainRaised? ==> r.error == if cfg.start !in cfg.graph then MissingKey else NodeNotFound
    ensures r.Trained? ==> Shaped(cfg.graph, r.learned.table)
    ensures episodes == 0 || (r.Trained? && cfg.graph[cfg.start] == []) ==> r == Trained(Learned(InitTable(cfg.graph), 0, 0))
    ensures r.Trained? && cfg.start in cfg.graph && cfg.graph[cfg.start] != [] ==> episodes <= r.learned.tick
  {
    var q := InitTable(cfg.graph);
    if episodes > 0 && cfg.start !in cfg.graph then TrainRaised(MissingKey)
    else if episodes == 0 then Trained(Learned(q, 0, 0))
    else if cfg.goal !in cfg.graph && cfg.graph[cfg.start] != [] then
      var action := Pick(cfg.graph, rng, explore, q, cfg.start, 0, 0);
      assert Step(cfg, Reset(cfg), action) == StepRaised(NodeNotFound);
      TrainRaised(NodeNotFound)
    else Trained(TrainFrom(cfg, rng, explore, q, 0, 0, episodes))
  }

  /** The episodes of the training loop, each from a reset environment. */
  function TrainFrom(cfg: Config, rng: Rng, explore: nat -> bool, q: QTable, pos: nat, tick: nat, episodes: nat): (r: Learned)
    requires ValidGraph(cfg.graph) && cfg.start in cfg.graph && Shaped(cfg.graph, q)
    requires cfg.goal in cfg.graph || cfg.graph[cfg.start] == []
    ensures Shaped(cfg.graph, r.table)
    ensures episodes == 0 || cfg.graph[cfg.start] == [] ==> r == Learned(q, pos, tick)
    ensures cfg.graph[cfg.start] != [] ==> tick + episodes <= r.tick
    decreases episodes
  {
    if episodes == 0 then Learned(q, pos, tick)
    else
      var e := Episode(cfg, rng, explore, q, Reset(cfg), pos, tick);
      TrainFrom(cfg, rng, explore, e.table, e.pos, e.tick, episodes - 1)
  }

  /** What `evaluate_policy` returns, or the exception a step raised. */
  datatype Evaluation = Evaluation(path: Path, cost: Option<real>) | PolicyRaised(error: Error)

  /** The test that ends the `evaluate_policy` loop before a step: the state
      has no row or an empty one, or its greedy action is already on the
      path. */
  predicate Halts(q: QTable, state: Node, path: Path) {
    state !in q || q[state] == [] || BestAction(q[state]) in path
  }

  /** Why a greedy step from a live environment can raise: the table offers
      an action that is not a neighbour, or the goal is not a node. */
  ghost predicate PolicyError(cfg: Config, q: QTable, e: Error) {
    (e == InvalidAction && !Shaped(cfg.graph, q)) || (e == NodeNotFound && cfg.goal !in cfg.graph)
  }

  /** One pass of the `evaluate_policy` loop. */
  datatype Move = Stop | Final(path: Path) | Advance(env: Env) | MoveRaised(error: Error)

  /** The pass from a live environment: stop when the loop's test says so;
      otherwise step with the greedy action, ending the walk when the step
      is terminal, with the state the step reached appended. */
  function PolicyMove(cfg: Config, q: QTable, env: Env): (r: Move)
    requires ValidGraph(cfg.graph) && Live(cfg, env)
    ensures r.Stop? <==> Halts(q, env.current, env.path)
    ensures MoveFrom(cfg, q, env, r)
    ensures r.Final? ==> Settled(cfg.graph, r.path)
  {
    var state := env.current;
    if Halts(q, state, env.path) then Stop
    else
      var action := BestAction(q[state]);
      match Step(cfg, env, action)
      case StepRaised(e) => MoveRaised(e)
      case Stepped(t) =>
        StepKeepsTrack(cfg, env, action);
        if t.done then
          SettledStep(cfg, env, action);
          assert (env.path + [t.next])[..|env.path|] == env.path;
          Final(env.path + [t.next])
        else Advance(t.env)
  }

  /** What a pass leaves for the walk: a final path one state longer than
      the walk so far, a live environment one fresh state further on, or
      an exception the table or the goal explains. */
  ghost predicate MoveFrom(cfg: Config, q: QTable, env: Env, m: Move) {
    && (m.Final? ==> |m.path| == |env.path| + 1 && m.path[..|env.path|] == env.path)
    && (m.Advance? ==> Live(cfg, m.env) && m.env.path == env.path + [m.env.current] && m.env.current !in env.path)
    && (m.MoveRaised? ==> PolicyError(cfg, q, m.error))
  }

  /** A pass that does not stop steps with the greedy action. */
  lemma PolicyMoveSteps(cfg: Config, q: QTable, env: Env)
    requires ValidGraph(cfg.graph) && Live(cfg, env) && !Halts(q, env.current, env.path)
    ensures MoveOf(cfg, env, BestAction(q[env.current]), PolicyMove(cfg, q, env))
  {
  }

  /** How a pass that steps with action relates to the step: a raise is
      passed on, a terminal step ends the walk with the state it reached
      appended, any other step continues from the environment it leaves. */
  ghost predicate MoveOf(cfg: Config, env: Env, action: Node, r: Move) {
    match Step(cfg, env, action)
    case StepRaised(e) => r == MoveRaised(e)
    case Stepped(t) => r == if t.done then Final(env.path + [t.next]) else Advance(t.env)
  }

  /** Step i of a policy walk p: the greedy action at p[i] was not on the
      path so far, and the walk moved onto it, or, at the last step, the
      action was too far from the goal and the walk repeated p[i]. Only
      the last step can arrive at the goal, since arriving ends the walk. */
  ghost predicate PolicyStep(cfg: Config, q: QTable, p: Path, i: int)
    requires 0 <= i < |p| - 1
  {
    && p[i] in q && q[p[i]] != []
    && (i < |p| - 2 ==> p[i + 1] != cfg.goal)
    && var a := BestAction(q[p[i]]);
       && a !in p[..i + 1]
       && (|| (p[i + 1] == a && !TooLong(cfg, i + 1, a))
           || (i == |p| - 2 && p[i + 1] == p[i] && TooLong(cfg, i + 1, a)))
  }

  /** Every step of p from position `from` on is a policy step. */
  ghost predicate PolicyFrom(cfg: Config, q: QTable, p: Path, from: int) {
    forall i | from <= i < |p| - 1 && 0 <= i :: PolicyStep(cfg, q, p, i)
  }

  /** Why a policy walk ended: the loop's test at its last node, the goal
      reached, or the overlength step that repeats the last node. */
  ghost predicate Halted(cfg: Config, q: QTable, p: Path)
    requires |p| > 0
  {
    || Halts(q, Last(p), p)
    || (|p| >= 2 && Last(p) == cfg.goal)
    || (|p| >= 2 && p[|p| - 1] == p[|p| - 2])
  }

  /** The walk of `evaluate_policy`, or the exception a step raised. */
  datatype Followed = Followed(path: Path) | FollowRaised(error: Error)

  /** The walk of `evaluate_policy`: the passes from env until one stops,
      ends the episode or raises. */
  function FollowPolicy(cfg: Config, q: QTable, env: Env): (r: Followed)
    requires ValidGraph(cfg.graph) && Live(cfg, env)
    ensures r.Followed? ==> |r.path| >= |env.path| && r.path[..|env.path|] == env.path
    ensures r.FollowRaised? ==> PolicyError(cfg, q, r.error)
    decreases |cfg.graph.Keys - Nodes(env.path)|, 1
  {
    FollowOn(cfg, q, env, PolicyMove(cfg, q, env))
  }

  /** The walk after the pass m out of env. */
  function FollowOn(cfg: Config, q: QTable, env: Env, m: Move): (r: Followed)
    requires ValidGraph(cfg.graph) && Live(cfg, env) && MoveFrom(cfg, q, env, m)
    ensures r.Followed? ==> |r.path| >= |env.path| && r.path[..|env.path|] == env.path
    ensures r.FollowRaised? ==> PolicyError(cfg, q, r.error)
    decreases |cfg.graph.Keys - Nodes(env.path)|, 0
  {
    match m
    case Stop => Followed(env.path)
    case Final(p) => Followed(p)
    case MoveRaised(e) => FollowRaised(e)
    case Advance(env') =>
      FewerUnvisited(cfg.graph, env.path, env'.current);
      var r := FollowPolicy(cfg, q, env');
      if r.Followed? then
        PrefixThrough(r.path, env.path, env'.current);
        r
      else r
  }

  /** A path that starts with prefix + [x] starts with prefix. */
  lemma PrefixThrough(p: Path, prefix: Path, x: Node)
    requires |p| > |prefix| && p[..|prefix| + 1] == prefix + [x]
    ensures p[..|prefix|] == prefix
  {
    assert p[..|prefix|] == p[..|prefix| + 1][..|prefix|];
  }

  /** A policy walk from position `from` on: settled, taking the greedy
      action at each step, and ended for one of the loop's reasons. */
  ghost predicate GreedyWalk(cfg: Config, q: QTable, from: int, r: Followed) {
    r.Followed? ==>
      && Settled(cfg.graph, r.path)
      && PolicyFrom(cfg, q, r.path, from)
      && Halted(cfg, q, r.path)
  }

  /** Every path the policy walk returns is settled, takes the greedy
      action at each step, and ends for one of the loop's reasons. */
  lemma {:induction false} FollowPolicySettled(cfg: Config, q: QTable, env: Env)
    requires ValidGraph(cfg.graph) && Live(cfg, env)
    ensures GreedyWalk(cfg, q, |env.path| - 1, FollowPolicy(cfg, q, env))
    decreases |cfg.graph.Keys - Nodes(env.path)|, 1
  {
    var m := PolicyMove(cfg, q, env);
    if !Halts(q, env.current, env.path) {
      PolicyMoveSteps(cfg, q, env);
    }
    FollowOnSettled(cfg, q, env, m);
  }

  /** The policy walk stops at its first arrival at the goal: no node it
      adds, except the last, is the goal. */
  lemma StopsAtGoal(cfg: Config, q: QTable, env: Env)
    requires ValidGraph(cfg.graph) && Live(cfg, env)
    ensures var r := FollowPolicy(cfg, q, env);
      r.Followed? ==> forall i | |env.path| <= i < |r.path| - 1 :: r.path[i] != cfg.goal
  {
    FollowPolicySettled(cfg, q, env);
    var r := FollowPolicy(cfg, q, env);
    if r.Followed? {
      forall i | |env.path| <= i < |r.path| - 1
        ensures r.path[i] != cfg.goal
      {
        assert PolicyStep(cfg, q, r.path, i - 1);
      }
    }
  }

  /** The same for the walk after a pass m that behaves as the pass out of
      env does. */
  lemma {:induction false} FollowOnSettled(cfg: Config, q: QTable, env: Env, m: Move)
    requires ValidGraph(cfg.graph) && Live(cfg, env) && MoveFrom(cfg, q, env, m)
    requires m.Final? ==> Settled(cfg.graph, m.path)
    requires m.Stop? <==> Halts(q, env.current, env.path)
    requires !m.Stop? ==> MoveOf(cfg, env, BestAction(q[env.current]), m)
    ensures GreedyWalk(cfg, q, |env.path| - 1, FollowOn(cfg, q, env, m))
    decreases |cfg.graph.Keys - Nodes(env.path)|, 0
  {
    match m
    case Stop => LiveSettled(cfg, env);
    case Final(p) =>
      PolicyStepHolds(cfg, q, env, p);
      FinalHalted(cfg, q, env, p);
    case MoveRaised(_) =>
    case Advance(env') =>
      FewerUnvisited(cfg.graph, env.path, env'.current);
      FollowPolicySettled(cfg, q, env');
      AdvanceSettled(cfg, q, env, env', FollowPolicy(cfg, q, env'));
  }

  /** A greedy walk from the environment an advancing pass reached is a
      greedy walk from the one it left. */
  lemma AdvanceSettled(cfg: Config, q: QTable, env: Env, env': Env, r: Followed)
    requires ValidGraph(cfg.graph) && Live(cfg, env) && !Halts(q, env.current, env.path)
    requires MoveOf(cfg, env, BestAction(q[env.current]), Advance(env'))
    requires MoveFrom(cfg, q, env, Advance(env'))
    requires r.Followed? ==> |r.path| >= |env'.path| && r.path[..|env'.path|] == env'.path
    requires GreedyWalk(cfg, q, |env'.path| - 1, r)
    ensures GreedyWalk(cfg, q, |env.path| - 1, r)
  {
    if r.Followed? {
      PolicyStepHolds(cfg, q, env, r.path);
    }
  }

  /** A terminal greedy step ends the walk at the goal or on the repeated
      node of an overlength step. */
  lemma FinalHalted(cfg: Config, q: QTable, env: Env, p: Path)
    requires ValidGraph(cfg.graph) && Live(cfg, env) && !Halts(q, env.current, env.path)
    requires MoveOf(cfg, env, BestAction(q[env.current]), Final(p))
    ensures |p| > 0 && Halted(cfg, q, p)
  {
    var a := BestAction(q[env.current]);
    var t := Step(cfg, env, a).t;
    assert p == env.path + [t.next];
    if Overlength(cfg, env, a) {
      assert p[|p| - 2] == env.current;
    } else {
      assert a !in env.visited;
      assert Last(p) == cfg.goal;
    }
  }

  /** The greedy step out of env makes a policy step of a walk p that
      continues with the state it reached. */
  lemma PolicyStepHolds(cfg: Config, q: QTable, env: Env, p: Path)
    requires ValidGraph(cfg.graph) && Live(cfg, env) && !Halts(q, env.current, env.path)
    requires var s := Step(cfg, env, BestAction(q[env.current]));
      && s.Stepped?
      && |p| > |env.path| && p[..|env.path| + 1] == env.path + [s.t.next]
      && (s.t.done ==> |p| == |env.path| + 1)
      && PolicyFrom(cfg, q, p, |env.path|)
    ensures PolicyFrom(cfg, q, p, |env.path| - 1)
  {
    var a := BestAction(q[env.current]);
    var t := Step(cfg, env, a).t;
    var i := |env.path| - 1;
    PrefixThrough(p, env.path, t.next);
    assert p[i] == env.current;
    assert p[i + 1] == (env.path + [t.next])[i + 1] == t.next;
    assert PolicyStep(cfg, q, p, i);
  }

  /** On a table shaped like the graph every greedy action is a neighbour,
      so with the goal a node no step raises. */
  lemma {:induction false} ShapedPolicyNeverRaises(cfg: Config, q: QTable, env: Env)
    requires ValidGraph(cfg.graph) && Live(cfg, env)
    ensures Shaped(cfg.graph, q) && cfg.goal in cfg.graph ==> FollowPolicy(cfg, q, env).Followed?
    decreases |cfg.graph.Keys - Nodes(env.path)|
  {
    match PolicyMove(cfg, q, env)
    case Stop =>
    case Final(p) =>
    case MoveRaised(_) =>
    case Advance(env') =>
      FewerUnvisited(cfg.graph, env.path, env'.current);
      ShapedPolicyNeverRaises(cfg, q, env');
  }

  lemma LiveSettled(cfg: Config, env: Env)
    requires Live(cfg, env)
    ensures Settled(cfg.graph, env.path)
  {
  }

  /** The shape of a policy path: simple and along edges, or so up to a last
      node that repeats the one before it (the overlength step). */
  ghost predicate Settled(g: Graph, p: Path) {
    && |p| > 0
    && (|| SimpleUpTo(g, p, |p|)
        || (|p| >= 2 && p[|p| - 1] == p[|p| - 2] && SimpleUpTo(g, p, |p| - 1)))
  }

  /** The first n nodes of p are distinct and joined by edges. */
  ghost predicate SimpleUpTo(g: Graph, p: Path, n: nat)
    requires n <= |p|
  {
    && (forall i, j | 0 <= i < j < n :: p[i] != p[j])
    && (forall i | 0 <= i < n - 1 :: p[i] in g && p[i + 1] in g[p[i]])
  }

  /** A terminal step from a live environment: the path it appends to is
      settled. */
  lemma SettledStep(cfg: Config, env: Env, action: Node)
    requires ValidGraph(cfg.graph) && Live(cfg, env) && action !in env.path
    requires Step(cfg, env, action).Stepped? && Step(cfg, env, action).t.done
    ensures Settled(cfg.graph, env.path + [Step(cfg, env, action).t.next])
  {
    var t := Step(cfg, env, action).t;
    var p := env.path + [t.next];
    if Overlength(cfg, env, action) {
      assert p[|p| - 1] == p[|p| - 2];
      assert forall i | 0 <= i < |p| - 1 :: p[i] == env.path[i];
    } else {
      AppendNoDup(env.path, action);
      AppendAdjacent(cfg.graph, env.path, action);
    }
  }

  /** `evaluate_policy(env, Q)`: the greedy walk from the start, its cost
      asked for only when the walk ended at the goal. */
  function EvaluatePolicy(cfg: Config, q: QTable): (r: Evaluation)
    requires ValidGraph(cfg.graph)
    ensures r.Evaluation? ==> |r.path| > 0 && r.path[0] == cfg.start && Settled(cfg.graph, r.path)
    ensures r.Evaluation? ==> PolicyFrom(cfg, q, r.path, 0) && Halted(cfg, q, r.path)
    ensures r.Evaluation? ==> r.cost == if Last(r.path) == cfg.goal then cfg.oracle(cfg.seed, r.path) else None
    ensures r.PolicyRaised? ==>
      if cfg.start !in cfg.graph then r.error == MissingKey
      else PolicyError(cfg, q, r.error)
    ensures Shaped(cfg.graph, q) && cfg.goal in cfg.graph ==> r.Evaluation?
  {
    var env := Reset(cfg);
    if cfg.start !in cfg.graph then
      // The walk stops at once or its first step looks up a missing node.
      var start := [cfg.start];
      if Halts(q, cfg.start, start) then
        Evaluation(start, if cfg.start == cfg.goal then cfg.oracle(cfg.seed, start) else None)
      else PolicyRaised(MissingKey)
    else
    FollowPolicySettled(cfg, q, env);
    ShapedPolicyNeverRaises(cfg, q, env);
    match FollowPolicy(cfg, q, env)
    case FollowRaised(e) => PolicyRaised(e)
    case Followed(p) =>
      assert p[..1] == [cfg.start];
      Evaluation(p, if Last(p) == cfg.goal then cfg.oracle(cfg.seed, p) else None)
  }
}
