/**
 `GraphEnvironment`: the agent's position, the path it has walked and the
 set of nodes it has visited, with the fixed order of checks a step makes.
 */
module Navigation {
  import opened Wrappers
  import opened Graphs

  /** The environment's fixed parameters. hops(a) is the hop distance from a
      to the goal (`nx.shortest_path_length`), None when there is no path. */
  datatype Config = Config(graph: Graph, start: Node, goal: Node, seed: int, oracle: Oracle, hops: Node -> Option<nat>)

  /** `current_node`, `path` and `visited_nodes`. */
  datatype Env = Env(current: Node, path: Path, visited: set<Node>)

  const RevisitPenalty: real := 50.0
  const OverlengthPenalty: real := 100.0

  /** The reward for reaching the goal when the oracle gave no usable cost. */
  const FailedGoalReward: real := -100.0

  /** `reset()`. */
  function Reset(cfg: Config): (r: Env)
    ensures r.path == [cfg.start] && r.current == cfg.start
    ensures cfg.start in cfg.graph ==> Live(cfg, r)
  {
    Env(cfg.start, [cfg.start], {cfg.start})
  }

  /** `get_actions(node)`: the neighbours, in adjacency order. */
  function GetActions(cfg: Config, node: Node): (r: seq<Node>)
    requires node in cfg.graph
    ensures forall a :: a in r <==> a in cfg.graph[node]
  {
    cfg.graph[node]
  }

  /** `len(path) + remaining_hops > len(graph.nodes)` for a path of n nodes,
      an unreachable goal counting as infinitely far. */
  predicate TooLong(cfg: Config, n: nat, action: Node) {
    cfg.hops(action).None? || n + cfg.hops(action).value > |cfg.graph.Keys|
  }

  predicate Overlength(cfg: Config, env: Env, action: Node) {
    TooLong(cfg, |env.path|, action)
  }

  /** `1 / cost if cost else -100`: a missing or zero cost is a failure. */
  function GoalReward(cost: Option<real>): (r: real)
    ensures cost.Some? && cost.value > 0.0 ==> r > 0.0
    ensures cost.Some? && cost.value != 0.0 ==> r * cost.value == 1.0
    ensures cost.None? || cost.value == 0.0 ==> r == FailedGoalReward
  {
    if cost.None? || cost.value == 0.0 then FailedGoalReward else 1.0 / cost.value
  }

  /** The triple `step` returns, with the environment after it. */
  datatype Transition = Transition(env: Env, next: Node, reward: real, done: bool)

  datatype Stepped = Stepped(t: Transition) | StepRaised(error: Error)

  /** Which check of `step` fails first: the current node's adjacency
      lookup, the action's validity, then the hop count to the goal. */
  function StepError(cfg: Config, env: Env, action: Node): Error {
    if env.current !in cfg.graph then MissingKey
    else if action !in cfg.graph[env.current] then InvalidAction
    else NodeNotFound
  }

  /** `step(action)`. */
  function Step(cfg: Config, env: Env, action: Node): (r: Stepped)
    // The hop count is asked for only after the action is known valid, and
    // asking it for a goal outside the graph raises.
    ensures r.StepRaised? <==> env.current !in cfg.graph || action !in cfg.graph[env.current] || cfg.goal !in cfg.graph
    ensures r.StepRaised? ==> r.error == StepError(cfg, env, action)
    ensures r.Stepped? ==> r.t.next == env.current || r.t.next == action
    ensures r.Stepped? && ValidGraph(cfg.graph) ==> r.t.next in cfg.graph
    // The overlength check comes first: a revisit that is also too long, and
    // any step towards an unreachable goal, get the overlength penalty.
    ensures r.Stepped? && Overlength(cfg, env, action) ==>
      r.t == Transition(env, env.current, -OverlengthPenalty, true)
    ensures r.Stepped? && !Overlength(cfg, env, action) && action in env.visited ==>
      r.t == Transition(env, env.current, -RevisitPenalty, true)
    ensures r.Stepped? && !Overlength(cfg, env, action) && action !in env.visited ==>
      && r.t.env.path == env.path + [action]
      && r.t.env.visited == env.visited + {action}
      && r.t.next == action
      && (r.t.done <==> action == cfg.goal)
      && r.t.env.current == (if action == cfg.goal then env.current else action)
      && r.t.reward == (if action == cfg.goal then GoalReward(cfg.oracle(cfg.seed, r.t.env.path)) else 0.0)
  {
    if env.current !in cfg.graph then StepRaised(MissingKey)
    else if action !in cfg.graph[env.current] then StepRaised(InvalidAction)
    else if cfg.goal !in cfg.graph then StepRaised(NodeNotFound)
    else if Overlength(cfg, env, action) then Stepped(Transition(env, env.current, -OverlengthPenalty, true))
    else if action in env.visited then Stepped(Transition(env, env.current, -RevisitPenalty, true))
    else
      var path, visited := env.path + [action], env.visited + {action};
      if action == cfg.goal then
        Stepped(Transition(Env(env.current, path, visited), action, GoalReward(cfg.oracle(cfg.seed, path)), true))
      else
        Stepped(Transition(Env(action, path, visited), action, 0.0, false))
  }

  /** The path bookkeeping: the walk starts at start, is simple, follows
      edges, and the visited set is exactly its set of nodes. */
  ghost predicate Tracked(cfg: Config, env: Env) {
    && |env.path| > 0
    && env.path[0] == cfg.start
    && env.visited == Nodes(env.path)
    && NoDup(env.path)
    && Adjacent(cfg.graph, env.path)
  }

  /** An environment the agent can keep stepping: the agent is at the end
      of its path, on a node of the graph. */
  ghost predicate Live(cfg: Config, env: Env) {
    Tracked(cfg, env) && env.current == Last(env.path) && env.current in cfg.graph
  }

  /** The state a step onto the goal leaves behind: the goal is on the path
      but `current_node` still names the node before it. */
  ghost predicate Parked(cfg: Config, env: Env) {
    && Tracked(cfg, env)
    && |env.path| >= 2
    && Last(env.path) == cfg.goal
    && env.current == env.path[|env.path| - 2]
  }

  /** A step from a live environment leaves it live, or parked after the
      goal; only an advance to a fresh node that is not the goal continues
      the episode, and it grows the path by that node. */
  lemma StepKeepsTrack(cfg: Config, env: Env, action: Node)
    requires ValidGraph(cfg.graph) && Live(cfg, env)
    requires Step(cfg, env, action).Stepped?
    ensures var t := Step(cfg, env, action).t;
      && (Live(cfg, t.env) || (Parked(cfg, t.env) && t.done && t.next == cfg.goal))
      && (!t.done ==> t.env.current == t.next && t.env.path == env.path + [t.next] && t.next !in env.path)
  {
    var t := Step(cfg, env, action).t;
    if !Overlength(cfg, env, action) && action !in env.visited {
      NeighbourInGraph(cfg.graph, env.current, action);
      AppendNoDup(env.path, action);
      AppendAdjacent(cfg.graph, env.path, action);
      assert Nodes(env.path + [action]) == Nodes(env.path) + {action};
      var p := t.env.path;
      assert p[|p| - 2] == env.current;
    }
  }

  /** Every action `get_actions` offers from a live environment is accepted
      when the goal is a node; when it is not, every one of them raises. */
  lemma OfferedActionsAccepted(cfg: Config, env: Env, action: Node)
    requires Live(cfg, env) && action in GetActions(cfg, env.current)
    ensures Step(cfg, env, action).Stepped? <==> cfg.goal in cfg.graph
    ensures cfg.goal !in cfg.graph ==> Step(cfg, env, action) == StepRaised(NodeNotFound)
  {
  }
}
