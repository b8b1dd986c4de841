# Cheapest-path search strategies over a black-box cost oracle

This project models the search core of Rendu_PFE. That core holds five ways of looking for a cheap
path between two nodes of an undirected graph. A path's cost is known only by asking an external
program (the *oracle*). The five strategies are:

- **classic Monte Carlo**: uniform random simple walks;
- **Monte Carlo with exploration**: walks weighted by a visit memory, whose edges are penalised by
  `1 + cost * 100` after each evaluation;
- **Monte Carlo with nested rollouts**: a recursion of bounded depth that keeps the cheapest complete
  candidate at each level, with a bounded random fallback at depth zero;
- **tabular Q-learning** over a graph-navigation environment, followed by reading back a greedy policy;
- **a greedy baseline**: it ranks the neighbours of the current node by the cost of one random
  completion sampled from each.

Each strategy is a pure Dafny function:

- The graph is an adjacency map (`Graphs.Graph`).
- The oracle is a function parameter `(seed, path) -> Option<real>`. `None` stands for a failed or
  unparsable evaluation.
- The program's random draws are arbitrary streams (`Randomness.Rng`), read at a position that is
  threaded through the computation. Every property proved holds for every run.
- A wall-clock budget becomes one of two things:
  - the number of loop passes it allows (classic, exploration, Q-learning), because those loops read
    the clock only at their head;
  - for nested rollouts, which read the clock at every level, the index of the first clock read that
    finds the budget spent (`MonteCarlo.Ctx.deadline`).

Module layout:

| module | file | contents |
|---|---|---|
| `Wrappers` | `wrappers.dfy` | `Option` |
| `Graphs` | `graphs.dfy` | nodes, paths, the oracle type, the error kinds, and the path shapes `Route`, `Walk` and `Continues` |
| `Randomness` | `randomness.dfy` | `random.choice`, CPython's `random.shuffle` (Fisher–Yates), and `random.choices` with weights (running totals plus `bisect_right`) |
| `Anytime` | `anytime.dfy` | the "keep the strictly better" best-path bookkeeping, with the reference predicate `KeptBest` |
| `Walks` | `walks.dfy` | `generate_random_path` and `generate_random_path_weighted` of `monte_carlo.py`, and the visit memory with its penalties |
| `MonteCarlo` | `monte_carlo.dfy` | the three Monte Carlo strategies |
| `Navigation` | `environment.dfy` | `GraphEnvironment` |
| `QLearning` | `q_learning.dfy` | `q_learning` and `evaluate_policy` |
| `Baseline` | `baseline.dfy` | `baseline.py.py` |

Several behaviours of the code are easy to misread from its names and comments. The model follows
the code in each of them:

- **Overlength test.** `step` ends an episode as "overlength" when `len(path) + hops > |V|`, not
  `len(path) + 1 + hops > |V|`. The overlength test also comes before the revisit test. So a revisit
  that is also too long gets the overlength penalty, not the revisit penalty (`Navigation.Step`).
- **Q-table.** The table is built for every node before training. The lazy addition of a state on
  first visit therefore never fires on a table built this way (`QLearning.AddRow`).
- **Greedy default.** The `default=random.choice(...)` argument of the greedy `max` is evaluated
  even when the row is not empty. So every training step consumes exactly one `random.choice` draw
  (`QLearning.Episode`).
- **Policy path after an overlength step.** When a step of the policy walk is overlength, the
  current node is appended again. The returned path can therefore end by repeating a node
  (`QLearning.Settled`).
- **Fallback length.** The random fallback of the nested rollouts stops only when `steps > 50`, so
  it may add 51 nodes (`MonteCarlo.ExtendRandomly`).
- **Baseline termination.** The baseline is not bounded by the number of edges. Its walks may
  revisit nodes, and the sampled completions are random, so it can run forever. The model gives it
  a step budget (`fuel`).
- **Goal outside the graph.** `step` asks networkx for the hop count from the action to the goal
  and catches only `NetworkXNoPath`. A goal that is not a node makes that call raise `NodeNotFound`,
  so every valid step raises. Q-learning raises on its first step, and the policy walk raises on
  its first step (`Navigation.Step`, `QLearning.Train`, `QLearning.EvaluatePolicy`).
- **Baseline cost.** The baseline's reported `total_cost` is always the oracle's cost of the
  returned path, unless the source is the target (`Baseline.GreedyFrom`).

## Model

| member | source | states |
|---|---|---|
| Graphs.Unvisited | Rendu_PFE/monte_carlo.py:14 | The neighbours left to choose from are exactly the neighbours not already on the path. |
| Randomness.Choice | Rendu_PFE/monte_carlo.py:17 | `random.choice` returns an element of the list. |
| Randomness.Shuffle | Rendu_PFE/monte_carlo.py:152 | `random.shuffle` permutes the list (same multiset) and consumes one draw per swap, `n - 1` in all. |
| Randomness.WeightedIndex | Rendu_PFE/monte_carlo.py:35 | `random.choices` with weights picks a valid index, and raises its ValueError exactly when the weights do not sum to a positive total. |
| Randomness.WeightedIndexSlot | Rendu_PFE/monte_carlo.py:35 | With positive weights the pick is the index whose slice of the running totals holds the scaled draw `random() * total`. |
| Randomness.BisectFindsSlot | Rendu_PFE/monte_carlo.py:35 | On sorted totals, `bisect_right` stops at the first total above the draw, or at the cap. |
| Anytime.TrackFrom | Rendu_PFE/monte_carlo.py:57-59 | Keeping the strictly better result yields the start value when no evaluation beats it; otherwise it yields the first of the cheapest evaluations. |
| Anytime.Track | Rendu_PFE/monte_carlo.py:47-59 | From `(None, inf)` the result satisfies KeptBest: a path exactly when some evaluation succeeded, a cost no larger than any success, and the first evaluation reaching it. No evaluations gives `(None, inf)`. |
| Anytime.TrackKeepsBest | Rendu_PFE/monte_carlo.py:57-59 | The best-tracking loop meets the KeptBest reference predicate. |
| Anytime.BestOfKeeps | Rendu_PFE/monte_carlo.py:166-168 | Keeping the strictly better never raises the cost: a bound the starting best meets, the tracked best meets too. |
| Anytime.ImproveAtMost | Rendu_PFE/monte_carlo.py:166-168 | After one improvement step with a successful evaluation, the kept cost is at most that evaluation's. |
| Walks.SelectionWeights | Rendu_PFE/monte_carlo.py:34 | Each weight is `1 / (memory + 1e-6)` of the edge to that candidate. ZeroDivisionError exactly when some memory value is `-1e-6`. |
| Walks.LighterMemoryHeavierWeight | Rendu_PFE/monte_carlo.py:34 | An edge with less accumulated memory gets a strictly larger selection weight. |
| Walks.Pick | Rendu_PFE/monte_carlo.py:35 | The drawn node is a candidate, and one draw is consumed. Only a weighted draw can raise, and it cannot once every memory value is above `-1e-6`. |
| Walks.WalkOn | Rendu_PFE/monte_carlo.py:30-38 | The walk loop continues the path with fresh nodes only, stays simple and along edges, and stops at the target or at a node whose neighbours are all visited. |
| Walks.WalkOnTotal | Rendu_PFE/monte_carlo.py:30-38 | A uniform walk never raises. A weighted walk never raises while every memory value is above `-1e-6`. |
| Walks.RandomPath | Rendu_PFE/monte_carlo.py:6-39 | Either walk returns a simple path from source to target, or None only when it got stuck at a dead end. Source equal to target gives `[source]` without a draw. |
| Walks.SameEndsNeverStuck | Rendu_PFE/monte_carlo.py:13 | A walk that starts at the target is never stuck before it. |
| Walks.Edges | Rendu_PFE/monte_carlo.py:88-89 | The penalised edges are `(path[i], path[i+1])` for `i < len(path) - 1`. |
| Walks.AddPenalty | Rendu_PFE/monte_carlo.py:89 | Each edge's memory grows by the penalty once per occurrence in the list, and no other edge changes. |
| Walks.Penalize | Rendu_PFE/monte_carlo.py:88-89 | Penalising a path adds the penalty to each of its edges, per occurrence. |
| Walks.PenalizeSimplePath | Rendu_PFE/monte_carlo.py:88-89 | On a simple path every edge of the path gains exactly the penalty, and every other memory value is unchanged. |
| MonteCarlo.BestIsEvaluated | Rendu_PFE/monte_carlo.py:55-63 | The reported path is one that was evaluated, so it is a route from source to target and the reported cost is the oracle's answer for it. |
| MonteCarlo.ClassicEvaluations | Rendu_PFE/monte_carlo.py:52-61 | At most one evaluation per pass, each of a route from source to target carrying the oracle's answer. When no walk from the source can get stuck before the target (for instance source equal to target), every pass is evaluated. A first pass whose walk reached the target puts that walk's evaluation first. |
| MonteCarlo.MonteCarloSimulation | Rendu_PFE/monte_carlo.py:41-63 | The result is the best over its evaluations (KeptBest). A reported path is a route with the oracle's cost. When no walk can get stuck, there is one evaluation per pass. A zero budget gives `(None, inf)`. |
| MonteCarlo.SingleExitWalk | Rendu_PFE/monte_carlo.py:13-21 | From a node whose only neighbour is the target, the uniform walk is `[s, t]`. |
| MonteCarlo.SingleExitEvaluations | Rendu_PFE/monte_carlo.py:52-59 | Every pass of the classic loop from such a node evaluates `[s, t]`. |
| MonteCarlo.SingleExitConverges | Rendu_PFE/monte_carlo.py:41-63 | From a leaf of a star centred on the target, classic Monte Carlo reports `[s, t]` and its cost after any positive budget. |
| MonteCarlo.Penalty | Rendu_PFE/monte_carlo.py:87 | The penalty `1 + cost * 100` is at least 1 for a non-negative cost. |
| MonteCarlo.PenaltyGrowsWithCost | Rendu_PFE/monte_carlo.py:87 | A dearer path is penalised strictly more. |
| MonteCarlo.PenalizeKeepsAbove | Rendu_PFE/monte_carlo.py:87-89 | Non-negative penalties keep every memory value above `-1e-6`. |
| MonteCarlo.ExplorationEvaluations | Rendu_PFE/monte_carlo.py:81-95 | Each evaluation is a route with the oracle's answer, at most one per pass and exactly one per pass when no walk can get stuck. The final memory of every edge is its start value plus the penalties of the successful evaluations through it. Only weight errors can be raised, and none is from a memory above `-1e-6` when costs are non-negative. |
| MonteCarlo.ExploreRoute | Rendu_PFE/monte_carlo.py:84-95 | One pass that reached the target with walk p: its evaluation of p comes first, and the facts above hold counting it, the no-raise fact included. |
| MonteCarlo.PenaltyKeepsAbove | Rendu_PFE/monte_carlo.py:86-89 | With non-negative costs, the memory after one pass's penalty is still above `-1e-6` wherever it was before. |
| MonteCarlo.PenaltiesStep | Rendu_PFE/monte_carlo.py:86-89 | Penalising one evaluated path and then the rest adds up to the penalties of all of them. |
| MonteCarlo.MonteCarloSimulationWithExploration | Rendu_PFE/monte_carlo.py:65-97 | When it finishes, the result is the best over its evaluations, a reported path is a route with the oracle's cost, and there is one evaluation per pass when no walk can get stuck. A zero budget gives `(None, inf)`. It can fail only with a weight error, and never does when costs are non-negative. |
| MonteCarlo.ExtendRandomly | Rendu_PFE/monte_carlo.py:120-139 | The fallback walk continues the path with fresh nodes to the target, adding at most 51 of them. It returns None when the budget is spent, when more than 50 steps were taken, or at a dead end. A path already at the target is returned as is. |
| MonteCarlo.ExtendRandomlyDraws | Rendu_PFE/monte_carlo.py:120-139 | The fallback draws a walk that continues the path, each step the stream's choice among the unvisited neighbours, within the budget and the 51-node limit. It returns that walk when it ends at the target. It returns None only when the walk stopped short because the budget was spent, more than 50 steps were taken, or every neighbour was visited. |
| MonteCarlo.NestedRollout | Rendu_PFE/monte_carlo.py:141-169 | A returned candidate is a simple path along edges continuing the partial path to the target. None, with nothing evaluated, once the budget is spent. A partial path at the target is returned as is. The returned path is priced by the oracle no higher than every successful candidate evaluated inside the rollout, at any level; when none is returned, no candidate inside succeeded. At depth 0, with budget left and the target not reached, it is the fallback walk from the path. |
| MonteCarlo.LevelBest | Rendu_PFE/monte_carlo.py:166-169 | A level's best is one of its candidates: it reaches the target, the oracle prices it at the best cost, and it bounds every candidate below the level. |
| MonteCarlo.RolloutLevel | Rendu_PFE/monte_carlo.py:150-169 | The level's result is the best (KeptBest) over the candidates it evaluated. Each candidate extends the partial path by an unvisited neighbour and reaches the target. Its cost is at most that of every successful candidate evaluated at this level or below. |
| MonteCarlo.Branches | Rendu_PFE/monte_carlo.py:157-168 | The loop over the shuffled neighbours keeps the strictly better of its evaluated candidates, each of which extends the path to the target. The kept cost is at most that of every successful candidate evaluated in the loop or in the rollouts it started. |
| MonteCarlo.BranchesTryTarget | Rendu_PFE/monte_carlo.py:157-168 | When every clock read in the loop found budget left, a target among the neighbours that is not on the path was evaluated as the path extended by it. |
| MonteCarlo.LevelTriesTarget | Rendu_PFE/monte_carlo.py:150-168 | The same for a level: the shuffle keeps the target among the neighbours, so the one-edge completion is evaluated. |
| MonteCarlo.RolloutFindsTarget | Rendu_PFE/monte_carlo.py:141-169 | A rollout above the fallback from a path one edge short of the target, with the budget never found spent, returns a path. If the oracle prices that edge's completion, the returned path is priced no higher. |
| MonteCarlo.PricedFirst | Rendu_PFE/monte_carlo.py:162-168 | A candidate evaluated after its own rollout: the level's kept cost ends at most its cost, which is at most every successful candidate inside that rollout. |
| MonteCarlo.UnpricedFirst | Rendu_PFE/monte_carlo.py:162-163 | A rollout that found nothing evaluated nothing successful, so the rest of the level's bound covers it. |
| MonteCarlo.NestedEvaluations | Rendu_PFE/monte_carlo.py:171-179 | Every rollout result the outer loop evaluates is a route from source to target with the oracle's answer, and the first rollout's result is evaluated first. Every successful inner candidate is matched by an outer evaluation that costs no more. Nothing is evaluated once the budget is spent. |
| MonteCarlo.CoveredPriced | Rendu_PFE/monte_carlo.py:173-176 | A rollout that returned a path: its outer evaluation costs no more than any successful candidate inside it. |
| MonteCarlo.CoveredUnpriced | Rendu_PFE/monte_carlo.py:173-174 | A rollout that returned nothing had no successful candidate inside it. |
| MonteCarlo.MonteCarloWithNestedRollouts | Rendu_PFE/monte_carlo.py:99-183 | The result is the best over the outer evaluations, and a reported path is a route with the oracle's cost. The reported cost is at most that of every successful candidate evaluated at any level of any rollout. A budget spent at the first clock read gives `(None, inf)`. |
| Navigation.Reset | Rendu_PFE/q_learning.py:27-34 | Reset puts the agent at the start with the path `[start]`, a live state. |
| Navigation.GetActions | Rendu_PFE/q_learning.py:65-69 | The actions are exactly the neighbours of the node. |
| Navigation.GoalReward | Rendu_PFE/q_learning.py:59 | The goal reward is the reciprocal of a non-zero cost, so it is positive for a positive cost, and -100 for a missing or zero cost. |
| Navigation.Step | Rendu_PFE/q_learning.py:36-63 | The step's order of checks: a non-neighbour raises (a node missing from the graph raises KeyError); then a goal that is not a node raises NodeNotFound; then overlength ends with -100; then a revisit ends with -50; otherwise the action is appended and visited, the goal ends the episode with the goal reward, and any other node advances with reward 0. |
| Navigation.StepKeepsTrack | Rendu_PFE/q_learning.py:36-63 | A step keeps the path simple, along edges, rooted at the start and equal to the visited set. Only a fresh non-goal node continues the episode; a goal step leaves `current_node` one behind. |
| Navigation.OfferedActionsAccepted | Rendu_PFE/q_learning.py:40-48 | An action `get_actions` offers from a live state is accepted by `step` exactly when the goal is a node; otherwise it raises NodeNotFound. |
| QLearning.ZeroRow | Rendu_PFE/q_learning.py:75 | A fresh row lists the actions in order, each at 0. |
| QLearning.InitTable | Rendu_PFE/q_learning.py:75 | The initial table has a row for every node, listing its neighbours at 0. |
| QLearning.RowMax | Rendu_PFE/q_learning.py:100 | `max(values, default=0)` is 0 on an empty row, otherwise an attained upper bound. |
| QLearning.Argmax | Rendu_PFE/q_learning.py:123 | `max(row, key=row.get)` picks a greatest value, and the first one among ties. |
| QLearning.BestAction | Rendu_PFE/q_learning.py:123 | `max(Q[state], key=Q[state].get)` is the action of the first entry of greatest value. |
| QLearning.AddRow | Rendu_PFE/q_learning.py:97-98 | A missing row is added at 0 and nothing else changes. On a table with a row per node it changes nothing. |
| QLearning.Update | Rendu_PFE/q_learning.py:101 | Only the taken entry changes, to `(1 - 0.2) * old + 0.2 * (reward + 0.9 * max next)`. The table keeps its shape. |
| QLearning.UpdateMovesTowardTarget | Rendu_PFE/q_learning.py:101 | The updated value lies between the old value and the TD target. |
| QLearning.Greedy | Rendu_PFE/q_learning.py:93 | On a non-empty row the greedy action is the action of the first entry of greatest value; on an empty row it is the drawn default. |
| QLearning.Learn | Rendu_PFE/q_learning.py:95-101 | One learning step is the update of the taken entry, and it keeps the table shaped like the graph. |
| QLearning.Pick | Rendu_PFE/q_learning.py:90-93 | A training step's action is a neighbour: the drawn one when exploring, the greedy one otherwise. |
| QLearning.Episode | Rendu_PFE/q_learning.py:86-104 | An episode keeps the table shaped like the graph, and consumes one `random.choice` draw and one exploration draw per step. It takes at most one step more than the unvisited node count, none from a node without neighbours, and at least one from a node with a neighbour. That first step is accepted, and when it ends the episode the result is the table after learning from it. |
| QLearning.EpisodeContinues | Rendu_PFE/q_learning.py:86-104 | A first step that does not end the episode leaves a live state and a shaped table, and the episode is the episode from that state with the learned table, one draw further along each stream. |
| QLearning.Train | Rendu_PFE/q_learning.py:71-109 | Training returns a table shaped like the graph. Zero episodes, or a start without neighbours, give the initial table. It raises exactly when some episode runs and either the start is not a node (KeyError) or the goal is not a node while the start has a neighbour (NodeNotFound on the first step). With a start that has a neighbour, a finished run took at least one step per episode. |
| QLearning.TrainFrom | Rendu_PFE/q_learning.py:80-107 | The episode loop keeps the table shaped like the graph, and changes nothing when the start has no neighbour. With a start that has a neighbour, every episode takes at least one step. |
| QLearning.PolicyMove | Rendu_PFE/q_learning.py:119-129 | A policy pass stops exactly when the state has no row, an empty row, or a greedy action already on the path. Otherwise it ends with a settled path one node longer, or advances to a fresh node. It raises only on a table not shaped like the graph or a goal that is not a node. |
| QLearning.PolicyMoveSteps | Rendu_PFE/q_learning.py:123-129 | A pass that does not stop steps with the greedy action: a raise is passed on, a terminal step ends with the reached state appended, any other step continues from it. |
| QLearning.FollowPolicy | Rendu_PFE/q_learning.py:119-129 | The policy walk only extends the path it starts from, and raises only for the two reasons above. |
| QLearning.FollowOn | Rendu_PFE/q_learning.py:119-129 | The walk after one pass extends the path so far and raises only for the reasons above. |
| QLearning.FollowPolicySettled | Rendu_PFE/q_learning.py:119-129 | Every policy path is simple and along edges, except possibly a repeated last node. Each step takes the greedy action of its state, which was not yet on the path, and is overlength only if it is the last step. The walk stops at its first arrival at the goal: no node before the last is the goal. It ends at the loop's stopping test, at the goal, or on an overlength step. |
| QLearning.StopsAtGoal | Rendu_PFE/q_learning.py:119-129 | The policy walk ends at its first arrival at the goal, where `step` reports `done`: no node it adds before the last is the goal. |
| QLearning.FollowOnSettled | Rendu_PFE/q_learning.py:119-129 | The same facts for the walk after one pass, including the stop at the first arrival at the goal. |
| QLearning.AdvanceSettled | Rendu_PFE/q_learning.py:127-129 | A greedy walk from the state an advancing pass reached is a greedy walk from the one it left. |
| QLearning.FinalHalted | Rendu_PFE/q_learning.py:127-131 | A terminal greedy step ends the walk at the goal or on the repeated node of an overlength step. |
| QLearning.PolicyStepHolds | Rendu_PFE/q_learning.py:123-129 | The greedy step out of a state makes a policy step of any walk that continues with the state it reached. |
| QLearning.ShapedPolicyNeverRaises | Rendu_PFE/q_learning.py:119-129 | On a table shaped like the graph, with the goal a node, no policy step raises. |
| QLearning.EvaluatePolicy | Rendu_PFE/q_learning.py:111-136 | The returned path starts at the start, is settled, takes the greedy action at every step, reaches the goal at most at its last node, and ends for one of the loop's reasons. The cost is the oracle's exactly when the path ends at the goal, else None. With a start outside the graph the only possible error is KeyError; otherwise only the two policy errors can occur. It cannot raise on a table shaped like the graph when the goal is a node. |
| Baseline.Trunc | Rendu_PFE/baseline.py.py:38 | `int(x)` truncates toward zero. |
| Baseline.ComputeNumRandomPaths | Rendu_PFE/baseline.py.py:33-38 | The count is at least 1, and one more than the floor of `0.1 n + 0.5 d n` when that is non-negative. |
| Baseline.Density | Rendu_PFE/baseline.py.py:53-54 | The density is non-negative. ZeroDivisionError exactly on a graph of at most one node. |
| Baseline.SampleCount | Rendu_PFE/baseline.py.py:47-55 | Sizing fails exactly when neither count nor density is given and the graph has at most one node; a computed count is at least 1. |
| Baseline.Remove | Rendu_PFE/baseline.py.py:20 | `list.remove` drops one occurrence and keeps every other element. |
| Baseline.RemoveFirstOccurrence | Rendu_PFE/baseline.py.py:20 | `list.remove` takes out exactly the first occurrence and keeps everything else in order. |
| Baseline.Candidates | Rendu_PFE/baseline.py.py:19-20 | The step's choices are all neighbours, less the previous node only when it is one of several. |
| Baseline.WalkingStep | Rendu_PFE/baseline.py.py:26-29 | Stepping to a candidate keeps the walk along edges and free of immediate backtracking, unless that backtracking is forced. |
| Baseline.NoBacktrackStep | Rendu_PFE/baseline.py.py:26-29 | A step to a candidate goes back to the node just left only when that node is the current node's single neighbour. |
| Baseline.SampleFrom | Rendu_PFE/baseline.py.py:14-29 | A sampled walk extends the walk so far, ends at the target and goes along edges without unforced backtracking. The errors are OutOfFuel and, at a start without neighbours, NoNeighbour. |
| Baseline.SampleStarved | Rendu_PFE/baseline.py.py:14-29 | OutOfFuel comes only after the loop drew `fuel` steps: each from a node with neighbours, each to the candidate the stream selects, none with the target among its candidates. |
| Baseline.SampledWalk | Rendu_PFE/baseline.py.py:14-29 | A sampled walk extends the walk so far, each step takes a candidate, and the target is appended as soon as it is a candidate and not before. |
| Baseline.SamplePath | Rendu_PFE/baseline.py.py:6-31 | `generate_random_path` returns a walk from start to target without unforced backtracking, each step a candidate. The target is taken as soon as it is a candidate, and never earlier. Start equal to target gives `[start]`; a start adjacent to the target gives `[start, target]`. OutOfFuel comes only after `fuel` such steps that never met the target. |
| Baseline.RankFrom | Rendu_PFE/baseline.py.py:88-93 | Each candidate gets one completion from it to the target, with the oracle's cost. That completion is a walk the sampling loop can draw: each step a candidate, the target taken as soon as it is one, no unforced backtracking. The ranking keeps the first of the cheapest. A raise comes from some candidate whose sampling raised that error, or whose completion the oracle did not price (the TypeError of comparing None). |
| Baseline.GreedyPass | Rendu_PFE/baseline.py.py:64-98 | A node without neighbours raises NoNeighbour. A single candidate is taken, with the cost of the path extended by it. A target among several candidates ends the walk, with the cost of the path extended by it. Otherwise the chosen node is not the target, and it is the first candidate whose completion is cheapest. A raise at a node with neighbours comes from ranking several candidates without the target, when some candidate's completion failed. |
| Baseline.GreedyFrom | Rendu_PFE/baseline.py.py:64-100 | The loop returns a walk to the target without unforced backtracking. Its cost is the oracle's cost of that walk whenever some pass ran. |
| Baseline.FinishStep | Rendu_PFE/baseline.py.py:80-86 | A pass that finds the target among several candidates ends the loop with the target appended and that pass's cost reported. |
| Baseline.ChosenStep | Rendu_PFE/baseline.py.py:88-98 | A ranked pass moves the loop to the chosen node, with its completion's cost as `total_cost`, the draws the ranking left and one pass fewer. |
| Baseline.RaisedStep | Rendu_PFE/baseline.py.py:64-93 | A pass that raised ends the loop with the same error. |
| Baseline.AfterPass | Rendu_PFE/baseline.py.py:72-98 | After a pass the loop grows the path and keeps the cost fact above. |
| Baseline.BaselineMethod | Rendu_PFE/baseline.py.py:42-100 | The result is a walk from source to target without unforced backtracking, whose cost is the oracle's (0 when source is target). ZeroDivisionError exactly when sizing fails. Once sizing succeeds, a missing source other than the target raises MissingKey. Once sizing succeeds, from a source in the graph, the result is the greedy loop from `[source]` with `total_cost = 0`. |
| Baseline.SampleCountIrrelevant | Rendu_PFE/baseline.py.py:50-57 | The sample count is only reported: any two successful sizings give the same result. |
| Baseline.LineIsForced | Rendu_PFE/baseline.py.py:72-78 | On the line 0-1-2-3-4 with a per-edge oracle, the baseline returns `[0, 1, 2, 3, 4]` with cost 4, whatever the random draws. |

## Left out

- Wall-clock time. The budgets become pass counts or a clock-read index, as described above. Time itself is not modelled. The clock-read index assumes a clock that never goes back: once one read finds the budget spent, every later read does too.
- The oracle subprocess. It is a function parameter; `Rendu_PFE/blackbox_interface.py.py` is not part of this model.
- Graph generation and the experiment driver. `Rendu_PFE/graph_utils.py.py` and `Rendu_PFE/main.py.py` are not part of this model.
- Output and diagnostics. Printing, the tqdm progress bar, the iteration and evaluation counters, and the per-episode reward list never affect a returned value and are not modelled.
- Floating point. Costs, weights and Q-values are exact reals. `inf` is `Anytime.Bound.Infinity`; rounding and NaN are not modelled.
- The order of `set(G.neighbors(current)) - visited`. It is taken to be adjacency order, since CPython's set order is an implementation detail. The proved properties hold for any order; the exact node a given draw selects does not.
- CPython's `randbelow` rejection sampling. It is a single stream value reduced below the bound. Every proved property holds for every stream.
- `np.random.rand() < epsilon`. It is an arbitrary boolean stream `explore`; the linear annealing of epsilon is folded into that stream.
- Navigation.Config.hops stands for `nx.shortest_path_length` and is a parameter. It is not computed or proved to be a hop distance.
- Walks.RandomPath requires the source to be a node of the graph. For another source (not equal to the target), networkx raises an error that the model does not represent. The same holds for the three Monte Carlo strategies and `MonteCarlo.NestedRollout`.
- Baseline.SamplePath, Baseline.GreedyFrom and Baseline.BaselineMethod take a step budget (`fuel`); the source loops have no bound. Sampling returns `OutOfFuel` only after `fuel` draws none of which met the target (`Baseline.SampleStarved`). The greedy loop returns it when its own passes use up the budget, or when a ranking's sampling did (`Baseline.RaisedStep`, `Baseline.RankFrom`). A run that would never end in the source is represented by that outcome.
- Keyword arguments. The optional tuning parameters (`alpha`, `gamma` and the epsilon bounds of `q_learning`; `alpha` and `beta` of `compute_num_random_paths`) are fixed at their default values.
