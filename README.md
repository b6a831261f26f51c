# Toy CVRP reinforcement-learning solver, modelled in Dafny

This project models the core of a toy solver for the Capacitated Vehicle Routing
Problem (CVRP) that learns by tabular Q-learning, and proves properties of that
model. In a CVRP instance a vehicle of fixed capacity leaves a depot, serves
every customer's demand and returns to the depot. The repository holds two
versions of the environment and agent pair. The model covers both.

**The full pair.**
- `src/rl/env.py`, the class `CVRPEnv`. It is an episode environment in which the vehicle
  may go back to the depot to unload. It offers the legal moves, steps, resets,
  renders, and validates a finished solution.
  - `rlwalk.dfy` (module `RlWalk`) holds its logic on field values: the legal
    moves, the validation predicate, the walk invariant and the move itself.
  - `rlenv.dfy` (module `RlEnv`) holds the class `CvrpEnv`. Its methods
    change the fields as the source does.
- `src/rl/q_learning.py`, the class `QLearningAgent`. It is epsilon-greedy with a penalty on
  an action repeated too often. It updates by the one-step Q-learning rule,
  decays epsilon, and its nested table stores 0.0 on every missing read.
  - `rlagent.dfy` (module `RlAgent`) models it.

**The minimal pair.**
- `env.py`, the class `CVRPEnv`. The vehicle leaves the depot once and serves customers
  while its remaining capacity allows. It returns right after the last customer.
  - `minitour.dfy` (module `MiniTour`) holds the step and its invariant on
    field values.
  - `minienv.dfy` (module `MiniEnv`) holds the class.
- `q_learning.py`, the class `QLearningAgent`. It has an action list, which the
  driver reassigns before every choice (`main.py:22`), so the model keeps it as a
  mutable field; each call works on the list current at that call. It has a
  `defaultdict` table keyed by (state, action). It explores by a coin, exploits
  by the head of a stable descending sort, and applies the Q-learning update.
  - `miniagent.dfy` (module `MiniAgent`) models it.

**Shared modules.**
- `routes.dfy` (module `Routes`): sequences, sets, walks over a distance matrix,
  route customers and demands, and joined route lists.
- `qrule.dfy` (module `QRule`): the first maximum, the Q-learning update formula
  and its contraction, and epsilon decay.

**Modelling choices.**
- Node coordinates and Euclidean lengths are replaced by a square, non-negative
  matrix of leg lengths indexed by node number.
- Q-values, rewards, epsilon and distances are exact reals.
- The random draw of the explore/exploit decision is a parameter `coin`, and the
  random pick is a nondeterministic choice (`:|`).
- The iteration order of a Python set in `get_valid_moves` appears as a
  nondeterministic choice in the loop.
- Python's `sorted` on a set of node numbers is `SortedBelow`. `SortedIsUnique` shows
  that every strictly increasing listing of the same set is that one.

**Where the code departs from its own evident intent, the model follows the code.**
- `last_depot_visit_idx` marks where the trip since the last depot visit starts
  (src/rl/env.py:46 and 109), and the per-route checks of `validate_solution`
  (src/rl/env.py:203-219) expect routes that run from the depot to the depot with
  the demand of one vehicle load. Yet line 119 records the whole walk once, at the
  end of the episode. `allRoutes` models what the code does. The trips between
  depot visits are kept in the ghost field `subRoutes`.
- `parse_vrp_file` (src/utils.py:49-56) stores every line of the instance's
  `DEMAND_SECTION`, including the depot's (node 1, demand 0), so the depot is a
  key of `demands`. `validate_solution` then rejects every solution (see Findings).

## Model

| member | source | states |
|---|---|---|
| RlEnv.CvrpEnv.constructor | src/rl/env.py:28-47 | the instance is stored, the walk is at its start (depot, every customer unvisited, empty load, route `[depot]`, distance 0), no route is recorded, the best solution is empty at infinite distance, and the invariant holds |
| RlEnv.CvrpEnv.GetState | src/rl/env.py:49-61 | the unvisited customers are listed strictly increasing; under the invariant the list holds exactly the unvisited set |
| Routes.SortedIsUnique | src/rl/env.py:51 | two strictly increasing sequences with the same elements are equal, so the listing is `sorted` of the set |
| RlEnv.CvrpEnv.GetValidMoves | src/rl/env.py:63-87 | the list has no repeats, holds exactly the legal move set, and ends with the depot when the depot is in it |
| RlEnv.CvrpEnv.Fitting | src/rl/env.py:67-70 | the list has no repeats, never holds the depot, and holds exactly the unvisited customers whose demand fits the current load |
| RlWalk.MovesMembers | src/rl/env.py:67-85 | a customer is offered iff it is unvisited and its demand fits the load; the depot iff the vehicle is away from it, has visited a node since the last depot visit and no unvisited customer fits or none is left; never while at the depot |
| RlWalk.NoMovesIffFinished | src/rl/env.py:63-87 | when every demand fits an empty vehicle, no move is offered iff every customer is served and the vehicle is at the depot |
| RlWalk.StuckWithOversizedDemand | src/rl/env.py:67-82 | when every customer left has a demand above the capacity, none is ever offered; away from the depot the only move is the return, and at the depot no move is offered although customers remain, which is why `NoDeadlock` needs all demands within capacity |
| RlEnv.CvrpEnv.NoDeadlock | src/rl/env.py:63-87 | in every reachable state with all demands within capacity, the move set is empty iff the episode is over |
| RlEnv.CvrpEnv.Step | src/rl/env.py:89-136 | an action outside the legal moves yields -1000 and `done` and changes nothing; a legal one moves the walk as `Moved` says, ends the episode exactly when all customers are served at the depot, and at the end records the walk, rewards it by validation and replaces the best solution only for a positive reward and a shorter distance; otherwise the reward is minus the leg; the invariant is kept |
| RlEnv.CvrpEnv.LegalStep | src/rl/env.py:99-136 | the legal branch of `step` satisfies `Stepped` and keeps the invariant; a `done` episode is finished |
| RlEnv.CvrpEnv.Move | src/rl/env.py:99-112 | the fields become `Moved` of the old ones: the leg is paid and the route extended; a customer is loaded and leaves the unvisited set; the depot unloads and becomes the last depot visit; the returned distance is the leg |
| RlEnv.CvrpEnv.Conclude | src/rl/env.py:115-134 | `done` is "no customer unvisited and at the depot"; only then is the walk recorded and validated, and the best solution replaced on a positive reward and a shorter distance, otherwise the reward is minus the leg; the walk fields are left alone |
| RlEnv.CvrpEnv.RecordEpisode | src/rl/env.py:117-125 | the walk becomes the one recorded route, the reward is the validation reward, and the best solution changes only when that reward is positive and the distance beats the best |
| RlWalk.StartWalk | src/rl/env.py:138-146 | the start of an episode satisfies the walk invariant with no trip closed |
| RlWalk.WalkMove | src/rl/env.py:99-112 | every legal move keeps the walk invariant: route shape, the partition of the customers into served and unvisited with none served twice, the load as the demand since the last depot visit within capacity, the distance as the length of the route, and the closed trips each passing the route checks |
| RlWalk.CustomerMove | src/rl/env.py:103-112 | serving an unvisited customer that fits keeps the invariant |
| RlWalk.DepotMove | src/rl/env.py:107-112 | returning to the depot after visiting a node closes the trip since the last depot visit as a valid route, keeps the invariant and leaves a positive distance paid |
| RlWalk.WalkFinished | src/rl/env.py:115-120 | at the end of an episode the trips closed along the way pass the intended validity |
| RlEnv.CvrpEnv.FinishedIsIntendedValid | src/rl/env.py:115-120 | in a finished, valid environment the sub-routes of the walk serve every customer exactly once, each within capacity and from depot to depot |
| RlWalk.FinishedTripsAreValid | src/rl/env.py:202-233 | trips that each pass the route checks and glue into a walk serving every customer once form a solution passing every check against the customer set |
| RlEnv.CvrpEnv.Reset | src/rl/env.py:138-147 | a new episode from the depot with nothing recorded and the best solution kept; the state returned depends only on the instance |
| RlEnv.CvrpEnv.ResetTwice | src/rl/env.py:138-147 | two consecutive resets return equal states |
| RlEnv.CvrpEnv.GetSolution | src/rl/env.py:149-154 | the distance is the distance paid; under the invariant the routes are always the single current walk |
| RlEnv.CvrpEnv.RenderRoute | src/rl/env.py:156-174 | the route is the recorded routes joined, each without its final depot, closed by one depot visit (just the depot when none is recorded), and the distance is that walk's length |
| RlEnv.CvrpEnv.FinishedRendering | src/rl/env.py:156-174 | after a finished episode the rendered route is the walk itself and its length is the distance paid |
| RlEnv.CvrpEnv.GetTotalDistance | src/rl/env.py:180-185 | the total is the sum of the recorded routes' lengths; under the invariant it is the distance paid once finished and 0 before |
| RlEnv.CvrpEnv.RouteDistance | src/rl/env.py:187-194 | the sum of the legs of the route, 0 for fewer than two nodes |
| RlEnv.CvrpEnv.ValidateSolution | src/rl/env.py:196-239 | the reward is 1000 / distance exactly when every route starts and ends at the depot, has more than two entries and fits the capacity, no customer is served twice and the customers served equal the keys of `demands`; -1000 otherwise |
| RlEnv.CvrpEnv.CheckRoute | src/rl/env.py:203-217 | one route passes exactly when it starts and ends at the depot, has more than two entries and its customers' demand fits the capacity; when it passes, the demand returned is that route's demand |
| RlEnv.CvrpEnv.RecordClients | src/rl/env.py:222-227 | a clash is reported iff the customers seen so far followed by the route's customers repeat one; without a clash the visited set gains exactly the route's customers |
| RlWalk.RewardOrder | src/rl/env.py:235-239 | a valid solution's reward is positive, strictly decreasing in its distance and above the penalty |
| RlWalk.DepotKeyRejectsEverySolution | src/rl/env.py:232 | when the depot is a key of `demands`, no list of routes passes the validation as written |
| RlWalk.WholeWalkFailsCapacity | src/rl/env.py:214-219 | the walk `[0,1,2,0,3,0]` of a two-trip episode (demands 3, 4, 5, capacity 10), recorded as one route, fails the capacity check |
| RlWalk.TripsAreIntendedValid | src/rl/env.py:202-233 | its two trips `[0,1,2,0]` and `[0,3,0]` pass every check of the intended validity |
| RlAgent.QLearningAgent.constructor | src/rl/q_learning.py:6-24 | empty table, the given rates, no actions counted, no last action, zero repeats, and a repeat limit of 3 |
| RlAgent.QLearningAgent.GetQValue | src/rl/q_learning.py:30-36 | the value is the stored one or 0.0, and the table becomes `Touch` of the old one |
| RlAgent.TouchKeeps | src/rl/q_learning.py:30-36 | a read leaves the entry present, leaves a present entry's table as it was, and changes no value anywhere |
| RlAgent.StoreEffect | src/rl/q_learning.py:92-94 | storing changes the value of the one entry it targets and removes no entry |
| RlAgent.QLearningAgent.ReadValues | src/rl/q_learning.py:55 | the values read are those of the moves in order, and the table gains their default entries |
| RlAgent.TouchAllKeeps | src/rl/q_learning.py:79-82 | reading a list of moves changes no value and removes no entry, and afterwards every move has an entry |
| RlAgent.QLearningAgent.ChooseAction | src/rl/q_learning.py:38-72 | the call is counted; no moves gives None with the table and the repeat state unchanged; otherwise the action is a move, becomes the last action, and the counter becomes old+1 on a repeat and 0 otherwise; exploring leaves the table as it was; exploiting returns `Greedy` and only adds the default entries of the moves |
| RlAgent.GreedyIsFirstBest | src/rl/q_learning.py:55-64 | the greedy action is a move, no move has a higher penalised value, and every move listed before it has a strictly lower one |
| RlAgent.NoPenaltyIsPlainGreedy | src/rl/q_learning.py:58-64 | below the repeat limit, or when the last action is no candidate, the choice is the first maximum of the plain Q-values |
| RlAgent.RepeatAvoided | src/rl/q_learning.py:58-62 | once the last action has been repeated the limit number of times, it is not chosen while another move is worth more than its value less 1000 |
| RlAgent.NextMaxIsMax | src/rl/q_learning.py:76-83 | the bootstrap value is 0 without next moves, and otherwise the largest Q-value among them, attained by one of them |
| RlAgent.QLearningAgent.Update | src/rl/q_learning.py:74-94 | the table becomes `Updated` of the old one |
| RlAgent.UpdatedEffect | src/rl/q_learning.py:74-94 | the target entry gets `cur + lr·(r + γ·m − cur)` with `m` the next maximum; every other value is unchanged, and no entry is removed |
| RlAgent.QLearningAgent.DecayEpsilon | src/rl/q_learning.py:96-98 | epsilon becomes `Decayed` of the old one |
| QRule.Decayed | src/rl/q_learning.py:98 | the result is the larger of the floor and the product: at least both, and equal to one of them |
| QRule.DecayWithinBounds | src/rl/q_learning.py:96-98 | with a non-negative epsilon at or above the floor and a decay of at most 1, the new epsilon lies between the floor and the old epsilon |
| QRule.FirstArgMax | src/rl/q_learning.py:64 | the index of a largest value, with every earlier value strictly smaller (Python `max` keeps the first maximum) |
| QRule.FirstArgMaxIsUnique | src/rl/q_learning.py:64 | any index with those two properties is that index |
| QRule.MaxOf | src/rl/q_learning.py:83 | the maximum is one of the values and at least every one of them |
| QRule.QUpdate | src/rl/q_learning.py:89 | the new value's distance to the target `r + γ·m` is `1 − lr` times the old distance |
| QRule.UpdateFixedPoint | src/rl/q_learning.py:89 | an estimate equal to its target is left unchanged |
| QRule.UpdateBetween | src/rl/q_learning.py:89 | with `0 < lr ≤ 1` the new value lies between the old value and the target, and is the target when `lr = 1` |
| QRule.RepeatedIsIteratedUpdate | src/rl/q_learning.py:89 | `n + 1` repetitions of one transition are one update of `n` repetitions |
| QRule.RepeatedContracts | src/rl/q_learning.py:89 | after `n` repetitions the distance to the target is `(1 − lr)^n` times the initial distance |
| QRule.RepeatedStaysBetween | src/rl/q_learning.py:89 | with `0 < lr ≤ 1` repeating a transition never moves the estimate beyond its start or its target |
| MiniEnv.CvrpEnv.constructor | env.py:6-12 | the instance is stored, the customers are the nodes other than the depot, the episode is at its start and the invariant holds |
| MiniEnv.CvrpEnv.Reset | env.py:14-20 | every field is back at the start of an episode (all customers remaining, at the depot, full capacity, distance 0, route `[depot]`), the invariant holds, and the state returned is that start's observation |
| MiniTour.InitialTour | env.py:14-19 | the start of an episode satisfies the tour invariant |
| MiniEnv.CvrpEnv.GetState | env.py:22-23 | the remaining customers are listed strictly increasing; under the invariant the list holds exactly the remaining set |
| MiniEnv.CvrpEnv.Step | env.py:25-44 | a customer not remaining, or whose demand exceeds the remaining capacity, yields -100 and `done` with nothing changed; otherwise the fields become `Next` of the old ones, the reward is minus the leg to the customer, `done` says that no customer remains, and the invariant is kept |
| MiniEnv.CvrpEnv.Serve | env.py:32-44 | the legal branch: the fields become `Next` of the old ones and the reward is minus the leg |
| MiniTour.TourStep | env.py:32-42 | serving a legal customer keeps the tour invariant: the route leaves the depot and is closed by it exactly after the last customer, served and remaining customers partition the customers with none served twice, the remaining capacity is the capacity less the demands served, and the total is the route's length including the return leg |
| MiniTour.ClosedTourServesAll | env.py:39-42 | a closed route is one trip from the depot back to it that serves every customer exactly once within the capacity, and its length is the reported total |
| MiniEnv.CvrpEnv.RenderRoute | env.py:46-47 | the route visited and, under the invariant, a total equal to its length |
| MiniAgent.QLearningAgent.constructor | q_learning.py:6-11 | an empty table, the given action list, and the given rates |
| MiniAgent.QLearningAgent.GetQ | q_learning.py:13-14 | a present pair gives its value and leaves the table alone; a missing pair gives 0.0 and is stored with 0.0 |
| MiniAgent.TouchKeeps | q_learning.py:13-14 | a read adds exactly its own pair and changes no stored or reported value |
| MiniAgent.QLearningAgent.ReadValues | q_learning.py:19 | the values are those of the actions in order, and the table becomes `TouchAll` of the old one |
| MiniAgent.TouchAllKeeps | q_learning.py:19 | reading a list of actions adds exactly their pairs and changes no stored or reported value |
| MiniAgent.QLearningAgent.ChooseAction | q_learning.py:16-21 | the action is one of the actions; exploring leaves the table as it was; exploiting returns `Greedy` after reading every action's value |
| MiniAgent.GreedyIsFirstBest | q_learning.py:19-21 | the head of the stable descending sort is an action with no action worth more, and every action listed before it is worth strictly less |
| MiniAgent.FirstBestIsGreedy | q_learning.py:19-21 | conversely, any position holding a best action with only worse actions before it holds the action the sort puts first |
| MiniAgent.NextMaxIsMax | q_learning.py:24 | the next maximum is at least every action's value in the next state and attained by one of them |
| MiniAgent.QLearningAgent.Update | q_learning.py:23-27 | the table becomes `Updated` of the old one |
| MiniAgent.UpdatedEffect | q_learning.py:24-27 | (s, a) gets `cur + α·(r + γ·max Q(s', ·) − cur)`, every other pair keeps its stored and reported value, and the new pairs are exactly the reads and (s, a) |
| MiniAgent.UpdatedFixedPoint | q_learning.py:26 | an estimate equal to its target is left unchanged |
| MiniAgent.UpdatedBetween | q_learning.py:26 | with `0 < α ≤ 1` the new estimate lies between the old one and the target |

## Left out

- Node coordinates and the Euclidean distances of `utils.py`, `src/utils.py` and `_calculate_distance`: floating-point geometry. A given square, non-negative matrix of leg lengths stands in for them. Real arithmetic is exact, not IEEE.
- The instance of `src/rl/env.py` is assumed to put distinct nodes a positive distance apart (`RlWalk.InstanceOk`). Without this, `1000 / total_distance` could divide by zero.
- `RlWalk.InstanceOk` and `MiniTour.InstanceOk` also require every customer to have a demand (`nodes - {depot} <= demands.Keys`) and every node to index the distance matrix. On a customer without a demand the source raises `KeyError` (src/rl/env.py:69 and 105, env.py:28); the model does not cover that input. Demands and the capacity are whole numbers (`nat`), as the instance files give them, although `parse_vrp_file` stores demands as floats (src/utils.py:55); fractional or negative demands are not modelled.
- Lines 126-131 of `src/rl/env.py`: the block reads the local `best_distance` before any assignment, so every terminal step raises. The model ends the terminal step at line 125, and `Step` returns there.
- The module-level code of `src/rl/env.py`, lines 6-22 and 242-250: configuration loading, prints and a plot.
- `main.py`, `utils.py` and the parsing and drawing functions of `src/utils.py`: file input, printing and plotting.
- `optimal_routes` and `optimal_distance` of `src/rl/env.py`: stored and never read by the core.
- `set_environment` and the `env` field of `src/rl/q_learning.py`: a stored reference that the core never uses.
- Randomness: `np.random.random` and `random.random` become the `coin` parameter, and `random.choice` becomes a nondeterministic pick from the candidates.
- Python set iteration order in `get_valid_moves`: the loop picks the next customer nondeterministically. The order of the result is therefore unconstrained beyond the depot coming last.
- RlEnv.CvrpEnv.ValidateSolution: requires every recorded route to be non-empty, with every customer in it having a demand. The source raises only on an empty route that its loop reaches (`route[0]`, src/rl/env.py:204) or on a customer without a demand in a route that passed the depot and length checks (`self.demands[node]`, line 215); a route failing one of those checks ends the loop first (lines 204-211), so later routes, and customers of a route failing them, are never read and the result is -1000. The model does not cover those inputs. It also requires a positive distance when the solution passes. In the environment these hold for the one route `step` records.
- `self.all_routes.copy()` at `src/rl/env.py:123`: the best solution holds the sequence value, so later aliasing of Python lists does not arise.
- `step` of `src/rl/env.py` records `current_route` itself in `all_routes`, so the two lists alias. After the terminal step neither changes again until `reset`, which replaces both, so the model stores the value.
- RlEnv.CvrpEnv.Move and MiniEnv.CvrpEnv.Serve: the new values are computed from the old fields and stored together, instead of one assignment at a time. In `src/rl/env.py:99-112` no field is read after its own update (line 109 reads `current_route` before the append at line 112). In `env.py` three are: `remaining_customers` at line 39, after the removal at line 35; `current_node` at line 41, after line 34 set it to `action`; and `total_distance` at line 41, which adds the return leg onto the total line 36 already increased. `MiniTour.Next` computes each of these from the updated values, as the source does.
- The anti-repeat penalty of `src/rl/q_learning.py:55-62` works on a dictionary from move to value. The model uses the sequence of values in move order. The moves of `get_valid_moves` have no repeats, so the two agree.
- RlAgent.QLearningAgent.GetStatistics: a plain function that returns the four fields. It has no property beyond those fields, so it carries no contract of its own.
- MiniAgent.QLearningAgent.ChooseAction and MiniAgent.QLearningAgent.Update require a non-empty action list. In the source, `random.choice`, `q_values[0]` and `max` raise on an empty list.
- `RlAgent.QLearningAgent.ChooseAction` returns `None` when no move is offered; the caller that handles that `None` is not part of this model. `main.py` drives the environment of `env.py` and the agent of `q_learning.py`; it stops on an empty action list (main.py:19-21), so that agent never sees an empty list.

## Findings

| source | as written | input that shows it | evidently intended | confidence | as-written member | corrected member |
|---|---|---|---|---|---|---|
| src/rl/env.py:232 | the customers served are compared with every key of `demands`, and the depot is one of those keys | an instance whose `demands` holds the depot (demand 0), as `parse_vrp_file` (src/utils.py:49-56) stores it: no solution is ever valid, so every finished episode is rewarded -1000 | compare with the customers, the nodes other than the depot | high, not executed | RlWalk.DepotKeyRejectsEverySolution | RlEnv.CvrpEnv.FinishedIsIntendedValid |
| src/rl/env.py:119 | the whole walk, with its intermediate depot visits, is recorded as one route, so the capacity check sums the demands of every trip | depot 0, customers 1, 2, 3 with demands 3, 4, 5, capacity 10, walk `[0,1,2,0,3,0]`: the one route's demand is 12 > 10 | validate the trips between depot visits, `[0,1,2,0]` (7) and `[0,3,0]` (5), each within capacity | high, not executed | RlWalk.WholeWalkFailsCapacity | RlWalk.TripsAreIntendedValid |
