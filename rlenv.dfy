/** The environment class of src/rl/env.py: its fields, `step`, `reset`,
    the solution queries and the validation of a finished walk. */
module RlEnv {
  import opened Routes
  import opened RlWalk

  class CvrpEnv {
    const nodes: set<nat>
    const demands: map<nat, nat>
    const depot: nat
    const capacity: nat
    const distances: seq<seq<real>>

    var currentNode: nat
    var unvisited: set<nat>
    var currentLoad: nat
    var currentRoute: seq<nat>
    var allRoutes: seq<seq<nat>>
    var totalDistance: real
    var lastDepotVisitIdx: nat
    var bestSolution: Best
    /** The trips closed so far, each from a depot visit to the next one. */
    ghost var subRoutes: seq<seq<nat>>

    /** The fields of the walk in progress as one value. */
    function Current(): Progress
      reads this`currentNode, this`unvisited, this`currentLoad, this`currentRoute
      reads this`lastDepotVisitIdx, this`totalDistance
    {
      Progress(currentNode, unvisited, currentLoad, currentRoute, lastDepotVisitIdx, totalDistance)
    }

    /** Every customer served and the vehicle back at the depot after at
        least one move. */
    ghost predicate Finished()
      reads this`unvisited, this`currentNode, this`currentRoute
    {
      unvisited == {} && currentNode == depot && |currentRoute| > 1
    }

    /** The class invariant: the walk so far and every field derived from it. */
    ghost predicate Valid()
      reads this`currentNode, this`unvisited, this`currentLoad, this`currentRoute
      reads this`lastDepotVisitIdx, this`totalDistance, this`subRoutes, this`allRoutes
    {
      Walked() && allRoutes == (if Finished() then [currentRoute] else [])
    }

    ghost predicate Walked()
      reads this`currentNode, this`unvisited, this`currentLoad, this`currentRoute
      reads this`lastDepotVisitIdx, this`totalDistance, this`subRoutes
    {
      Walk(nodes, demands, depot, capacity, distances, Current(), subRoutes)
    }

    /** The moves `get_valid_moves` offers in the current state. */
    ghost function MoveSet(): set<nat>
      reads this`currentNode, this`unvisited, this`currentLoad, this`currentRoute
      reads this`lastDepotVisitIdx, this`totalDistance, this`subRoutes, this`allRoutes
      requires Valid()
    {
      Offered(demands, depot, capacity, Current())
    }

    constructor(nodes: set<nat>, demands: map<nat, nat>, depot: nat, capacity: nat, distances: seq<seq<real>>)
      requires InstanceOk(nodes, demands, depot, distances)
      ensures Valid()
      ensures this.nodes == nodes && this.demands == demands && this.depot == depot
      ensures this.capacity == capacity && this.distances == distances
      ensures Current() == Start(nodes, depot) && allRoutes == [] && bestSolution == Best([], Infinity)
    {
      this.nodes, this.demands, this.depot := nodes, demands, depot;
      this.capacity, this.distances := capacity, distances;
      bestSolution := Best([], Infinity);
      new;
      var _ := Reset();
    }

    /** The current state as `get_state` builds it. */
    function GetState(): (s: State)
      reads this`currentNode, this`unvisited, this`currentLoad, this`currentRoute
      reads this`lastDepotVisitIdx, this`totalDistance, this`subRoutes, this`allRoutes
      requires lastDepotVisitIdx <= |currentRoute|
      ensures StrictlyIncreasing(s.unvisited)
      ensures Valid() ==> forall x :: x in s.unvisited <==> x in unvisited
    {
      State(currentNode, SortedBelow(unvisited, |distances|), currentLoad,
            currentRoute[lastDepotVisitIdx..], currentNode == depot)
    }

    /** `get_valid_moves`: the customers that fit, in the order the set is
        walked, then the depot when the return rule holds. */
    method GetValidMoves() returns (moves: seq<nat>)
      requires Valid()
      ensures NoDup(moves)
      ensures forall x :: x in moves <==> x in MoveSet()
      ensures depot in moves ==> Last(moves) == depot
    {
      assert unvisited <= demands.Keys && depot !in unvisited;
      moves := Fitting(unvisited, currentLoad);
      var sinceDepot := |currentRoute| - lastDepotVisitIdx - 1;
      assert moves == [] <==> Feasible(unvisited, demands, currentLoad, capacity) == {} by {
        if moves != [] {
          assert moves[0] in Feasible(unvisited, demands, currentLoad, capacity);
        }
      }
      var canReturn := currentNode != depot && sinceDepot > 0 && (moves == [] || unvisited == {});
      if canReturn {
        NoDupAppend(moves, depot);
        moves := moves + [depot];
      }
    }

    /** The loop of `get_valid_moves` over the unvisited customers: those
        whose demand fits on top of `load`, each once. */
    method Fitting(customers: set<nat>, load: nat) returns (moves: seq<nat>)
      requires customers <= demands.Keys && depot !in customers
      ensures NoDup(moves) && depot !in moves
      ensures forall x :: x in moves <==> x in Feasible(customers, demands, load, capacity)
    {
      moves := [];
      var rest := customers;
      while rest != {}
        invariant rest <= customers
        invariant NoDup(moves) && depot !in moves
        invariant forall x :: x in moves <==> x in customers - rest && load + demands[x] <= capacity
        decreases rest
      {
        var node :| node in rest;
        if load + demands[node] <= capacity {
          NoDupAppend(moves, node);
          moves := moves + [node];
        }
        rest := rest - {node};
      }
    }

    /** `validate_solution`: 1000 / total_distance when every route passes its
        checks, no customer is served twice and the customers served are the
        keys of `demands`; -1000 otherwise. */
    method ValidateSolution() returns (reward: real)
      requires forall i :: 0 <= i < |allRoutes| ==>
        |allRoutes[i]| > 0 && DemandsKnown(demands, allRoutes[i], depot)
      requires AsWrittenValid(allRoutes, demands, depot, capacity) ==> totalDistance > 0.0
      ensures reward == SolutionReward(AsWrittenValid(allRoutes, demands, depot, capacity), totalDistance)
    {
      var visitedClients: set<nat> := {};
      var valid := true;
      var totalDemand := 0;
      ghost var ok := FirstOk(allRoutes, |allRoutes|, demands, depot, capacity);
      var i := 0;
      while i < |allRoutes|
        invariant i <= |allRoutes|
        invariant valid ==> FirstOk(allRoutes, i, demands, depot, capacity)
        invariant valid ==> visitedClients == Elems(Customers(Concat(allRoutes[..i]), depot))
        invariant !valid ==> !ok
      {
        var route := allRoutes[i];
        var routeOk, routeDemand := CheckRoute(route);
        if !routeOk {
          valid := false;
          break;
        }
        ghost var prefix := Concat(allRoutes[..i]);
        var clash;
        visitedClients, clash := RecordClients(route, visitedClients, Customers(prefix, depot));
        CustomersConcat(prefix, route, depot);
        ConcatStep(allRoutes, i);
        if clash {
          if valid {
            FirstOkPrefix(allRoutes, i + 1, demands, depot, capacity);
          }
          valid := false;
        }
        totalDemand := totalDemand + routeDemand;
        i := i + 1;
      }
      if valid {
        assert allRoutes[..|allRoutes|] == allRoutes;
      }
      if visitedClients != demands.Keys {
        valid := false;
      }
      if !valid {
        return -1000.0;
      }
      return 1000.0 / totalDistance;
    }

    /** The per-route checks of `validate_solution`, in order: the route
        starts and ends at the depot, has more than two entries, and its
        demand fits the capacity. */
    method CheckRoute(route: seq<nat>) returns (ok: bool, routeDemand: nat)
      requires |route| > 0 && DemandsKnown(demands, route, depot)
      ensures ok <==> RouteOk(route, demands, depot, capacity)
      ensures ok ==> routeDemand == Demand(demands, route, depot)
    {
      routeDemand := 0;
      if route[0] != depot || route[|route| - 1] != depot {
        return false, routeDemand;
      }
      if |route| <= 2 {
        return false, routeDemand;
      }
      routeDemand := Demand(demands, route, depot);
      ok := routeDemand <= capacity;
    }

    /** The inner loop of `validate_solution`: adds the customers of `route`
        to `visited`, stopping at the first one already there. When `visited`
        holds the customers `seen` so far, none of them twice, a clash is
        reported exactly when `seen` followed by the route's customers
        repeats a customer. */
    method RecordClients(route: seq<nat>, visited: set<nat>, ghost seen: seq<nat>)
      returns (visited': set<nat>, clash: bool)
      ensures visited == Elems(seen) && NoDup(seen) ==>
        (clash <==> !NoDup(seen + Customers(route, depot))) &&
        (!clash ==> visited' == Elems(seen + Customers(route, depot)))
    {
      ghost var tracked := visited == Elems(seen) && NoDup(seen);
      assert route[..0] == [] && seen + [] == seen;
      visited', clash := visited, false;
      var j := 0;
      while j < |route|
        invariant j <= |route|
        invariant tracked ==> NoDup(seen + Customers(route[..j], depot))
        invariant tracked ==> visited' == Elems(seen + Customers(route[..j], depot))
      {
        var node := route[j];
        ghost var sofar := seen + Customers(route[..j], depot);
        assert route[..j + 1] == route[..j] + [node];
        CustomersAppend(route[..j], node, depot);
        assert seen + Customers(route[..j + 1], depot) == sofar + (if node == depot then [] else [node]);
        if node != depot {
          NoDupAppend(sofar, node);
          if node in visited' {
            clash := true;
            if tracked {
              ClashSpreads(route, j, seen, depot);
            }
            return;
          }
          ElemsAppend(sofar, node);
          visited' := visited' + {node};
        }
        j := j + 1;
      }
      assert route[..j] == route;
    }

    /** `step`: an action outside the legal moves is refused with -1000 and
        `done`, changing nothing; a legal action moves the vehicle as `Moved`
        says, and at the end of the episode records the walk and its
        validation reward, and may replace the best solution. */
    method Step(action: nat) returns (state: State, reward: real, done: bool)
      requires Valid()
      modifies this
      ensures Valid()
      ensures state == GetState()
      ensures action !in old(MoveSet()) ==> reward == -1000.0 && done && unchanged(this)
      ensures action in old(MoveSet()) ==> Stepped(action, old(Current()), old(bestSolution), reward, done)
      ensures action in old(MoveSet()) && done ==> Finished()
    {
      var moves := GetValidMoves();
      if action !in moves {
        return GetState(), -1000.0, true;
      }
      reward, done := LegalStep(action);
      state := GetState();
    }

    /** The new state after a legal move `action` from the fields `before`,
        with the reward and `done` flag `step` returns: the walk is `Moved`
        on, and the outcome of that leg is `Settled`. */
    ghost predicate Stepped(action: nat, before: Progress, best: Best, reward: real, done: bool)
      reads this`currentNode, this`unvisited, this`currentLoad, this`currentRoute
      reads this`lastDepotVisitIdx, this`totalDistance, this`allRoutes, this`bestSolution
    {
      before.node < |distances| && action < |distances[before.node]| &&
      (action != depot ==> action in demands) &&
      Current() == Moved(demands, depot, distances, before, action) &&
      Settled(distances[before.node][action], best, reward, done)
    }

    /** The outcome of a move whose leg was `leg`, as `step` reports it:
        `done` says that every customer is served at the depot; only then is
        the walk recorded, rewarded by its validation, and kept as the best
        solution when that reward is positive and the distance beats the
        best one so far; otherwise the reward is minus the leg. */
    ghost predicate Settled(leg: real, best: Best, reward: real, done: bool)
      reads this`currentNode, this`unvisited, this`currentRoute
      reads this`totalDistance, this`allRoutes, this`bestSolution
    {
      done == (unvisited == {} && currentNode == depot) &&
      allRoutes == (if done then [currentRoute] else []) &&
      (!done ==> reward == -leg) &&
      (done ==> totalDistance > 0.0 &&
                reward == SolutionReward(AsWrittenValid(allRoutes, demands, depot, capacity), totalDistance)) &&
      bestSolution == (if done && reward > 0.0 && Below(totalDistance, best.distance)
                       then Best(allRoutes, Finite(totalDistance)) else best)
    }

    /** A legal move: lines 99-136 of `step`. */
    method LegalStep(action: nat) returns (reward: real, done: bool)
      requires Valid() && action in MoveSet()
      modifies this
      ensures Valid()
      ensures Stepped(action, old(Current()), old(bestSolution), reward, done)
      ensures done ==> Finished()
    {
      ghost var before, best := Current(), bestSolution;
      var distance := Move(action);
      ghost var after, trips := Current(), subRoutes;
      reward, done := Conclude(distance, after, trips, best);
    }

    /** Lines 115-136 of `step`, after a move whose leg was `distance`: the
        episode is done when every customer is served and the vehicle is at
        the depot; then the walk is recorded and validated, otherwise the
        reward is minus the leg. The walk itself, `after` and `trips`, is
        left as it is. */
    method Conclude(distance: real, ghost after: Progress, ghost trips: seq<seq<nat>>, ghost best: Best) returns (reward: real, done: bool)
      requires allRoutes == [] && |currentRoute| > 1 && DemandsKnown(demands, currentRoute, depot)
      requires unvisited == {} && currentNode == depot ==> totalDistance > 0.0
      requires Current() == after && subRoutes == trips && best == bestSolution
      modifies this`allRoutes, this`bestSolution
      ensures Current() == after && subRoutes == trips
      ensures Settled(distance, best, reward, done)
      ensures done ==> Finished()
    {
      done := |unvisited| == 0 && currentNode == depot;
      if done {
        reward := RecordEpisode();
      } else {
        reward := -distance;
      }
    }

    /** Lines 99-112 of `step`: pay the leg, move, load the customer or
        unload at the depot, and extend the route, as `Moved` says. */
    method Move(action: nat) returns (distance: real)
      requires Valid() && action in MoveSet()
      modifies this`currentNode, this`unvisited, this`currentLoad, this`currentRoute
      modifies this`lastDepotVisitIdx, this`totalDistance, this`subRoutes
      ensures Walked() && allRoutes == []
      ensures old(currentNode) < |distances| && action < |distances[old(currentNode)]|
      ensures action != depot ==> action in demands
      ensures distance == distances[old(currentNode)][action]
      ensures Current() == old(Moved(demands, depot, distances, Current(), action))
      ensures |currentRoute| > 1 && DemandsKnown(demands, currentRoute, depot)
      ensures unvisited == {} && currentNode == depot ==> totalDistance > 0.0
    {
      WalkMove(nodes, demands, depot, capacity, distances, Current(), subRoutes, action);
      distance := distances[currentNode][action];
      Save(Moved(demands, depot, distances, Current(), action), TripsAfter(subRoutes, Current(), depot, action));
    }

    /** The end-of-episode part of `step`: record the walk as a route,
        validate it, and keep it as the best solution when it is rewarded and
        shorter than the best so far. */
    method RecordEpisode() returns (reward: real)
      requires allRoutes == [] && |currentRoute| > 0 && DemandsKnown(demands, currentRoute, depot)
      requires totalDistance > 0.0
      modifies this`allRoutes, this`bestSolution
      ensures allRoutes == [currentRoute]
      ensures reward == SolutionReward(AsWrittenValid(allRoutes, demands, depot, capacity), totalDistance)
      ensures bestSolution == (if reward > 0.0 && Below(totalDistance, old(bestSolution).distance)
                               then Best(allRoutes, Finite(totalDistance)) else old(bestSolution))
    {
      allRoutes := allRoutes + [currentRoute];
      reward := ValidateSolution();
      if reward > 0.0 && Below(totalDistance, bestSolution.distance) {
        bestSolution := Best(allRoutes, Finite(totalDistance));
      }
    }

    /** Stores the fields of the walk and the trips closed so far. */
    method Save(p: Progress, ghost trips: seq<seq<nat>>)
      modifies this`currentNode, this`unvisited, this`currentLoad, this`currentRoute
      modifies this`lastDepotVisitIdx, this`totalDistance, this`subRoutes
      ensures Current() == p && subRoutes == trips
    {
      currentNode, unvisited, currentLoad, currentRoute, lastDepotVisitIdx, totalDistance :=
        p.node, p.unvisited, p.load, p.route, p.idx, p.total;
      subRoutes := trips;
    }

    /** When the episode is over, the trips closed along the way, each from
        a depot visit to the next, form a solution that passes the intended
        validity. */
    lemma FinishedIsIntendedValid()
      ensures Valid() && Finished() ==> IntendedValid(subRoutes, demands, depot, capacity, nodes)
    {
      if Valid() && Finished() {
        WalkFinished(nodes, demands, depot, capacity, distances, Current(), subRoutes);
      }
    }

    /** `reset`: a new episode from the depot; the best solution is kept. The
        state returned depends on the instance alone, so two resets in a row
        return the same state. */
    method Reset() returns (state: State)
      requires InstanceOk(nodes, demands, depot, distances)
      modifies this
      ensures Valid()
      ensures Current() == Start(nodes, depot) && allRoutes == [] && bestSolution == old(bestSolution)
      ensures state == GetState() && state == InitialState(nodes, depot, |distances|)
    {
      StartWalk(nodes, demands, depot, capacity, distances);
      ghost var walked := Walk(nodes, demands, depot, capacity, distances, Start(nodes, depot), []);
      assert walked;
      Save(Start(nodes, depot), []);
      allRoutes := [];
      assert walked == Walked();
      state := GetState();
    }

    /** Two consecutive resets return equal states. */
    method ResetTwice() returns (first: State, second: State)
      requires InstanceOk(nodes, demands, depot, distances)
      modifies this
      ensures first == second && Valid()
    {
      first := Reset();
      second := Reset();
    }

    /** `get_solution`: the recorded routes, or the current route while none
        is recorded, with the distance paid. Under the invariant that is
        always the single current walk. */
    function GetSolution(): (sol: Solution)
      reads this
      ensures sol.distance == totalDistance
      ensures Valid() ==> sol.routes == [currentRoute]
    {
      Solution(if allRoutes != [] then allRoutes else [currentRoute], totalDistance)
    }

    /** `_calculate_route_distance`: the sum of the legs of `route`, added
        left to right; 0 for fewer than two nodes. */
    method RouteDistance(route: seq<nat>) returns (dist: real)
      requires OnMatrix(distances, route)
      ensures dist == WalkDistance(distances, route)
    {
      if |route| < 2 {
        return 0.0;
      }
      dist := 0.0;
      var i := 0;
      assert |route[..1]| == 1;
      while i < |route| - 1
        invariant 0 <= i <= |route| - 1
        invariant dist == WalkDistance(distances, route[..i + 1])
      {
        assert route[..i + 2] == route[..i + 1] + [route[i + 1]];
        WalkDistanceAppend(distances, route[..i + 1], route[i + 1]);
        dist := dist + distances[route[i]][route[i + 1]];
        i := i + 1;
      }
      assert route[..|route|] == route;
    }

    /** `render_route`: the recorded routes joined, each without its final
        depot, closed by one depot visit (just the depot when nothing is
        recorded), with the length of that walk. */
    method RenderRoute() returns (route: seq<nat>, distance: real)
      requires forall i :: 0 <= i < |allRoutes| ==> OnMatrix(distances, allRoutes[i])
      requires depot < |distances| && |distances[depot]| == |distances|
      ensures route == Rendered(allRoutes, depot)
      ensures OnMatrix(distances, route) && distance == WalkDistance(distances, route)
      ensures allRoutes == [] ==> route == [depot] && distance == 0.0
    {
      var complete: seq<nat> := [];
      var i := 0;
      while i < |allRoutes|
        invariant i <= |allRoutes|
        invariant complete == Glue(allRoutes[..i])
      {
        var r := allRoutes[i];
        assert allRoutes[..i + 1] == allRoutes[..i] + [r];
        GlueAppend(allRoutes[..i], r);
        if r != [] {
          complete := complete + r[..|r| - 1];
        }
        i := i + 1;
      }
      assert allRoutes[..i] == allRoutes;
      GlueOnMatrix(distances, allRoutes);
      if complete != [] {
        complete := complete + [depot];
      } else {
        complete := [depot];
      }
      route := complete;
      distance := RouteDistance(route);
    }

    /** After a finished episode `render_route` draws the walk itself, and
        its length is the distance paid. */
    lemma FinishedRendering()
      ensures Valid() && Finished() ==>
        Rendered(allRoutes, depot) == currentRoute && WalkDistance(distances, currentRoute) == totalDistance
    {
      if Valid() && Finished() {
        GlueSingle(currentRoute, depot);
      }
    }

    /** `get_total_distance`: the sum of the lengths of the recorded routes;
        under the invariant, the distance paid once the episode is finished
        and 0 before. */
    method GetTotalDistance() returns (total: real)
      requires forall i :: 0 <= i < |allRoutes| ==> OnMatrix(distances, allRoutes[i])
      ensures total == RoutesDistance(distances, allRoutes)
      ensures Valid() ==> total == (if Finished() then totalDistance else 0.0)
    {
      total := 0.0;
      var i := 0;
      while i < |allRoutes|
        invariant i <= |allRoutes|
        invariant total == RoutesDistance(distances, allRoutes[..i])
      {
        var d := RouteDistance(allRoutes[i]);
        assert allRoutes[..i + 1][..i] == allRoutes[..i];
        total := total + d;
        i := i + 1;
      }
      assert allRoutes[..i] == allRoutes;
      assert [currentRoute][..0] == [];
    }

    /** With every demand within the capacity, no legal move is left exactly
        when every customer is served and the vehicle is at the depot. */
    lemma NoDeadlock()
      requires Valid()
      requires forall x :: x in nodes - {depot} ==> demands[x] <= capacity
      ensures MoveSet() == {} <==> unvisited == {} && currentNode == depot
    {
      if currentNode == depot {
        assert lastDepotVisitIdx == |currentRoute| - 1;
        assert currentRoute[lastDepotVisitIdx..] == [depot];
        DemandAppend(demands, [], depot, depot);
        assert [depot] == [] + [depot];
      }
      NoMovesIffFinished(unvisited, demands, currentLoad, capacity, currentNode, depot,
                         |currentRoute| - lastDepotVisitIdx - 1);
    }
  }
}

