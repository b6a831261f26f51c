/** The episode environment of src/rl/env.py on the values of its fields: a
    vehicle leaves the depot, serves customers while its load fits the
    capacity, returns to the depot to unload, and finishes when every
    customer is served and it is back at the depot. This module holds the
    legal moves, the validation of a solution, the invariant of a walk and
    the move itself. */
module RlWalk {
  import opened Routes

  /** The hashable state: current node, sorted unvisited customers, load,
      the route since the last depot visit, and whether at the depot. */
  datatype State = State(node: nat, unvisited: seq<nat>, load: nat, activeRoute: seq<nat>, atDepot: bool)

  /** The best solution recorded so far. */
  datatype Best = Best(routes: seq<seq<nat>>, distance: Extended)

  /** What `get_solution` reports. */
  datatype Solution = Solution(routes: seq<seq<nat>>, distance: real)

  /** An instance: the depot is a node, every other node has a demand, the
      matrix covers every node, and distinct nodes are a positive distance
      apart. */
  ghost predicate InstanceOk(nodes: set<nat>, demands: map<nat, nat>, depot: nat, distances: seq<seq<real>>) {
    depot in nodes && nodes - {depot} <= demands.Keys && DistanceMatrix(distances) &&
    (forall x :: x in nodes ==> x < |distances|) &&
    (forall x, y :: x in nodes && y in nodes && x != y ==> distances[x][y] > 0.0)
  }

  /** The state right after a reset. */
  function InitialState(nodes: set<nat>, depot: nat, size: nat): State {
    State(depot, SortedBelow(nodes - {depot}, size), 0, [depot], true)
  }

  // ---------------------------------------------------------------------------
  // Legal moves
  // ---------------------------------------------------------------------------

  /** Unvisited customers whose demand still fits on the vehicle. */
  function Feasible(unvisited: set<nat>, demands: map<nat, nat>, load: nat, capacity: nat): set<nat>
    requires unvisited <= demands.Keys
  {
    set x | x in unvisited && load + demands[x] <= capacity
  }

  /** The depot-return rule: not at the depot, some node visited since the
      last depot visit, and either no customer fits or none is left. */
  predicate MayReturn(node: nat, depot: nat, sinceDepot: int, feasible: set<nat>, unvisited: set<nat>) {
    node != depot && sinceDepot > 0 && (feasible == {} || unvisited == {})
  }

  /** The set of moves `get_valid_moves` offers. */
  function Moves(unvisited: set<nat>, demands: map<nat, nat>, load: nat, capacity: nat,
                 node: nat, depot: nat, sinceDepot: int): set<nat>
    requires unvisited <= demands.Keys
  {
    var f := Feasible(unvisited, demands, load, capacity);
    f + (if MayReturn(node, depot, sinceDepot, f, unvisited) then {depot} else {})
  }

  /** A customer is offered exactly when it is unvisited and fits; the depot
      exactly when the return rule holds. The depot is never offered while
      the vehicle stands at it. */
  lemma MovesMembers(unvisited: set<nat>, demands: map<nat, nat>, load: nat, capacity: nat,
                     node: nat, depot: nat, sinceDepot: int, x: nat)
    requires unvisited <= demands.Keys && depot !in unvisited
    ensures x != depot ==>
      ((x in Moves(unvisited, demands, load, capacity, node, depot, sinceDepot)) <==>
       (x in unvisited && load + demands[x] <= capacity))
    ensures depot in Moves(unvisited, demands, load, capacity, node, depot, sinceDepot)
        <==> MayReturn(node, depot, sinceDepot, Feasible(unvisited, demands, load, capacity), unvisited)
    ensures node == depot ==> depot !in Moves(unvisited, demands, load, capacity, node, depot, sinceDepot)
  {
  }

  /** When every demand fits in an empty vehicle, the environment never gets
      stuck: no move is left exactly when every customer is served and the
      vehicle is back at the depot. */
  lemma NoMovesIffFinished(unvisited: set<nat>, demands: map<nat, nat>, load: nat, capacity: nat,
                           node: nat, depot: nat, sinceDepot: int)
    requires unvisited <= demands.Keys && depot !in unvisited
    requires forall x :: x in unvisited ==> demands[x] <= capacity
    requires node == depot ==> load == 0
    requires node != depot ==> sinceDepot > 0
    ensures Moves(unvisited, demands, load, capacity, node, depot, sinceDepot) == {}
        <==> unvisited == {} && node == depot
  {
    var f := Feasible(unvisited, demands, load, capacity);
    if unvisited != {} && node == depot {
      var x :| x in unvisited;
      assert x in f;
    }
    if node != depot {
      assert f == {} ==> MayReturn(node, depot, sinceDepot, f, unvisited);
    }
  }

  /** Without that assumption an episode can be stuck at the depot: when
      every customer left has a demand above the capacity, none of them is
      ever offered, whatever the load; away from the depot only the return
      is offered, and at the depot nothing is, though customers remain. */
  lemma StuckWithOversizedDemand(unvisited: set<nat>, demands: map<nat, nat>, load: nat, capacity: nat,
                                 node: nat, depot: nat, sinceDepot: int)
    requires unvisited <= demands.Keys && unvisited != {}
    requires forall x :: x in unvisited ==> demands[x] > capacity
    ensures Feasible(unvisited, demands, load, capacity) == {}
    ensures node != depot && sinceDepot > 0 ==> Moves(unvisited, demands, load, capacity, node, depot, sinceDepot) == {depot}
    ensures Moves(unvisited, demands, load, capacity, depot, depot, sinceDepot) == {}
  {
  }

  // ---------------------------------------------------------------------------
  // Validation of a finished solution
  // ---------------------------------------------------------------------------

  /** One route passes the per-route checks of `validate_solution`: it starts
      and ends at the depot, has more than two entries and its demand fits. */
  predicate RouteOk(route: seq<nat>, demands: map<nat, nat>, depot: nat, capacity: nat) {
    |route| > 0 && route[0] == depot && Last(route) == depot && |route| > 2 &&
    DemandsKnown(demands, route, depot) && Demand(demands, route, depot) <= capacity
  }

  /** The first `n` routes pass their checks and share no customer. */
  predicate FirstOk(routes: seq<seq<nat>>, n: nat, demands: map<nat, nat>, depot: nat, capacity: nat)
    requires n <= |routes|
  {
    (forall k :: 0 <= k < n ==> RouteOk(routes[k], demands, depot, capacity)) &&
    NoDup(Customers(Concat(routes[..n]), depot))
  }

  /** Every route passes and the customers served are exactly `clients`. */
  predicate Serves(routes: seq<seq<nat>>, demands: map<nat, nat>, depot: nat, capacity: nat, clients: set<nat>) {
    FirstOk(routes, |routes|, demands, depot, capacity) &&
    Elems(Customers(Concat(routes), depot)) == clients
  }

  /** The validity test of `validate_solution` as written: the customers
      served are compared against every key of `demands`. */
  predicate AsWrittenValid(routes: seq<seq<nat>>, demands: map<nat, nat>, depot: nat, capacity: nat) {
    Serves(routes, demands, depot, capacity, demands.Keys)
  }

  /** `1000 / total_distance` for a valid solution, -1000 otherwise. */
  function SolutionReward(valid: bool, total: real): real
    requires valid ==> total > 0.0
  {
    if valid then 1000.0 / total else -1000.0
  }

  /** The reward of a valid solution is positive and strictly decreasing in
      its distance, and always above the penalty. */
  lemma RewardOrder(t1: real, t2: real)
    requires 0.0 < t1 < t2
    ensures SolutionReward(true, t1) > SolutionReward(true, t2) > 0.0
    ensures SolutionReward(true, t2) > SolutionReward(false, t2)
  {
    var r1, r2 := 1000.0 / t1, 1000.0 / t2;
    assert r1 * t1 == 1000.0 && r2 * t2 == 1000.0;
    DivPositive(1000.0, t2);
    Prod(r1, r2, t1, t2);
  }

  lemma DivPositive(a: real, t: real)
    requires a > 0.0 && t > 0.0
    ensures a / t > 0.0
  {
  }

  lemma Prod(r1: real, r2: real, t1: real, t2: real)
    requires 0.0 < t1 < t2 && r2 > 0.0 && r1 * t1 == r2 * t2
    ensures r1 > r2
  {
    assert r2 * t2 > r2 * t1;
  }

  /** A route never serves the depot, so when `demands` has a key for the
      depot (as `parse_vrp_file`, src/utils.py:49-56, stores it from the
      demand section) no solution passes. */
  lemma DepotKeyRejectsEverySolution(routes: seq<seq<nat>>, demands: map<nat, nat>, depot: nat, capacity: nat)
    requires depot in demands
    ensures !AsWrittenValid(routes, demands, depot, capacity)
  {
    CustomersMembers(Concat(routes), depot);
    assert depot !in Elems(Customers(Concat(routes), depot));
  }

  /** Checks on a prefix of the routes are a consequence of the checks on
      all of them. */
  lemma FirstOkPrefix(routes: seq<seq<nat>>, n: nat, demands: map<nat, nat>, depot: nat, capacity: nat)
    requires n <= |routes|
    ensures FirstOk(routes, |routes|, demands, depot, capacity) ==> FirstOk(routes, n, demands, depot, capacity)
  {
    if FirstOk(routes, |routes|, demands, depot, capacity) {
      assert routes[..|routes|] == routes;
      CustomersOfPrefix(routes, n, depot);
    }
  }

  /** The validity the checks evidently intend for a multi-trip solution:
      the routes are the closed sub-routes of the walk and the customers
      served are the non-depot nodes. */
  predicate IntendedValid(routes: seq<seq<nat>>, demands: map<nat, nat>, depot: nat, capacity: nat, nodes: set<nat>) {
    Serves(routes, demands, depot, capacity, nodes - {depot})
  }

  /** The walk of a two-trip episode (depot 0, demands 3, 4 and 5, capacity
      10), recorded whole as one route, fails the capacity check. */
  lemma WholeWalkFailsCapacity()
    ensures !AsWrittenValid([[0, 1, 2, 0, 3, 0]], map[1 := 3, 2 := 4, 3 := 5], 0, 10)
  {
    var demands := map[1 := 3, 2 := 4, 3 := 5];
    var walk := [0, 1, 2, 0, 3, 0];
    DemandAppend(demands, [0, 1, 2, 0, 3], 0, 0);
    DemandAppend(demands, [0, 1, 2, 0], 3, 0);
    TripDemand();
    assert walk == [0, 1, 2, 0, 3] + [0];
    assert [0, 1, 2, 0, 3] == [0, 1, 2, 0] + [3];
    assert !RouteOk(walk, demands, 0, 10);
    assert [[0, 1, 2, 0, 3, 0]][0] == walk;
  }

  lemma TripDemand()
    ensures DemandsKnown(map[1 := 3, 2 := 4, 3 := 5], [0, 1, 2, 0], 0)
    ensures Demand(map[1 := 3, 2 := 4, 3 := 5], [0, 1, 2, 0], 0) == 7
    ensures DemandsKnown(map[1 := 3, 2 := 4, 3 := 5], [0, 3, 0], 0)
    ensures Demand(map[1 := 3, 2 := 4, 3 := 5], [0, 3, 0], 0) == 5
  {
    var demands := map[1 := 3, 2 := 4, 3 := 5];
    DemandAppend(demands, [0, 1, 2], 0, 0);
    DemandAppend(demands, [0, 1], 2, 0);
    DemandAppend(demands, [0], 1, 0);
    DemandAppend(demands, [], 0, 0);
    DemandAppend(demands, [0, 3], 0, 0);
    DemandAppend(demands, [0], 3, 0);
    assert [0, 1, 2, 0] == [0, 1, 2] + [0] && [0, 1, 2] == [0, 1] + [2];
    assert [0, 1] == [0] + [1] && [0] == [] + [0];
    assert [0, 3, 0] == [0, 3] + [0] && [0, 3] == [0] + [3];
  }

  /** The two trips of that walk pass every check of the intended validity. */
  lemma TripsAreIntendedValid()
    ensures IntendedValid([[0, 1, 2, 0], [0, 3, 0]], map[1 := 3, 2 := 4, 3 := 5], 0, 10, {0, 1, 2, 3})
  {
    var demands := map[1 := 3, 2 := 4, 3 := 5];
    var trips := [[0, 1, 2, 0], [0, 3, 0]];
    TripDemand();
    assert RouteOk(trips[0], demands, 0, 10) && RouteOk(trips[1], demands, 0, 10);
    assert trips[..2] == trips;
    TripsServe();
    assert NoDup([1, 2, 3]);
    assert Elems([1, 2, 3]) == {1, 2, 3};
  }

  lemma TripsServe()
    ensures Customers(Concat([[0, 1, 2, 0], [0, 3, 0]]), 0) == [1, 2, 3]
  {
    var trips := [[0, 1, 2, 0], [0, 3, 0]];
    assert trips == [[0, 1, 2, 0]] + [[0, 3, 0]] && [[0, 1, 2, 0]] == [] + [[0, 1, 2, 0]];
    ConcatAppend([[0, 1, 2, 0]], [0, 3, 0]);
    ConcatAppend([], [0, 1, 2, 0]);
    assert Concat(trips) == [0, 1, 2, 0] + [0, 3, 0];
    TripCustomers();
    CustomersConcat([0, 1, 2, 0], [0, 3, 0], 0);
  }

  lemma TripCustomers()
    ensures Customers([0, 1, 2, 0], 0) == [1, 2]
    ensures Customers([0, 3, 0], 0) == [3]
  {
    CustomersAppend([0, 1, 2], 0, 0);
    CustomersAppend([0, 1], 2, 0);
    CustomersAppend([0], 1, 0);
    CustomersAppend([], 0, 0);
    CustomersAppend([0, 3], 0, 0);
    CustomersAppend([0], 3, 0);
    assert [0, 1, 2, 0] == [0, 1, 2] + [0] && [0, 1, 2] == [0, 1] + [2];
    assert [0, 1] == [0] + [1] && [0] == [] + [0];
    assert [0, 3, 0] == [0, 3] + [0] && [0, 3] == [0] + [3];
  }

  // ---------------------------------------------------------------------------
  // The walk
  // ---------------------------------------------------------------------------

  /** Shape of the route walked so far: it starts at the depot, index `idx`
      is the last depot visit, and every entry is a node. */
  predicate Shape(route: seq<nat>, idx: nat, depot: nat, nodes: set<nat>) {
    |route| > 0 && route[0] == depot && idx < |route| && route[idx] == depot &&
    (forall k :: idx < k < |route| ==> route[k] != depot) &&
    (forall k :: 0 <= k < |route| ==> route[k] in nodes)
  }

  /** A customer step extends the route and takes the customer out of the
      unvisited ones. */
  lemma CustomerStepKeeps(route: seq<nat>, idx: nat, unvisited: set<nat>, x: nat, depot: nat, nodes: set<nat>)
    requires Shape(route, idx, depot, nodes) && Partition(route, unvisited, depot, nodes - {depot})
    requires x in unvisited && x != depot && x in nodes
    ensures Shape(route + [x], idx, depot, nodes)
    ensures Partition(route + [x], unvisited - {x}, depot, nodes - {depot})
  {
    PartitionServe(route, unvisited, depot, nodes - {depot}, x);
  }

  /** A customer step adds the customer's demand to the current trip. */
  lemma CustomerStepLoads(route: seq<nat>, idx: nat, x: nat, depot: nat,
                          demands: map<nat, nat>, trips: seq<seq<nat>>)
    requires idx < |route| && DemandsKnown(demands, route[idx..], depot) && route == Glue(trips) + route[idx..]
    requires x != depot && x in demands
    ensures (route + [x])[idx..] == route[idx..] + [x]
    ensures DemandsKnown(demands, (route + [x])[idx..], depot)
    ensures Demand(demands, (route + [x])[idx..], depot) == Demand(demands, route[idx..], depot) + demands[x]
    ensures route + [x] == Glue(trips) + (route + [x])[idx..]
  {
    assert (route + [x])[idx..] == route[idx..] + [x];
    DemandAppend(demands, route[idx..], x, depot);
  }

  /** A depot step starts a new trip at the end of the route. */
  lemma DepotStepKeeps(route: seq<nat>, idx: nat, unvisited: set<nat>, depot: nat, nodes: set<nat>)
    requires Shape(route, idx, depot, nodes) && Partition(route, unvisited, depot, nodes - {depot})
    requires depot in nodes
    ensures Shape(route + [depot], |route|, depot, nodes)
    ensures Partition(route + [depot], unvisited, depot, nodes - {depot})
    ensures (route + [depot])[|route|..] == [depot]
  {
    CustomersAppend(route, depot, depot);
    assert (route + [depot])[|route|..] == [depot];
  }

  /** A depot step closes the trip `route[idx..] + [depot]`. */
  lemma DepotStepCloses(route: seq<nat>, idx: nat, depot: nat, nodes: set<nat>,
                        demands: map<nat, nat>, capacity: nat, trips: seq<seq<nat>>)
    requires Shape(route, idx, depot, nodes) && DemandsKnown(demands, route[idx..], depot)
    requires Demand(demands, route[idx..], depot) <= capacity
    requires route == Glue(trips) + route[idx..] && |route| - idx - 1 > 0
    ensures DemandsKnown(demands, [depot], depot) && Demand(demands, [depot], depot) == 0
    ensures RouteOk(route[idx..] + [depot], demands, depot, capacity)
    ensures route + [depot] == Glue(trips + [route[idx..] + [depot]]) + (route + [depot])[|route|..]
  {
    assert (route + [depot])[|route|..] == [depot];
    assert [depot] == [] + [depot];
    DemandAppend(demands, [], depot, depot);
    var trip := route[idx..] + [depot];
    DemandAppend(demands, route[idx..], depot, depot);
    GlueAppend(trips, trip);
    assert DropLast(trip) == route[idx..];
  }

  /** When the episode is over, the trips closed along the way serve every
      customer once and each passes the per-route checks. */
  lemma FinishedTripsAreValid(trips: seq<seq<nat>>, route: seq<nat>, demands: map<nat, nat>,
                              depot: nat, capacity: nat, nodes: set<nat>)
    requires route == Glue(trips) + [depot]
    requires forall i :: 0 <= i < |trips| ==> RouteOk(trips[i], demands, depot, capacity)
    requires Partition(route, {}, depot, nodes - {depot})
    ensures IntendedValid(trips, demands, depot, capacity, nodes)
  {
    forall i | 0 <= i < |trips| ensures |trips[i]| > 0 && Last(trips[i]) == depot {
      assert RouteOk(trips[i], demands, depot, capacity);
    }
    ServedByTrips(trips, route, depot);
    PartitionDone(route, depot, nodes - {depot});
    assert FirstOk(trips, |trips|, demands, depot, capacity) by {
      assert trips[..|trips|] == trips;
    }
  }

  /** With no customer left unvisited, the route serves every customer once. */
  lemma PartitionDone(route: seq<nat>, depot: nat, customers: set<nat>)
    requires Partition(route, {}, depot, customers)
    ensures Elems(Customers(route, depot)) == customers && NoDup(Customers(route, depot))
  {
  }

  /** Trips that each end at the depot, joined and closed by one depot
      visit, serve the customers the trips serve. */
  lemma ServedByTrips(trips: seq<seq<nat>>, route: seq<nat>, depot: nat)
    requires route == Glue(trips) + [depot]
    requires forall i :: 0 <= i < |trips| ==> |trips[i]| > 0 && Last(trips[i]) == depot
    ensures Customers(Concat(trips), depot) == Customers(route, depot)
  {
    CustomersOfGlue(trips, depot);
    CustomersConcat(Glue(trips), [depot], depot);
    assert Customers([depot], depot) == [] by {
      assert [depot][..0] == [];
    }
  }

  /** Sum of the lengths of `routes`, in order. */
  function RoutesDistance(d: seq<seq<real>>, routes: seq<seq<nat>>): real
    requires forall i :: 0 <= i < |routes| ==> OnMatrix(d, routes[i])
  {
    if routes == [] then 0.0
    else RoutesDistance(d, routes[..|routes| - 1]) + WalkDistance(d, Last(routes))
  }

  /** The fields of the walk in progress: the current node, the unvisited
      customers, the load, the route walked so far, the index of the last
      depot visit in it and the distance paid. */
  datatype Progress = Progress(node: nat, unvisited: set<nat>, load: nat, route: seq<nat>, idx: nat, total: real)

  /** The fields right after a reset. */
  function Start(nodes: set<nat>, depot: nat): Progress {
    Progress(depot, nodes - {depot}, 0, [depot], 0, 0.0)
  }

  /** The invariant of an episode in progress: the route walked so far, the
      vehicle at its last node, the partition of the customers, the load
      since the last depot visit, the distance paid, and the trips closed so
      far. */
  ghost predicate Walk(nodes: set<nat>, demands: map<nat, nat>, depot: nat, capacity: nat,
                       d: seq<seq<real>>, p: Progress, trips: seq<seq<nat>>) {
    InstanceOk(nodes, demands, depot, d) &&
    Shape(p.route, p.idx, depot, nodes) &&
    p.node == Last(p.route) &&
    Partition(p.route, p.unvisited, depot, nodes - {depot}) &&
    DemandsKnown(demands, p.route[p.idx..], depot) &&
    p.load == Demand(demands, p.route[p.idx..], depot) &&
    p.load <= capacity &&
    OnMatrix(d, p.route) &&
    p.total == WalkDistance(d, p.route) &&
    p.route == Glue(trips) + p.route[p.idx..] &&
    (forall i :: 0 <= i < |trips| ==> RouteOk(trips[i], demands, depot, capacity))
  }

  /** The moves `get_valid_moves` offers for the given fields. */
  function Offered(demands: map<nat, nat>, depot: nat, capacity: nat, p: Progress): set<nat>
    requires p.unvisited <= demands.Keys
  {
    Moves(p.unvisited, demands, p.load, capacity, p.node, depot, |p.route| - p.idx - 1)
  }

  /** The fields after a legal move `action` (lines 99-112 of `step`): the
      leg is paid, a customer is loaded and taken out of the unvisited ones,
      the depot unloads the vehicle and becomes the last depot visit, and the
      route is extended. */
  function Moved(demands: map<nat, nat>, depot: nat, d: seq<seq<real>>, p: Progress, action: nat): Progress
    requires p.node < |d| && action < |d[p.node]| && (action != depot ==> action in demands)
  {
    var total := p.total + d[p.node][action];
    if action == depot then Progress(depot, p.unvisited, 0, p.route + [depot], |p.route|, total)
    else Progress(action, p.unvisited - {action}, p.load + demands[action], p.route + [action], p.idx, total)
  }

  /** The trips closed after that move: a depot move closes the trip since
      the last depot visit. */
  function TripsAfter(trips: seq<seq<nat>>, p: Progress, depot: nat, action: nat): seq<seq<nat>>
    requires p.idx <= |p.route|
  {
    if action == depot then trips + [p.route[p.idx..] + [depot]] else trips
  }

  /** The start of an episode satisfies the invariant, with no trip closed. */
  lemma StartWalk(nodes: set<nat>, demands: map<nat, nat>, depot: nat, capacity: nat, d: seq<seq<real>>)
    requires InstanceOk(nodes, demands, depot, d)
    ensures Walk(nodes, demands, depot, capacity, d, Start(nodes, depot), [])
  {
    assert Customers([depot], depot) == [] by {
      assert [depot][..0] == [];
    }
    assert Elems<nat>([]) == {};
    assert [depot][0..] == [depot];
  }

  /** Every legal move keeps the invariant. It is never offered once every
      customer is served at the depot; after it the route has left the depot,
      its demands are known, and a vehicle back at the depot has paid a
      positive distance. */
  lemma WalkMove(nodes: set<nat>, demands: map<nat, nat>, depot: nat, capacity: nat,
                 d: seq<seq<real>>, p: Progress, trips: seq<seq<nat>>, action: nat)
    requires Walk(nodes, demands, depot, capacity, d, p, trips)
    requires p.unvisited <= demands.Keys && action in Offered(demands, depot, capacity, p)
    ensures p.unvisited != {} || p.node != depot
    ensures p.node < |d| && action < |d[p.node]| && (action != depot ==> action in demands)
    ensures Walk(nodes, demands, depot, capacity, d, Moved(demands, depot, d, p, action),
                 TripsAfter(trips, p, depot, action))
    ensures var q := Moved(demands, depot, d, p, action);
      |q.route| > 1 && DemandsKnown(demands, q.route, depot) && (q.node == depot ==> q.total > 0.0)
  {
    MovesMembers(p.unvisited, demands, p.load, capacity, p.node, depot, |p.route| - p.idx - 1, action);
    if action != depot {
      CustomerMove(nodes, demands, depot, capacity, d, p, trips, action);
    } else {
      DepotMove(nodes, demands, depot, capacity, d, p, trips);
    }
    WalkDemandsKnown(nodes, demands, depot, capacity, d, Moved(demands, depot, d, p, action),
                     TripsAfter(trips, p, depot, action));
  }

  /** Serving an unvisited customer that fits keeps the invariant. */
  lemma CustomerMove(nodes: set<nat>, demands: map<nat, nat>, depot: nat, capacity: nat,
                         d: seq<seq<real>>, p: Progress, trips: seq<seq<nat>>, x: nat)
    requires Walk(nodes, demands, depot, capacity, d, p, trips)
    requires x in p.unvisited && p.load + demands[x] <= capacity
    ensures p.node < |d| && x < |d[p.node]| && x != depot && x in demands
    ensures Walk(nodes, demands, depot, capacity, d, Moved(demands, depot, d, p, x), trips)
  {
    CustomerMoveShape(nodes, demands, depot, capacity, d, p, trips, x);
    CustomerMoveLoad(nodes, demands, depot, capacity, d, p, trips, x);
    CustomerMoveLength(nodes, demands, depot, capacity, d, p, trips, x);
  }

  lemma CustomerMoveShape(nodes: set<nat>, demands: map<nat, nat>, depot: nat, capacity: nat,
                         d: seq<seq<real>>, p: Progress, trips: seq<seq<nat>>, x: nat)
    requires Walk(nodes, demands, depot, capacity, d, p, trips)
    requires x in p.unvisited && p.load + demands[x] <= capacity
    ensures p.node < |d| && x < |d[p.node]| && x != depot && x in demands
    ensures var q := Moved(demands, depot, d, p, x);
      Shape(q.route, q.idx, depot, nodes) && q.node == Last(q.route) &&
      Partition(q.route, q.unvisited, depot, nodes - {depot})
  {
    assert x in nodes && x != depot && p.node in nodes;
    CustomerStepKeeps(p.route, p.idx, p.unvisited, x, depot, nodes);
  }

  lemma CustomerMoveLoad(nodes: set<nat>, demands: map<nat, nat>, depot: nat, capacity: nat,
                         d: seq<seq<real>>, p: Progress, trips: seq<seq<nat>>, x: nat)
    requires Walk(nodes, demands, depot, capacity, d, p, trips)
    requires x in p.unvisited && p.load + demands[x] <= capacity
    ensures p.node < |d| && x < |d[p.node]| && x != depot && x in demands
    ensures var q := Moved(demands, depot, d, p, x);
      DemandsKnown(demands, q.route[q.idx..], depot) && q.load == Demand(demands, q.route[q.idx..], depot) &&
      q.load <= capacity && q.route == Glue(trips) + q.route[q.idx..]
  {
    assert x in nodes && x != depot && p.node in nodes;
    CustomerStepLoads(p.route, p.idx, x, depot, demands, trips);
  }

  lemma CustomerMoveLength(nodes: set<nat>, demands: map<nat, nat>, depot: nat, capacity: nat,
                         d: seq<seq<real>>, p: Progress, trips: seq<seq<nat>>, x: nat)
    requires Walk(nodes, demands, depot, capacity, d, p, trips)
    requires x in p.unvisited && p.load + demands[x] <= capacity
    ensures p.node < |d| && x < |d[p.node]| && x != depot && x in demands
    ensures var q := Moved(demands, depot, d, p, x);
      OnMatrix(d, q.route) && q.total == WalkDistance(d, q.route)
  {
    assert x in nodes && x != depot && p.node in nodes;
    WalkDistanceAppend(d, p.route, x);
  }

  /** Returning to the depot after visiting some node keeps the invariant,
      closes the trip since the last depot visit, and leaves a positive
      distance paid. */
  lemma DepotMove(nodes: set<nat>, demands: map<nat, nat>, depot: nat, capacity: nat,
                  d: seq<seq<real>>, p: Progress, trips: seq<seq<nat>>)
    requires Walk(nodes, demands, depot, capacity, d, p, trips)
    requires p.node != depot && |p.route| - p.idx - 1 > 0
    ensures p.node < |d| && depot < |d[p.node]|
    ensures Walk(nodes, demands, depot, capacity, d, Moved(demands, depot, d, p, depot),
                 TripsAfter(trips, p, depot, depot))
    ensures Moved(demands, depot, d, p, depot).total > 0.0
  {
    DepotMoveShape(nodes, demands, depot, capacity, d, p, trips);
    DepotMoveLoad(nodes, demands, depot, capacity, d, p, trips);
    DepotMoveLength(nodes, demands, depot, capacity, d, p, trips);
  }

  lemma DepotMoveShape(nodes: set<nat>, demands: map<nat, nat>, depot: nat, capacity: nat,
                       d: seq<seq<real>>, p: Progress, trips: seq<seq<nat>>)
    requires Walk(nodes, demands, depot, capacity, d, p, trips)
    ensures Shape(p.route + [depot], |p.route|, depot, nodes) && depot == Last(p.route + [depot])
    ensures Partition(p.route + [depot], p.unvisited, depot, nodes - {depot})
  {
    DepotStepKeeps(p.route, p.idx, p.unvisited, depot, nodes);
  }

  lemma DepotMoveLoad(nodes: set<nat>, demands: map<nat, nat>, depot: nat, capacity: nat,
                      d: seq<seq<real>>, p: Progress, trips: seq<seq<nat>>)
    requires Walk(nodes, demands, depot, capacity, d, p, trips)
    requires |p.route| - p.idx - 1 > 0
    ensures DemandsKnown(demands, (p.route + [depot])[|p.route|..], depot)
    ensures 0 == Demand(demands, (p.route + [depot])[|p.route|..], depot)
    ensures p.route + [depot] == Glue(TripsAfter(trips, p, depot, depot)) + (p.route + [depot])[|p.route|..]
    ensures forall i :: 0 <= i < |TripsAfter(trips, p, depot, depot)| ==>
      RouteOk(TripsAfter(trips, p, depot, depot)[i], demands, depot, capacity)
  {
    DepotStepKeeps(p.route, p.idx, p.unvisited, depot, nodes);
    DepotStepCloses(p.route, p.idx, depot, nodes, demands, capacity, trips);
  }

  lemma DepotMoveLength(nodes: set<nat>, demands: map<nat, nat>, depot: nat, capacity: nat,
                        d: seq<seq<real>>, p: Progress, trips: seq<seq<nat>>)
    requires Walk(nodes, demands, depot, capacity, d, p, trips)
    requires p.node != depot
    ensures p.node < |d| && depot < |d[p.node]|
    ensures OnMatrix(d, p.route + [depot])
    ensures p.total + d[p.node][depot] == WalkDistance(d, p.route + [depot])
    ensures p.total + d[p.node][depot] > 0.0
  {
    assert p.node in nodes;
    WalkDistanceAppend(d, p.route, depot);
    WalkDistanceLowerBound(d, p.route);
  }

  lemma WalkDemandsKnown(nodes: set<nat>, demands: map<nat, nat>, depot: nat, capacity: nat,
                         d: seq<seq<real>>, p: Progress, trips: seq<seq<nat>>)
    requires Walk(nodes, demands, depot, capacity, d, p, trips)
    ensures DemandsKnown(demands, p.route, depot)
  {
  }

  /** At the end of an episode the trips closed along the way pass the
      intended validity. */
  lemma WalkFinished(nodes: set<nat>, demands: map<nat, nat>, depot: nat, capacity: nat,
                     d: seq<seq<real>>, p: Progress, trips: seq<seq<nat>>)
    requires Walk(nodes, demands, depot, capacity, d, p, trips)
    requires p.unvisited == {} && p.node == depot
    ensures IntendedValid(trips, demands, depot, capacity, nodes)
  {
    assert p.idx == |p.route| - 1;
    assert p.route[p.idx..] == [depot];
    FinishedTripsAreValid(trips, p.route, demands, depot, capacity, nodes);
  }

  /** A customer repeated early in a route stays repeated in the whole route. */
  lemma ClashSpreads(route: seq<nat>, j: nat, seen: seq<nat>, depot: nat)
    requires j < |route| && !NoDup(seen + Customers(route[..j + 1], depot))
    ensures !NoDup(seen + Customers(route, depot))
  {
    var front, back := route[..j + 1], route[j + 1..];
    assert route == front + back;
    CustomersConcat(front, back, depot);
    DupSpreadsInside(seen, Customers(front, depot), Customers(back, depot));
  }

  /** What `render_route` draws: the routes joined, each without its final
      depot, closed by one depot visit; just the depot when nothing is
      recorded. */
  function Rendered(routes: seq<seq<nat>>, depot: nat): seq<nat> {
    if Glue(routes) == [] then [depot] else Glue(routes) + [depot]
  }

  /** A single route ending at the depot, joined and closed, is itself. */
  lemma GlueSingle(route: seq<nat>, depot: nat)
    requires |route| > 1 && Last(route) == depot
    ensures Glue([route]) != [] && Glue([route]) + [depot] == route
  {
    GlueAppend([], route);
    assert [route] == [] + [route];
    assert route == DropLast(route) + [depot];
  }

}
