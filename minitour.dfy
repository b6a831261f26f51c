/** The episode of the single-load environment of env.py, on the values of
    its fields: the invariant every step keeps and the step itself. */
module MiniTour {
  import opened Routes

  /** What `_get_state` returns: the node, the remaining capacity and the
      remaining customers in increasing order. */
  datatype State = State(node: nat, remainingCapacity: nat, remainingCustomers: seq<nat>)

  /** What the code needs of its inputs: the depot is a node, every customer
      has a demand, and every node indexes a non-negative matrix. */
  ghost predicate InstanceOk(nodes: set<nat>, demands: map<nat, nat>, depot: nat, distances: seq<seq<real>>) {
    depot in nodes && nodes - {depot} <= demands.Keys && DistanceMatrix(distances) &&
    (forall x :: x in nodes ==> x < |distances|)
  }

  /** The values of the environment's fields during an episode: the current
      node, the remaining customers, the remaining capacity, the route
      visited and its total length. */
  datatype Episode = Episode(node: nat, remaining: set<nat>, left: nat, route: seq<nat>, total: real)

  /** The fields right after a reset. */
  function Initial(nodes: set<nat>, depot: nat, capacity: nat): Episode {
    Episode(depot, nodes - {depot}, capacity, [depot], 0.0)
  }

  /** What `_get_state` reports for an episode, the remaining customers
      listed in increasing order (`size` bounds the node numbers). */
  function Observe(e: Episode, size: nat): State {
    State(e.node, e.left, SortedBelow(e.remaining, size))
  }

  /** The route has been closed by the return to the depot. */
  predicate Closed(route: seq<nat>, depot: nat) {
    |route| >= 2 && Last(route) == depot
  }

  /** The route without the closing depot. */
  function Open(route: seq<nat>, depot: nat): seq<nat> {
    if Closed(route, depot) then route[..|route| - 1] else route
  }

  /** The route leaves the depot and visits customers only; it is closed
      exactly when nobody is left after at least one customer; the current
      node is the last customer reached (the depot before any). */
  predicate TourShape(depot: nat, node: nat, remaining: set<nat>, route: seq<nat>) {
    |route| >= 1 && route[0] == depot &&
    (forall k :: 0 < k < |Open(route, depot)| ==> Open(route, depot)[k] != depot) &&
    node == Last(Open(route, depot)) &&
    (Closed(route, depot) ==> remaining == {}) &&
    (remaining == {} && !Closed(route, depot) ==> |route| == 1)
  }

  /** The invariant of the episode, on the values of the fields: the shape
      above; remaining customers and served ones split the customers, none
      served twice; the remaining capacity is what the served demands left
      of the capacity; the total is the length of the route. */
  ghost predicate Tour(nodes: set<nat>, demands: map<nat, nat>, depot: nat, capacity: nat,
                       d: seq<seq<real>>, e: Episode) {
    InstanceOk(nodes, demands, depot, d) &&
    TourShape(depot, e.node, e.remaining, e.route) &&
    Partition(e.route, e.remaining, depot, nodes - {depot}) &&
    DemandsKnown(demands, e.route, depot) &&
    e.left + Demand(demands, e.route, depot) == capacity &&
    OnMatrix(d, e.route) &&
    e.total == WalkDistance(d, e.route)
  }

  lemma InitialTour(nodes: set<nat>, demands: map<nat, nat>, depot: nat, capacity: nat, d: seq<seq<real>>)
    requires InstanceOk(nodes, demands, depot, d)
    ensures Tour(nodes, demands, depot, capacity, d, Initial(nodes, depot, capacity))
  {
    assert [depot][..0] == [];
    assert Customers([depot], depot) == [];
  }

  /** The route after serving `action`, closed when it was the last one. */
  function Advance(route: seq<nat>, action: nat, depot: nat, done: bool): seq<nat> {
    route + [action] + (if done then [depot] else [])
  }

  lemma ShapeStep(depot: nat, node: nat, remaining: set<nat>, route: seq<nat>, action: nat)
    requires TourShape(depot, node, remaining, route)
    requires action in remaining && action != depot
    ensures !Closed(route, depot) && node == Last(route)
    ensures TourShape(depot, action, remaining - {action},
                      Advance(route, action, depot, |remaining - {action}| == 0))
  {
    var r1 := route + [action];
    assert Open(r1, depot) == r1;
    if |remaining - {action}| == 0 {
      var r2 := r1 + [depot];
      assert r2[..|r2| - 1] == r1;
      assert Open(r2, depot) == r1;
      assert r2 == Advance(route, action, depot, true);
    } else {
      assert r1 == Advance(route, action, depot, false);
    }
  }

  lemma PartitionStep(route: seq<nat>, remaining: set<nat>, depot: nat, customers: set<nat>, action: nat, done: bool)
    requires Partition(route, remaining, depot, customers) && action in remaining && action != depot
    ensures Customers(Advance(route, action, depot, done), depot) == Customers(route, depot) + [action]
    ensures Partition(Advance(route, action, depot, done), remaining - {action}, depot, customers)
  {
    PartitionServe(route, remaining, depot, customers, action);
    var r1 := route + [action];
    if done {
      CustomersAppend(r1, depot, depot);
      assert Advance(route, action, depot, done) == r1 + [depot];
    } else {
      assert Advance(route, action, depot, done) == r1;
    }
  }

  lemma DemandStep(demands: map<nat, nat>, route: seq<nat>, depot: nat, action: nat, done: bool)
    requires DemandsKnown(demands, route, depot) && action in demands && action != depot
    ensures DemandsKnown(demands, Advance(route, action, depot, done), depot)
    ensures Demand(demands, Advance(route, action, depot, done), depot) == Demand(demands, route, depot) + demands[action]
  {
    var r1 := route + [action];
    assert DemandsKnown(demands, r1, depot);
    DemandAppend(demands, route, action, depot);
    if done {
      assert DemandsKnown(demands, r1 + [depot], depot);
      DemandAppend(demands, r1, depot, depot);
      assert Advance(route, action, depot, done) == r1 + [depot];
    } else {
      assert Advance(route, action, depot, done) == r1;
    }
  }

  lemma LengthStep(d: seq<seq<real>>, route: seq<nat>, depot: nat, action: nat, done: bool)
    requires DistanceMatrix(d) && OnMatrix(d, route) && |route| > 0 && action < |d| && depot < |d|
    ensures Last(route) < |d| && |d[Last(route)]| == |d| && |d[action]| == |d|
    ensures OnMatrix(d, Advance(route, action, depot, done))
    ensures WalkDistance(d, Advance(route, action, depot, done))
         == WalkDistance(d, route) + d[Last(route)][action] + (if done then d[action][depot] else 0.0)
  {
    var r1 := route + [action];
    assert OnMatrix(d, r1);
    WalkDistanceAppend(d, route, action);
    if done {
      assert OnMatrix(d, r1 + [depot]);
      WalkDistanceAppend(d, r1, depot);
      assert Advance(route, action, depot, done) == r1 + [depot];
    } else {
      assert Advance(route, action, depot, done) == r1;
    }
  }

  /** A move `step` accepts: a remaining customer whose demand fits. */
  predicate Legal(demands: map<nat, nat>, e: Episode, action: nat) {
    action in e.remaining && action in demands && demands[action] <= e.left
  }

  /** Serving `action` ends the episode when it was the last customer. */
  predicate Finishes(e: Episode, action: nat) {
    |e.remaining - {action}| == 0
  }

  /** The fields after `step` serves a legal `action`: the leg to it, and
      when it was the last customer the leg back to the depot, are added. */
  function Next(demands: map<nat, nat>, depot: nat, d: seq<seq<real>>, e: Episode, action: nat): Episode
    requires Legal(demands, e, action)
    requires e.node < |d| && action < |d[e.node]| && action < |d| && depot < |d[action]|
  {
    var done := Finishes(e, action);
    Episode(action, e.remaining - {action}, e.left - demands[action],
            Advance(e.route, action, depot, done),
            e.total + d[e.node][action] + (if done then d[action][depot] else 0.0))
  }

  /** The bounds `Next` needs follow from the invariant. */
  lemma LegalOnMatrix(nodes: set<nat>, demands: map<nat, nat>, depot: nat, capacity: nat,
                      d: seq<seq<real>>, e: Episode, action: nat)
    requires Tour(nodes, demands, depot, capacity, d, e) && Legal(demands, e, action)
    ensures !Closed(e.route, depot) && e.node == Last(e.route) && action != depot
    ensures e.node < |d| && action < |d| && depot < |d| && |d[e.node]| == |d| && |d[action]| == |d|
  {
    ShapeStep(depot, e.node, e.remaining, e.route, action);
  }

  /** Serving a customer that is left and fits keeps the invariant; the
      route is closed, with the return leg, exactly when it was the last. */
  lemma TourStep(nodes: set<nat>, demands: map<nat, nat>, depot: nat, capacity: nat,
                 d: seq<seq<real>>, e: Episode, action: nat)
    requires Tour(nodes, demands, depot, capacity, d, e) && Legal(demands, e, action)
    ensures e.node < |d| && action < |d[e.node]| && action < |d| && depot < |d[action]|
    ensures Tour(nodes, demands, depot, capacity, d, Next(demands, depot, d, e, action))
  {
    LegalOnMatrix(nodes, demands, depot, capacity, d, e, action);
    NextShape(nodes, demands, depot, capacity, d, e, action);
    NextPartition(nodes, demands, depot, capacity, d, e, action);
    NextDemand(nodes, demands, depot, capacity, d, e, action);
    NextLength(nodes, demands, depot, capacity, d, e, action);
  }

  lemma NextShape(nodes: set<nat>, demands: map<nat, nat>, depot: nat, capacity: nat,
                  d: seq<seq<real>>, e: Episode, action: nat)
    requires Tour(nodes, demands, depot, capacity, d, e) && Legal(demands, e, action)
    ensures e.node < |d| && action < |d[e.node]| && action < |d| && depot < |d[action]|
    ensures var n := Next(demands, depot, d, e, action); TourShape(depot, n.node, n.remaining, n.route)
  {
    LegalOnMatrix(nodes, demands, depot, capacity, d, e, action);
    ShapeStep(depot, e.node, e.remaining, e.route, action);
  }

  lemma NextPartition(nodes: set<nat>, demands: map<nat, nat>, depot: nat, capacity: nat,
                      d: seq<seq<real>>, e: Episode, action: nat)
    requires Tour(nodes, demands, depot, capacity, d, e) && Legal(demands, e, action)
    ensures e.node < |d| && action < |d[e.node]| && action < |d| && depot < |d[action]|
    ensures var n := Next(demands, depot, d, e, action); Partition(n.route, n.remaining, depot, nodes - {depot})
  {
    LegalOnMatrix(nodes, demands, depot, capacity, d, e, action);
    PartitionStep(e.route, e.remaining, depot, nodes - {depot}, action, Finishes(e, action));
  }

  lemma NextDemand(nodes: set<nat>, demands: map<nat, nat>, depot: nat, capacity: nat,
                   d: seq<seq<real>>, e: Episode, action: nat)
    requires Tour(nodes, demands, depot, capacity, d, e) && Legal(demands, e, action)
    ensures e.node < |d| && action < |d[e.node]| && action < |d| && depot < |d[action]|
    ensures var n := Next(demands, depot, d, e, action);
      DemandsKnown(demands, n.route, depot) && n.left + Demand(demands, n.route, depot) == capacity
  {
    LegalOnMatrix(nodes, demands, depot, capacity, d, e, action);
    DemandStep(demands, e.route, depot, action, Finishes(e, action));
  }

  lemma NextLength(nodes: set<nat>, demands: map<nat, nat>, depot: nat, capacity: nat,
                   d: seq<seq<real>>, e: Episode, action: nat)
    requires Tour(nodes, demands, depot, capacity, d, e) && Legal(demands, e, action)
    ensures e.node < |d| && action < |d[e.node]| && action < |d| && depot < |d[action]|
    ensures var n := Next(demands, depot, d, e, action); OnMatrix(d, n.route) && n.total == WalkDistance(d, n.route)
  {
    LegalOnMatrix(nodes, demands, depot, capacity, d, e, action);
    LengthStep(d, e.route, depot, action, Finishes(e, action));
  }

  /** A closed route is one trip from the depot back to it that serves
      every customer exactly once within the capacity, and its length is
      the reported total. */
  lemma ClosedTourServesAll(nodes: set<nat>, demands: map<nat, nat>, depot: nat, capacity: nat,
                            d: seq<seq<real>>, e: Episode)
    requires Tour(nodes, demands, depot, capacity, d, e) && Closed(e.route, depot)
    ensures e.route[0] == depot && Last(e.route) == depot
    ensures forall k :: 0 < k < |e.route| - 1 ==> e.route[k] != depot
    ensures Elems(Customers(e.route, depot)) == nodes - {depot} && NoDup(Customers(e.route, depot))
    ensures Demand(demands, e.route, depot) <= capacity
    ensures e.total == WalkDistance(d, e.route)
  {
    forall k | 0 < k < |e.route| - 1 ensures e.route[k] != depot {
      assert Open(e.route, depot)[k] == e.route[k];
    }
  }

}
