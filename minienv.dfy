/** The single-load environment of env.py: the vehicle leaves the depot once,
    serves customers while its remaining capacity allows, and goes back to
    the depot right after the last customer. Capacity is never restored.
    Node coordinates are replaced by a matrix of leg lengths. */
module MiniEnv {
  import opened Routes
  import opened MiniTour

  class CvrpEnv {
    const nodes: set<nat>
    const demands: map<nat, nat>
    const depot: nat
    const capacity: nat
    const distances: seq<seq<real>>
    const customers: set<nat>
    var remainingCustomers: set<nat>
    var currentNode: nat
    var remainingCapacity: nat
    var totalDistance: real
    var visitedRoute: seq<nat>

    /** The fields of the current episode as one value. */
    function Current(): Episode
      reads this
    {
      Episode(currentNode, remainingCustomers, remainingCapacity, visitedRoute, totalDistance)
    }

    ghost predicate Instance() {
      InstanceOk(nodes, demands, depot, distances) && customers == nodes - {depot}
    }

    ghost predicate Valid()
      reads this
    {
      Instance() && Tour(nodes, demands, depot, capacity, distances, Current())
    }

    constructor(nodes: set<nat>, demands: map<nat, nat>, depot: nat, capacity: nat, distances: seq<seq<real>>)
      requires InstanceOk(nodes, demands, depot, distances)
      ensures Valid()
      ensures this.nodes == nodes && this.demands == demands && this.depot == depot
      ensures this.capacity == capacity && this.distances == distances
      ensures Current() == Initial(nodes, depot, capacity)
    {
      this.nodes, this.demands, this.depot := nodes, demands, depot;
      this.capacity, this.distances := capacity, distances;
      customers := nodes - {depot};
      new;
      var _ := Reset();
    }

    /** `reset`: every field back to the start of an episode. */
    method Reset() returns (state: State)
      requires Instance()
      modifies this
      ensures Valid() && Current() == Initial(nodes, depot, capacity)
      ensures state == GetState() && state == Observe(Initial(nodes, depot, capacity), |distances|)
    {
      remainingCustomers := customers;
      currentNode := depot;
      remainingCapacity := capacity;
      totalDistance := 0.0;
      visitedRoute := [depot];
      InitialTour(nodes, demands, depot, capacity, distances);
      state := GetState();
    }

    /** `_get_state`; in a valid environment the listed customers are those
        remaining, in increasing order, which is `sorted` of them. */
    function GetState(): (s: State)
      reads this
      ensures s.node == currentNode && s.remainingCapacity == remainingCapacity
      ensures StrictlyIncreasing(s.remainingCustomers)
      ensures Valid() ==> forall x :: x in s.remainingCustomers <==> x in remainingCustomers
    {
      State(currentNode, remainingCapacity, SortedBelow(remainingCustomers, |distances|))
    }

    /** `step`: a move that is not a remaining customer, or whose demand
        does not fit, ends the episode with -100 and changes nothing;
        otherwise the customer is served as `Next` says, the reward is minus
        the leg to it (the return leg after the last customer is counted in
        the total only), and the episode ends when no customer is left. */
    method Step(action: nat) returns (state: State, reward: real, done: bool)
      requires Valid()
      modifies this
      ensures Valid() && state == GetState()
      ensures !old(Legal(demands, Current(), action)) ==> reward == -100.0 && done && unchanged(this)
      ensures old(Legal(demands, Current(), action)) ==>
        old(currentNode) < |distances| && action < |distances[old(currentNode)]| &&
        reward == -distances[old(currentNode)][action] &&
        done == (remainingCustomers == {}) &&
        Current() == old(Next(demands, depot, distances, Current(), action))
    {
      if action !in remainingCustomers {
        return GetState(), -100.0, true;
      }
      var demand := demands[action];
      if demand > remainingCapacity {
        return GetState(), -100.0, true;
      }
      reward, done := Serve(action, demand);
      state := GetState();
    }

    /** Lines 32-42 of `step` for a legal move: the new values are those of
        `Next`, computed from the old ones and stored together. The one field
        the source reads after writing it, `current_node` for the return leg,
        is `action` at that point, which is what `Next` uses. */
    method Serve(action: nat, demand: nat) returns (reward: real, done: bool)
      requires Valid() && Legal(demands, Current(), action) && demand == demands[action]
      modifies this
      ensures Valid()
      ensures old(currentNode) < |distances| && action < |distances[old(currentNode)]|
      ensures reward == -distances[old(currentNode)][action] && done == (remainingCustomers == {})
      ensures Current() == old(Next(demands, depot, distances, Current(), action))
    {
      TourStep(nodes, demands, depot, capacity, distances, Current(), action);
      var next := Next(demands, depot, distances, Current(), action);
      reward := -distances[currentNode][action];
      done := |next.remaining| == 0;
      Save(next);
    }

    /** Stores an episode value in the fields. */
    method Save(e: Episode)
      modifies this
      ensures Current() == e
    {
      currentNode, remainingCustomers, remainingCapacity, visitedRoute, totalDistance :=
        e.node, e.remaining, e.left, e.route, e.total;
    }

    /** `render_route`: the route and its length. */
    function RenderRoute(): (r: (seq<nat>, real))
      reads this
      ensures r.0 == visitedRoute
      ensures Valid() ==> OnMatrix(distances, r.0) && r.1 == WalkDistance(distances, r.0)
    {
      (visitedRoute, totalDistance)
    }
  }
}
