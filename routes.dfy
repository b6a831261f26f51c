/** Sequence, walk and demand helpers shared by both environments.
    Node identifiers are natural numbers that index a square distance matrix;
    the matrix stands in for the Euclidean distances of the instance. */
module Routes {

  datatype Option<+T> = None | Some(value: T)

  /** `infinity` is the initial recorded best distance. */
  datatype Extended = Finite(value: real) | Infinity

  /** `x < e` on the extended reals. */
  predicate Below(x: real, e: Extended) {
    e.Infinity? || x < e.value
  }

  function Last<T>(s: seq<T>): T
    requires |s| > 0
  {
    s[|s| - 1]
  }

  /** The set of the elements of a sequence. */
  function Elems<T>(s: seq<T>): set<T> {
    set x | x in s
  }

  predicate NoDup<T(==)>(s: seq<T>) {
    forall i, j :: 0 <= i < j < |s| ==> s[i] != s[j]
  }

  predicate StrictlyIncreasing(s: seq<nat>) {
    forall i, j :: 0 <= i < j < |s| ==> s[i] < s[j]
  }

  lemma ElemsAppend<T>(s: seq<T>, x: T)
    ensures Elems(s + [x]) == Elems(s) + {x}
  {
    forall y ensures y in Elems(s + [x]) <==> y in Elems(s) || y == x {
      if y in Elems(s + [x]) && y != x {
        var k :| 0 <= k < |s + [x]| && (s + [x])[k] == y;
        assert k < |s| && s[k] == y;
      }
      if y in Elems(s) {
        var k :| 0 <= k < |s| && s[k] == y;
        assert (s + [x])[k] == y;
      }
    }
  }

  lemma NoDupAppend<T>(s: seq<T>, x: T)
    ensures NoDup(s + [x]) <==> NoDup(s) && x !in s
  {
    var t := s + [x];
    if NoDup(t) {
      forall i, j | 0 <= i < j < |s| ensures s[i] != s[j] {
        assert t[i] == s[i] && t[j] == s[j];
      }
      forall k | 0 <= k < |s| ensures s[k] != x {
        assert t[k] == s[k] && t[|s|] == x;
      }
    }
  }

  lemma DupSpreads<T>(a: seq<T>, b: seq<T>)
    requires !NoDup(a)
    ensures !NoDup(a + b)
  {
    var i, j :| 0 <= i < j < |a| && a[i] == a[j];
    assert (a + b)[i] == a[i] && (a + b)[j] == a[j];
  }

  /** A repetition in `a + b` survives appending `c` after `b`. */
  lemma DupSpreadsInside<T>(a: seq<T>, b: seq<T>, c: seq<T>)
    requires !NoDup(a + b)
    ensures !NoDup(a + (b + c))
  {
    assert a + (b + c) == (a + b) + c;
    DupSpreads(a + b, c);
  }

  lemma NoDupPrefix<T>(a: seq<T>, b: seq<T>)
    requires NoDup(a + b)
    ensures NoDup(a)
  {
    forall i, j | 0 <= i < j < |a| ensures a[i] != a[j] {
      assert (a + b)[i] == a[i] && (a + b)[j] == a[j];
    }
  }

  // ---------------------------------------------------------------------------
  // Sorted enumeration of a set (Python's `sorted(set)` for node identifiers)
  // ---------------------------------------------------------------------------

  /** The elements of `s` below `n`, in increasing order. With every element of
      `s` below `n`, this is `sorted(s)`: see SortedIsUnique. */
  function SortedBelow(s: set<nat>, n: nat): (r: seq<nat>)
    ensures StrictlyIncreasing(r)
    ensures forall x :: x in r <==> x in s && x < n
    ensures forall k :: 0 <= k < |r| ==> r[k] < n
  {
    if n == 0 then []
    else
      var prefix := SortedBelow(s, n - 1);
      if n - 1 in s then prefix + [n - 1] else prefix
  }

  lemma ElemsEmpty<T>(s: seq<T>)
    ensures Elems(s) == {} ==> s == []
  {
    if s != [] {
      assert s[0] in Elems(s);
    }
  }

  /** No element of a strictly increasing sequence exceeds its last one. */
  lemma IncreasingLastIsMax(a: seq<nat>, x: nat)
    requires StrictlyIncreasing(a) && x in a
    ensures x <= Last(a)
  {
    var k :| 0 <= k < |a| && a[k] == x;
    assert k == |a| - 1 || a[k] < Last(a);
  }

  lemma IncreasingSplit(a: seq<nat>)
    requires StrictlyIncreasing(a) && |a| > 0
    ensures StrictlyIncreasing(a[..|a| - 1])
    ensures Last(a) !in Elems(a[..|a| - 1])
    ensures Elems(a) == Elems(a[..|a| - 1]) + {Last(a)}
  {
    var front := a[..|a| - 1];
    assert a == front + [Last(a)];
  }

  /** A strictly increasing sequence is determined by its set of elements,
      so any sorting of a set gives the same sequence. */
  lemma {:induction false} SortedIsUnique(a: seq<nat>, b: seq<nat>)
    requires StrictlyIncreasing(a) && StrictlyIncreasing(b)
    requires Elems(a) == Elems(b)
    ensures a == b
  {
    ElemsEmpty(a);
    ElemsEmpty(b);
    if a != [] && b != [] {
      var a', b' := a[..|a| - 1], b[..|b| - 1];
      var ma, mb := Last(a), Last(b);
      assert ma in Elems(b) && mb in Elems(a);
      IncreasingLastIsMax(b, ma);
      IncreasingLastIsMax(a, mb);
      IncreasingSplit(a);
      IncreasingSplit(b);
      assert Elems(a') == Elems(a) - {ma};
      assert Elems(b') == Elems(b) - {mb};
      SortedIsUnique(a', b');
      assert a == a' + [ma] && b == b' + [mb];
    }
  }

  // ---------------------------------------------------------------------------
  // Distance matrix and walk lengths
  // ---------------------------------------------------------------------------

  /** A square matrix of non-negative reals. */
  ghost predicate DistanceMatrix(d: seq<seq<real>>) {
    (forall i :: 0 <= i < |d| ==> |d[i]| == |d|) &&
    (forall i, j :: 0 <= i < |d| && 0 <= j < |d[i]| ==> d[i][j] >= 0.0)
  }

  /** Every node of `walk` indexes the matrix. */
  predicate OnMatrix(d: seq<seq<real>>, walk: seq<nat>) {
    forall k :: 0 <= k < |walk| ==> walk[k] < |d| && |d[walk[k]]| == |d|
  }

  /** Sum of the legs between consecutive nodes of `walk`, added left to right
      (0 for a walk of fewer than two nodes). */
  function WalkDistance(d: seq<seq<real>>, walk: seq<nat>): real
    requires OnMatrix(d, walk)
  {
    if |walk| < 2 then 0.0
    else WalkDistance(d, walk[..|walk| - 1]) + d[walk[|walk| - 2]][walk[|walk| - 1]]
  }

  lemma WalkDistanceAppend(d: seq<seq<real>>, walk: seq<nat>, x: nat)
    requires |walk| > 0 && OnMatrix(d, walk + [x])
    ensures OnMatrix(d, walk)
    ensures Last(walk) < |d| && x < |d| && |d[Last(walk)]| == |d|
    ensures WalkDistance(d, walk + [x]) == WalkDistance(d, walk) + d[Last(walk)][x]
  {
    assert (walk + [x])[..|walk|] == walk;
    assert (walk + [x])[|walk| - 1] == Last(walk) && (walk + [x])[|walk|] == x;
  }

  /** Walk lengths over a non-negative matrix are non-negative; a walk of at
      least two nodes is at least as long as its last leg. */
  lemma {:induction false} WalkDistanceLowerBound(d: seq<seq<real>>, walk: seq<nat>)
    requires DistanceMatrix(d) && OnMatrix(d, walk)
    ensures WalkDistance(d, walk) >= 0.0
    ensures |walk| >= 2 ==> WalkDistance(d, walk) >= d[walk[|walk| - 2]][Last(walk)]
  {
    if |walk| >= 2 {
      WalkDistanceLowerBound(d, walk[..|walk| - 1]);
    }
  }

  // ---------------------------------------------------------------------------
  // Customers and demands of a route
  // ---------------------------------------------------------------------------

  /** The non-depot entries of `route`, in order. */
  function Customers(route: seq<nat>, depot: nat): seq<nat> {
    if route == [] then []
    else Customers(route[..|route| - 1], depot) + (if Last(route) == depot then [] else [Last(route)])
  }

  lemma CustomersAppend(route: seq<nat>, x: nat, depot: nat)
    ensures Customers(route + [x], depot) == Customers(route, depot) + (if x == depot then [] else [x])
  {
    assert (route + [x])[..|route|] == route;
  }

  /** `Customers` never holds the depot and holds exactly the non-depot
      entries of the route. */
  lemma {:induction false} CustomersMembers(route: seq<nat>, depot: nat)
    ensures forall x :: x in Customers(route, depot) <==> x in route && x != depot
  {
    if route != [] {
      var front := route[..|route| - 1];
      CustomersMembers(front, depot);
      assert route == front + [Last(route)];
      forall x ensures x in route <==> x in front || x == Last(route) { }
    }
  }

  lemma {:induction false} CustomersConcat(a: seq<nat>, b: seq<nat>, depot: nat)
    ensures Customers(a + b, depot) == Customers(a, depot) + Customers(b, depot)
  {
    if b == [] {
      assert a + b == a;
    } else {
      var b' := b[..|b| - 1];
      assert a + b == (a + b') + [Last(b)];
      assert b == b' + [Last(b)];
      CustomersAppend(a + b', Last(b), depot);
      CustomersAppend(b', Last(b), depot);
      CustomersConcat(a, b', depot);
    }
  }

  /** The unvisited customers and the customers of the route split the
      customers between them, and no customer is served twice. */
  predicate Partition(route: seq<nat>, unvisited: set<nat>, depot: nat, customers: set<nat>) {
    unvisited !! Elems(Customers(route, depot)) &&
    unvisited + Elems(Customers(route, depot)) == customers &&
    NoDup(Customers(route, depot))
  }

  /** Serving an unvisited customer moves it from the unvisited ones to the
      end of the route's customers and keeps the split. */
  lemma PartitionServe(route: seq<nat>, unvisited: set<nat>, depot: nat, customers: set<nat>, x: nat)
    requires Partition(route, unvisited, depot, customers) && x in unvisited && x != depot
    ensures Customers(route + [x], depot) == Customers(route, depot) + [x]
    ensures Partition(route + [x], unvisited - {x}, depot, customers)
  {
    var c := Customers(route, depot);
    CustomersAppend(route, x, depot);
    ElemsAppend(c, x);
    NoDupAppend(c, x);
    assert x !in Elems(c);
  }

  /** Every customer of `route` has a demand. */
  predicate DemandsKnown(demands: map<nat, nat>, route: seq<nat>, depot: nat) {
    forall k :: 0 <= k < |route| && route[k] != depot ==> route[k] in demands
  }

  /** Sum of the demands of the non-depot entries of `route` (each occurrence
      counted, as Python's generator sum does). */
  function Demand(demands: map<nat, nat>, route: seq<nat>, depot: nat): nat
    requires DemandsKnown(demands, route, depot)
  {
    if route == [] then 0
    else
      Demand(demands, route[..|route| - 1], depot)
        + (if Last(route) == depot then 0 else demands[Last(route)])
  }

  lemma DemandAppend(demands: map<nat, nat>, route: seq<nat>, x: nat, depot: nat)
    requires DemandsKnown(demands, route + [x], depot)
    ensures DemandsKnown(demands, route, depot)
    ensures x != depot ==> x in demands
    ensures Demand(demands, route + [x], depot)
         == Demand(demands, route, depot) + (if x == depot then 0 else demands[x])
  {
    assert (route + [x])[..|route|] == route;
    assert (route + [x])[|route|] == x;
  }

  // ---------------------------------------------------------------------------
  // Lists of routes
  // ---------------------------------------------------------------------------

  /** A route without its final node (Python's `route[:-1]`). */
  function DropLast(r: seq<nat>): seq<nat> {
    if r == [] then [] else r[..|r| - 1]
  }

  /** The routes joined end to end, each non-empty one without its final
      node: the loop of `render_route`. */
  function Glue(routes: seq<seq<nat>>): seq<nat> {
    if routes == [] then []
    else Glue(routes[..|routes| - 1]) + DropLast(Last(routes))
  }

  lemma GlueAppend(routes: seq<seq<nat>>, r: seq<nat>)
    ensures Glue(routes + [r]) == Glue(routes) + DropLast(r)
  {
    assert (routes + [r])[..|routes|] == routes;
  }

  lemma {:induction false} GlueOnMatrix(d: seq<seq<real>>, routes: seq<seq<nat>>)
    requires forall i :: 0 <= i < |routes| ==> OnMatrix(d, routes[i])
    ensures OnMatrix(d, Glue(routes))
  {
    if routes != [] {
      GlueOnMatrix(d, routes[..|routes| - 1]);
    }
  }

  /** All the routes joined end to end. */
  function Concat(routes: seq<seq<nat>>): seq<nat> {
    if routes == [] then []
    else Concat(routes[..|routes| - 1]) + Last(routes)
  }

  lemma ConcatAppend(routes: seq<seq<nat>>, r: seq<nat>)
    ensures Concat(routes + [r]) == Concat(routes) + r
  {
    assert (routes + [r])[..|routes|] == routes;
  }

  lemma ConcatStep(routes: seq<seq<nat>>, i: nat)
    requires i < |routes|
    ensures Concat(routes[..i + 1]) == Concat(routes[..i]) + routes[i]
  {
    assert routes[..i + 1] == routes[..i] + [routes[i]];
    ConcatAppend(routes[..i], routes[i]);
  }

  /** The routes before index `n` give a prefix of all the routes joined. */
  lemma {:induction false} ConcatPrefix(routes: seq<seq<nat>>, n: nat)
    requires n <= |routes|
    ensures Concat(routes[..n]) <= Concat(routes)
  {
    if n < |routes| {
      var front := routes[..|routes| - 1];
      assert front[..n] == routes[..n];
      ConcatPrefix(front, n);
    } else {
      assert routes[..n] == routes;
    }
  }

  /** A repeated customer in the routes before index `n` is a repeated
      customer of all the routes. */
  lemma CustomersOfPrefix(routes: seq<seq<nat>>, n: nat, depot: nat)
    requires n <= |routes| && NoDup(Customers(Concat(routes), depot))
    ensures NoDup(Customers(Concat(routes[..n]), depot))
  {
    var p, all := Concat(routes[..n]), Concat(routes);
    ConcatPrefix(routes, n);
    assert all == p + all[|p|..];
    CustomersConcat(p, all[|p|..], depot);
    NoDupPrefix(Customers(p, depot), Customers(all[|p|..], depot));
  }

  /** When every route ends at the depot, dropping those final depots does not
      change which customers the routes serve, in which order. */
  lemma {:induction false} CustomersOfGlue(routes: seq<seq<nat>>, depot: nat)
    requires forall i :: 0 <= i < |routes| ==> |routes[i]| > 0 && Last(routes[i]) == depot
    ensures Customers(Concat(routes), depot) == Customers(Glue(routes), depot)
  {
    if routes != [] {
      var front, r := routes[..|routes| - 1], Last(routes);
      assert routes == front + [r];
      CustomersOfGlue(front, depot);
      ConcatAppend(front, r);
      GlueAppend(front, r);
      assert r == DropLast(r) + [depot];
      CustomersConcat(Concat(front), r, depot);
      CustomersConcat(Glue(front), DropLast(r), depot);
      CustomersAppend(DropLast(r), depot, depot);
    }
  }
}
