/** The tabular Q-learning agent of q_learning.py: a fixed list of actions,
    epsilon-greedy selection without tie-breaking randomness, and the
    one-step Q-learning update over a table keyed by (state, action) pairs
    in which every read of a missing pair stores 0.0 (a `defaultdict`). */
module MiniAgent {
  import opened QRule

  /** The flat table: a value for every (state, action) pair read or written. */
  type Table<S(==)> = map<(S, nat), real>

  /** The value a read reports: the stored one, or the default 0.0. */
  function Q<S(==)>(t: Table<S>, s: S, a: nat): real {
    if (s, a) in t then t[(s, a)] else 0.0
  }

  /** The effect of one read on the table. */
  function Touch<S(==)>(t: Table<S>, s: S, a: nat): Table<S> {
    if (s, a) in t then t else t[(s, a) := 0.0]
  }

  /** A read adds exactly its own pair, stores 0.0 there when it was
      missing, and leaves every stored value and every reported value as
      it was. */
  lemma TouchKeeps<S>(t: Table<S>, s: S, a: nat)
    ensures Touch(t, s, a).Keys == t.Keys + {(s, a)}
    ensures Touch(t, s, a)[(s, a)] == Q(t, s, a)
    ensures forall k :: k in t ==> Touch(t, s, a)[k] == t[k]
    ensures forall s', a' :: Q(Touch(t, s, a), s', a') == Q(t, s', a')
  {
  }

  /** The effect of reading the values of `moves` in `s`, in order. */
  function TouchAll<S(==)>(t: Table<S>, s: S, moves: seq<nat>): Table<S> {
    if moves == [] then t else Touch(TouchAll(t, s, moves[..|moves| - 1]), s, moves[|moves| - 1])
  }

  /** The pairs those reads name. */
  function Pairs<S(==)>(s: S, moves: seq<nat>): set<(S, nat)> {
    set m | m in moves :: (s, m)
  }

  /** Reading a list of actions adds exactly their pairs and changes no
      stored or reported value. */
  lemma {:induction false} TouchAllKeeps<S>(t: Table<S>, s: S, moves: seq<nat>)
    ensures TouchAll(t, s, moves).Keys == t.Keys + Pairs(s, moves)
    ensures forall k :: k in t ==> TouchAll(t, s, moves)[k] == t[k]
    ensures forall s', a' :: Q(TouchAll(t, s, moves), s', a') == Q(t, s', a')
  {
    if moves != [] {
      var front, m := moves[..|moves| - 1], moves[|moves| - 1];
      TouchAllKeeps(t, s, front);
      TouchKeeps(TouchAll(t, s, front), s, m);
      assert moves == front + [m];
      assert Pairs(s, moves) == Pairs(s, front) + {(s, m)};
    }
  }

  /** The values of `moves` in `s`, as reads report them. */
  function QValues<S(==)>(t: Table<S>, s: S, moves: seq<nat>): (vs: seq<real>)
    ensures |vs| == |moves|
    ensures forall k :: 0 <= k < |moves| ==> vs[k] == Q(t, s, moves[k])
  {
    seq(|moves|, k requires 0 <= k < |moves| => Q(t, s, moves[k]))
  }

  // ---------------------------------------------------------------------------
  // Exploitation
  // ---------------------------------------------------------------------------

  /** The head of the (action, value) list sorted by value, descending. */
  function Greedy<S(==)>(t: Table<S>, s: S, moves: seq<nat>): nat
    requires |moves| > 0
  {
    moves[FirstArgMax(QValues(t, s, moves))]
  }

  /** A stable descending sort puts first the earliest of the best actions:
      the greedy action is one of `moves`, no action is worth more, and every
      action listed before it is worth strictly less. */
  lemma GreedyIsFirstBest<S>(t: Table<S>, s: S, moves: seq<nat>)
    requires |moves| > 0
    ensures Greedy(t, s, moves) in moves
    ensures forall m :: m in moves ==> Q(t, s, m) <= Q(t, s, Greedy(t, s, moves))
    ensures exists i ::
      && 0 <= i < |moves|
      && moves[i] == Greedy(t, s, moves)
      && forall j :: 0 <= j < i ==> Q(t, s, moves[j]) < Q(t, s, moves[i])
  {
    var vs := QValues(t, s, moves);
    var i := FirstArgMax(vs);
    forall m | m in moves ensures Q(t, s, m) <= Q(t, s, moves[i]) {
      var k :| 0 <= k < |moves| && moves[k] == m;
      assert vs[k] <= vs[i];
    }
    forall j | 0 <= j < i ensures Q(t, s, moves[j]) < Q(t, s, moves[i]) {
      assert vs[j] < vs[i];
    }
  }

  /** Conversely, any position holding a best action with only worse
      actions before it is the one the sort puts first. */
  lemma FirstBestIsGreedy<S>(t: Table<S>, s: S, moves: seq<nat>, i: nat)
    requires i < |moves|
    requires forall j :: 0 <= j < |moves| ==> Q(t, s, moves[j]) <= Q(t, s, moves[i])
    requires forall j :: 0 <= j < i ==> Q(t, s, moves[j]) < Q(t, s, moves[i])
    ensures Greedy(t, s, moves) == moves[i]
  {
    FirstArgMaxIsUnique(QValues(t, s, moves), i);
  }

  // ---------------------------------------------------------------------------
  // The update
  // ---------------------------------------------------------------------------

  /** The largest value among `moves` in `s`; Python's `max` raises on an
      empty list. */
  function NextMax<S(==)>(t: Table<S>, s: S, moves: seq<nat>): real
    requires |moves| > 0
  {
    MaxOf(QValues(t, s, moves))
  }

  lemma NextMaxIsMax<S>(t: Table<S>, s: S, moves: seq<nat>)
    requires |moves| > 0
    ensures forall m :: m in moves ==> Q(t, s, m) <= NextMax(t, s, moves)
    ensures exists m :: m in moves && Q(t, s, m) == NextMax(t, s, moves)
  {
    var vs := QValues(t, s, moves);
    forall m | m in moves ensures Q(t, s, m) <= NextMax(t, s, moves) {
      var k :| 0 <= k < |moves| && moves[k] == m;
      assert vs[k] <= MaxOf(vs);
    }
    var i := FirstArgMax(vs);
    assert moves[i] in moves && Q(t, s, moves[i]) == vs[i];
  }

  /** The table after `update(s, a, r, s')` over the action list `moves`:
      the next-state reads, then the rule's value stored at (s, a). */
  function Updated<S(==)>(t: Table<S>, alpha: real, gamma: real, s: S, a: nat, r: real, s': S, moves: seq<nat>): Table<S>
    requires |moves| > 0
  {
    TouchAll(t, s', moves)[(s, a) := QUpdate(Q(t, s, a), alpha, gamma, r, NextMax(t, s', moves))]
  }

  /** `update` gives (s, a) the Q-learning value, changes no other stored or
      reported value, and adds only the pairs it has read or written. */
  lemma UpdatedEffect<S>(t: Table<S>, alpha: real, gamma: real, s: S, a: nat, r: real, s': S, moves: seq<nat>)
    requires |moves| > 0
    ensures Q(Updated(t, alpha, gamma, s, a, r, s', moves), s, a)
         == QUpdate(Q(t, s, a), alpha, gamma, r, NextMax(t, s', moves))
    ensures forall s2: S, a2: nat :: (s2, a2) != (s, a) ==>
      Q(Updated(t, alpha, gamma, s, a, r, s', moves), s2, a2) == Q(t, s2, a2)
    ensures Updated(t, alpha, gamma, s, a, r, s', moves).Keys == t.Keys + Pairs(s', moves) + {(s, a)}
    ensures forall k :: k in t && k != (s, a) ==> Updated(t, alpha, gamma, s, a, r, s', moves)[k] == t[k]
  {
    TouchAllKeeps(t, s', moves);
  }

  /** An estimate already equal to its target is left as it is. */
  lemma UpdatedFixedPoint<S>(t: Table<S>, alpha: real, gamma: real, s: S, a: nat, r: real, s': S, moves: seq<nat>)
    requires |moves| > 0
    requires Q(t, s, a) == Target(r, gamma, NextMax(t, s', moves))
    ensures Q(Updated(t, alpha, gamma, s, a, r, s', moves), s, a) == Q(t, s, a)
  {
    UpdatedEffect(t, alpha, gamma, s, a, r, s', moves);
    UpdateFixedPoint(Q(t, s, a), alpha, gamma, r, NextMax(t, s', moves));
  }

  /** With 0 < alpha <= 1 the new estimate lies between the old one and the
      target. */
  lemma UpdatedBetween<S>(t: Table<S>, alpha: real, gamma: real, s: S, a: nat, r: real, s': S, moves: seq<nat>)
    requires |moves| > 0 && 0.0 < alpha <= 1.0
    ensures var before, after, target := Q(t, s, a), Q(Updated(t, alpha, gamma, s, a, r, s', moves), s, a),
                                     Target(r, gamma, NextMax(t, s', moves));
      (before <= target ==> before <= after <= target) && (target <= before ==> target <= after <= before)
  {
    UpdatedEffect(t, alpha, gamma, s, a, r, s', moves);
    UpdateBetween(Q(t, s, a), alpha, gamma, r, NextMax(t, s', moves));
  }

  class QLearningAgent<S(==)> {
    var qTable: Table<S>
    /** Reassigned by the caller before each choice (main.py:22). */
    var actions: seq<nat>
    const alpha: real
    const gamma: real
    const epsilon: real

    constructor(actions: seq<nat>, alpha: real := 0.1, gamma: real := 0.9, epsilon: real := 0.2)
      ensures qTable == map[] && this.actions == actions
      ensures this.alpha == alpha && this.gamma == gamma && this.epsilon == epsilon
    {
      qTable := map[];
      this.actions := actions;
      this.alpha, this.gamma, this.epsilon := alpha, gamma, epsilon;
    }

    /** `get_q`: the stored value; a missing pair reads as 0.0 and is
        stored with that value. */
    method GetQ(state: S, action: nat) returns (q: real)
      modifies this`qTable
      ensures (state, action) in old(qTable) ==> q == old(qTable)[(state, action)] && qTable == old(qTable)
      ensures (state, action) !in old(qTable) ==> q == 0.0 && qTable == old(qTable)[(state, action) := 0.0]
      ensures q == Q(old(qTable), state, action) && qTable == Touch(old(qTable), state, action)
    {
      if (state, action) !in qTable {
        qTable := qTable[(state, action) := 0.0];
      }
      q := qTable[(state, action)];
    }

    /** The list of values of `actions` in `state`, each read with `get_q`. */
    method ReadValues(state: S) returns (values: seq<real>)
      modifies this`qTable
      ensures values == QValues(old(qTable), state, actions)
      ensures qTable == TouchAll(old(qTable), state, actions)
    {
      values := [];
      var i := 0;
      while i < |actions|
        invariant i <= |actions| && |values| == i
        invariant qTable == TouchAll(old(qTable), state, actions[..i])
        invariant forall k :: 0 <= k < i ==> values[k] == Q(old(qTable), state, actions[k])
      {
        TouchAllKeeps(old(qTable), state, actions[..i]);
        var q := GetQ(state, actions[i]);
        assert actions[..i + 1][..i] == actions[..i];
        values := values + [q];
        i := i + 1;
      }
      assert actions[..i] == actions;
    }

    /** `choose_action`: with `coin` (the draw of `random.random`) below
        epsilon, some action picked at random and the table untouched;
        otherwise the head of the values sorted descending, after reading
        every action's value. Both branches raise on an empty list. */
    method ChooseAction(state: S, coin: real) returns (action: nat)
      requires |actions| > 0
      modifies this`qTable
      ensures action in actions
      ensures coin < epsilon ==> qTable == old(qTable)
      ensures coin >= epsilon ==>
        action == Greedy(old(qTable), state, actions) && qTable == TouchAll(old(qTable), state, actions)
    {
      if coin < epsilon {
        assert actions[0] in actions;
        action :| action in actions;
        return;
      }
      var values := ReadValues(state);
      action := actions[FirstArgMax(values)];
    }

    /** `update`: reads the next-state values of every action and the
        current value (storing 0.0 for any missing), then stores the
        Q-learning update at (state, action). */
    method Update(state: S, action: nat, reward: real, nextState: S)
      requires |actions| > 0
      modifies this`qTable
      ensures qTable == Updated(old(qTable), alpha, gamma, state, action, reward, nextState, actions)
    {
      var nextValues := ReadValues(nextState);
      var maxQNext := MaxOf(nextValues);
      TouchAllKeeps(old(qTable), nextState, actions);
      ghost var read := qTable;
      var currentQ := GetQ(state, action);
      var newQ := QUpdate(currentQ, alpha, gamma, reward, maxQNext);
      qTable := qTable[(state, action) := newQ];
      assert qTable == read[(state, action) := newQ];
    }
  }
}
