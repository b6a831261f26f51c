/** The tabular Q-learning agent of src/rl/q_learning.py: epsilon-greedy
    selection with a penalty on an action repeated too often, the one-step
    Q-learning update and epsilon decay, over a sparse table in which reading
    a missing entry stores 0.0. The agent does not look inside states. */
module RlAgent {
  import opened Routes
  import opened QRule

  /** The sparse table: for each state seen, the values of the actions seen. */
  type Table<S(==)> = map<S, map<nat, real>>

  /** The table holds an entry for `a` in `s`. */
  predicate Has<S(==)>(t: Table<S>, s: S, a: nat) {
    s in t && a in t[s]
  }

  /** The value `get_q_value` reports: the stored one, or 0.0. */
  function Q<S(==)>(t: Table<S>, s: S, a: nat): real {
    if Has(t, s, a) then t[s][a] else 0.0
  }

  /** `q_table[s][a] = v`, creating the inner dictionary when missing. */
  function Store<S(==)>(t: Table<S>, s: S, a: nat, v: real): Table<S> {
    t[s := (if s in t then t[s] else map[])[a := v]]
  }

  /** Storing changes the value of one entry and removes none. */
  lemma StoreEffect<S>(t: Table<S>, s: S, a: nat, v: real, s': S, a': nat)
    ensures Has(Store(t, s, a, v), s', a') <==> Has(t, s', a') || (s' == s && a' == a)
    ensures Q(Store(t, s, a, v), s', a') == if s' == s && a' == a then v else Q(t, s', a')
    ensures t.Keys <= Store(t, s, a, v).Keys
  {
  }

  /** The effect of `get_q_value` on the table. */
  function Touch<S(==)>(t: Table<S>, s: S, a: nat): Table<S> {
    if Has(t, s, a) then t else Store(t, s, a, 0.0)
  }

  /** Reading leaves every value as it was, leaves a present entry's table
      untouched, and afterwards the entry is present. */
  lemma TouchKeeps<S>(t: Table<S>, s: S, a: nat)
    ensures Has(Touch(t, s, a), s, a)
    ensures Has(t, s, a) ==> Touch(t, s, a) == t
    ensures forall s', a' :: Q(Touch(t, s, a), s', a') == Q(t, s', a')
    ensures forall s', a' :: Has(t, s', a') ==> Has(Touch(t, s, a), s', a')
    ensures t.Keys <= Touch(t, s, a).Keys
  {
    forall s', a' ensures Q(Touch(t, s, a), s', a') == Q(t, s', a') && (Has(t, s', a') ==> Has(Touch(t, s, a), s', a')) {
      StoreEffect(t, s, a, 0.0, s', a');
    }
  }

  /** Reading the values of `moves` in `s`, in order. */
  function TouchAll<S(==)>(t: Table<S>, s: S, moves: seq<nat>): Table<S> {
    if moves == [] then t else Touch(TouchAll(t, s, moves[..|moves| - 1]), s, Last(moves))
  }

  lemma {:induction false} TouchAllKeeps<S>(t: Table<S>, s: S, moves: seq<nat>)
    ensures forall s', a' :: Q(TouchAll(t, s, moves), s', a') == Q(t, s', a')
    ensures forall s', a' :: Has(t, s', a') ==> Has(TouchAll(t, s, moves), s', a')
    ensures forall k :: 0 <= k < |moves| ==> Has(TouchAll(t, s, moves), s, moves[k])
    ensures t.Keys <= TouchAll(t, s, moves).Keys
  {
    if moves != [] {
      var front := moves[..|moves| - 1];
      TouchAllKeeps(t, s, front);
      TouchKeeps(TouchAll(t, s, front), s, Last(moves));
      forall k | 0 <= k < |moves| ensures Has(TouchAll(t, s, moves), s, moves[k]) {
        if k < |front| {
          assert front[k] == moves[k];
        }
      }
    }
  }

  /** The values of `moves` in `s`, as the table reports them. */
  function QValues<S(==)>(t: Table<S>, s: S, moves: seq<nat>): (vs: seq<real>)
    ensures |vs| == |moves|
  {
    seq(|moves|, k requires 0 <= k < |moves| => Q(t, s, moves[k]))
  }

  // ---------------------------------------------------------------------------
  // Greedy choice with the anti-repeat penalty
  // ---------------------------------------------------------------------------

  /** The value of a move after the penalty: 1000 less for the last action
      once it has been repeated `limit` times. */
  function Score<S(==)>(t: Table<S>, s: S, m: nat, last: Option<nat>, count: nat, limit: nat): real {
    Q(t, s, m) - (if last == Some(m) && count >= limit then 1000.0 else 0.0)
  }

  function Scores<S(==)>(t: Table<S>, s: S, moves: seq<nat>, last: Option<nat>, count: nat, limit: nat): (vs: seq<real>)
    ensures |vs| == |moves|
  {
    seq(|moves|, k requires 0 <= k < |moves| => Score(t, s, moves[k], last, count, limit))
  }

  /** The action chosen when exploiting: the first move of best score. */
  function Greedy<S(==)>(t: Table<S>, s: S, moves: seq<nat>, last: Option<nat>, count: nat, limit: nat): nat
    requires |moves| > 0
  {
    moves[FirstArgMax(Scores(t, s, moves, last, count, limit))]
  }

  /** The greedy action is a move, no move scores higher, and no move before
      its first occurrence scores as high: ties go to the earliest move. */
  lemma GreedyIsFirstBest<S>(t: Table<S>, s: S, moves: seq<nat>, last: Option<nat>, count: nat, limit: nat)
    requires |moves| > 0
    ensures Greedy(t, s, moves, last, count, limit) in moves
    ensures forall m :: m in moves ==>
      Score(t, s, m, last, count, limit) <= Score(t, s, Greedy(t, s, moves, last, count, limit), last, count, limit)
    ensures exists i ::
      && 0 <= i < |moves|
      && moves[i] == Greedy(t, s, moves, last, count, limit)
      && forall j :: 0 <= j < i ==> Score(t, s, moves[j], last, count, limit) < Score(t, s, moves[i], last, count, limit)
  {
    var vs := Scores(t, s, moves, last, count, limit);
    var i := FirstArgMax(vs);
    forall m | m in moves
      ensures Score(t, s, m, last, count, limit) <= Score(t, s, moves[i], last, count, limit)
    {
      var k :| 0 <= k < |moves| && moves[k] == m;
      assert vs[k] <= vs[i];
    }
    forall j | 0 <= j < i ensures Score(t, s, moves[j], last, count, limit) < Score(t, s, moves[i], last, count, limit) {
      assert vs[j] < vs[i];
    }
  }

  /** Below the repeat limit, or when the last action is not a candidate,
      the choice is the plain first argmax of the Q-values. */
  lemma NoPenaltyIsPlainGreedy<S>(t: Table<S>, s: S, moves: seq<nat>, last: Option<nat>, count: nat, limit: nat)
    requires |moves| > 0
    requires count < limit || last.None? || last.value !in moves
    ensures Greedy(t, s, moves, last, count, limit) == moves[FirstArgMax(QValues(t, s, moves))]
  {
    assert Scores(t, s, moves, last, count, limit) == QValues(t, s, moves);
  }

  /** Once the last action has been repeated `limit` times it is not chosen
      again while some other candidate is less than 1000 below it. */
  lemma RepeatAvoided<S>(t: Table<S>, s: S, moves: seq<nat>, x: nat, count: nat, limit: nat, m: nat)
    requires count >= limit && m in moves && m != x && Q(t, s, m) > Q(t, s, x) - 1000.0
    ensures Greedy(t, s, moves, Some(x), count, limit) != x
  {
    GreedyIsFirstBest(t, s, moves, Some(x), count, limit);
  }

  /** The consecutive-action counter after choosing `a`. */
  function NextCount(last: Option<nat>, count: nat, a: nat): nat {
    if last != Some(a) then 0 else count + 1
  }

  /** The bootstrap value of `update`: 0 without next moves, otherwise the
      largest Q-value among them. */
  function NextMax<S(==)>(t: Table<S>, s: S, moves: seq<nat>): real {
    if moves == [] then 0.0 else MaxOf(QValues(t, s, moves))
  }

  lemma NextMaxIsMax<S>(t: Table<S>, s: S, moves: seq<nat>)
    ensures moves == [] ==> NextMax(t, s, moves) == 0.0
    ensures forall m :: m in moves ==> Q(t, s, m) <= NextMax(t, s, moves)
    ensures moves != [] ==> exists m :: m in moves && Q(t, s, m) == NextMax(t, s, moves)
  {
    if moves != [] {
      var vs := QValues(t, s, moves);
      forall m | m in moves ensures Q(t, s, m) <= NextMax(t, s, moves) {
        var k :| 0 <= k < |moves| && moves[k] == m;
        assert vs[k] == Q(t, s, m);
      }
      var i := FirstArgMax(vs);
      assert moves[i] in moves && Q(t, s, moves[i]) == vs[i];
    }
  }

  /** The table after `update(s, a, r, s', moves)`. */
  function Updated<S(==)>(t: Table<S>, lr: real, gamma: real, s: S, a: nat, r: real, s': S, moves: seq<nat>): Table<S> {
    Store(Touch(TouchAll(t, s', moves), s, a), s, a,
          QUpdate(Q(t, s, a), lr, gamma, r, NextMax(t, s', moves)))
  }

  /** `update` sets the one entry it targets by the Q-learning rule, leaves
      every other value alone and removes no entry. */
  lemma UpdatedEffect<S>(t: Table<S>, lr: real, gamma: real, s: S, a: nat, r: real, s': S, moves: seq<nat>)
    ensures Q(Updated(t, lr, gamma, s, a, r, s', moves), s, a)
         == QUpdate(Q(t, s, a), lr, gamma, r, NextMax(t, s', moves))
    ensures forall s2, a2 :: (s2 != s || a2 != a) ==>
      Q(Updated(t, lr, gamma, s, a, r, s', moves), s2, a2) == Q(t, s2, a2)
    ensures forall s2, a2 :: Has(t, s2, a2) ==> Has(Updated(t, lr, gamma, s, a, r, s', moves), s2, a2)
  {
    var t1 := TouchAll(t, s', moves);
    TouchAllKeeps(t, s', moves);
    TouchKeeps(t1, s, a);
    var v := QUpdate(Q(t, s, a), lr, gamma, r, NextMax(t, s', moves));
    forall s2, a2 ensures Q(Updated(t, lr, gamma, s, a, r, s', moves), s2, a2)
                       == (if s2 == s && a2 == a then v else Q(t, s2, a2))
                  ensures Has(t, s2, a2) ==> Has(Updated(t, lr, gamma, s, a, r, s', moves), s2, a2)
    {
      StoreEffect(Touch(t1, s, a), s, a, v, s2, a2);
    }
  }

  /** What `get_statistics` reports. */
  datatype Statistics = Statistics(epsilon: real, totalActions: nat, qTableSize: nat, consecutiveActions: nat)

  class QLearningAgent<S(==)> {
    var qTable: Table<S>
    const lr: real
    const gamma: real
    var epsilon: real
    const epsilonDecay: real
    const epsilonMin: real
    var totalActions: nat
    var lastAction: Option<nat>
    var consecutiveSameActions: nat
    const maxConsecutiveActions: nat

    constructor(learningRate: real := 0.1, discountFactor: real := 0.95, epsilon: real := 1.0,
                epsilonDecay: real := 0.995, epsilonMin: real := 0.01)
      ensures qTable == map[] && lr == learningRate && gamma == discountFactor
      ensures this.epsilon == epsilon && this.epsilonDecay == epsilonDecay && this.epsilonMin == epsilonMin
      ensures totalActions == 0 && lastAction == None && consecutiveSameActions == 0
      ensures maxConsecutiveActions == 3
    {
      qTable := map[];
      lr, gamma := learningRate, discountFactor;
      this.epsilon, this.epsilonDecay, this.epsilonMin := epsilon, epsilonDecay, epsilonMin;
      totalActions, lastAction, consecutiveSameActions := 0, None, 0;
      maxConsecutiveActions := 3;
    }

    /** `get_q_value`: the stored value, with 0.0 stored first when missing. */
    method GetQValue(state: S, action: nat) returns (q: real)
      modifies this`qTable
      ensures q == Q(old(qTable), state, action)
      ensures qTable == Touch(old(qTable), state, action)
    {
      if state !in qTable {
        qTable := qTable[state := map[]];
      }
      if action !in qTable[state] {
        var inner: map<nat, real> := qTable[state];
        qTable := qTable[state := inner[action := 0.0]];
      }
      q := qTable[state][action];
    }

    /** The values of `moves` in `state`, each read with `get_q_value`. */
    method ReadValues(state: S, moves: seq<nat>) returns (values: seq<real>)
      modifies this`qTable
      ensures values == QValues(old(qTable), state, moves)
      ensures qTable == TouchAll(old(qTable), state, moves)
    {
      values := [];
      var i := 0;
      while i < |moves|
        invariant i <= |moves| && |values| == i
        invariant qTable == TouchAll(old(qTable), state, moves[..i])
        invariant forall k :: 0 <= k < i ==> values[k] == Q(old(qTable), state, moves[k])
      {
        TouchAllKeeps(old(qTable), state, moves[..i]);
        var q := GetQValue(state, moves[i]);
        assert moves[..i + 1][..i] == moves[..i];
        values := values + [q];
        i := i + 1;
      }
      assert moves[..i] == moves;
    }

    /** `choose_action`: counts the call; gives None without moves;
        otherwise explores (a move picked at random) when `coin` is below
        epsilon, and else exploits (the first move of best penalised value);
        either way it then updates the repeat counter. */
    method ChooseAction(state: S, validMoves: seq<nat>, coin: real) returns (action: Option<nat>)
      modifies this`totalActions, this`qTable, this`lastAction, this`consecutiveSameActions
      ensures totalActions == old(totalActions) + 1
      ensures validMoves == [] ==>
        action == None && qTable == old(qTable) && lastAction == old(lastAction) &&
        consecutiveSameActions == old(consecutiveSameActions)
      ensures validMoves != [] ==>
        action.Some? && action.value in validMoves && lastAction == action &&
        consecutiveSameActions == NextCount(old(lastAction), old(consecutiveSameActions), action.value)
      ensures validMoves != [] && coin < epsilon ==> qTable == old(qTable)
      ensures validMoves != [] && coin >= epsilon ==>
        action == Some(Greedy(old(qTable), state, validMoves, old(lastAction),
                              old(consecutiveSameActions), maxConsecutiveActions)) &&
        qTable == TouchAll(old(qTable), state, validMoves)
    {
      totalActions := totalActions + 1;
      if validMoves == [] {
        return None;
      }
      if coin < epsilon {
        assert validMoves[0] in validMoves;
        var pick :| pick in validMoves;
        consecutiveSameActions := if Some(pick) != lastAction then 0 else consecutiveSameActions + 1;
        lastAction := Some(pick);
        return Some(pick);
      }
      var values := ReadValues(state, validMoves);
      var scores := values;
      if lastAction.Some? && lastAction.value in validMoves && consecutiveSameActions >= maxConsecutiveActions {
        var repeated := lastAction.value;
        scores := seq(|values|, k requires 0 <= k < |values| =>
                        if validMoves[k] == repeated then values[k] - 1000.0 else values[k]);
      }
      ghost var expected := Scores(old(qTable), state, validMoves, lastAction, consecutiveSameActions, maxConsecutiveActions);
      forall k | 0 <= k < |validMoves| ensures scores[k] == expected[k] {
      }
      assert scores == expected;
      var best := validMoves[FirstArgMax(scores)];
      consecutiveSameActions := if Some(best) != lastAction then 0 else consecutiveSameActions + 1;
      lastAction := Some(best);
      return Some(best);
    }

    /** `update`: reads the next values and the current one (storing 0.0
        for those missing), then stores the Q-learning update. */
    method Update(state: S, action: nat, reward: real, nextState: S, nextValidMoves: seq<nat>)
      modifies this`qTable
      ensures qTable == Updated(old(qTable), lr, gamma, state, action, reward, nextState, nextValidMoves)
    {
      var nextMaxQ: real;
      if nextValidMoves == [] {
        nextMaxQ := 0.0;
      } else {
        var nextQValues := ReadValues(state := nextState, moves := nextValidMoves);
        nextMaxQ := if nextQValues != [] then MaxOf(nextQValues) else 0.0;
      }
      ghost var t1 := qTable;
      TouchAllKeeps(old(qTable), nextState, nextValidMoves);
      var currentQ := GetQValue(state, action);
      var newQ := QUpdate(currentQ, lr, gamma, reward, nextMaxQ);
      // After the read the state is always present, so the source's guard
      // that creates it again never fires; Store covers both cases.
      qTable := Store(qTable, state, action, newQ);
    }

    /** `decay_epsilon`. */
    method DecayEpsilon()
      modifies this`epsilon
      ensures epsilon == Decayed(old(epsilon), epsilonMin, epsilonDecay)
    {
      epsilon := Decayed(epsilon, epsilonMin, epsilonDecay);
    }

    /** `get_statistics`: the table size is the number of states seen. */
    function GetStatistics(): Statistics
      reads this
    {
      Statistics(epsilon, totalActions, |qTable|, consecutiveSameActions)
    }
  }
}
