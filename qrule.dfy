/** The arithmetic that both Q-learning agents share: picking the first
    maximal value, the one-step Q-learning update and the epsilon decay.
    Q-values, rates and rewards are exact reals. */
module QRule {

  /** Index of the first maximal element: Python's `max` keeps the earliest
      of equal maxima, and so does the head of a stable descending sort. */
  function FirstArgMax(vals: seq<real>): (i: nat)
    requires |vals| > 0
    ensures i < |vals|
    ensures forall j :: 0 <= j < |vals| ==> vals[j] <= vals[i]
    ensures forall j :: 0 <= j < i ==> vals[j] < vals[i]
  {
    if |vals| == 1 then 0
    else
      var i := FirstArgMax(vals[..|vals| - 1]);
      if vals[|vals| - 1] > vals[i] then |vals| - 1 else i
  }

  /** The two properties of FirstArgMax pin down a single index. */
  lemma FirstArgMaxIsUnique(vals: seq<real>, i: nat)
    requires i < |vals|
    requires forall j :: 0 <= j < |vals| ==> vals[j] <= vals[i]
    requires forall j :: 0 <= j < i ==> vals[j] < vals[i]
    ensures i == FirstArgMax(vals)
  {
  }

  /** Python's `max` of a non-empty list of values. */
  function MaxOf(vals: seq<real>): (m: real)
    requires |vals| > 0
    ensures m in vals
    ensures forall j :: 0 <= j < |vals| ==> vals[j] <= m
  {
    vals[FirstArgMax(vals)]
  }

  /** The bootstrap target of a transition. */
  function Target(reward: real, gamma: real, nextMax: real): real {
    reward + gamma * nextMax
  }

  /** Moving `v` a fraction `lr` of the way toward `t`. */
  function Toward(v: real, lr: real, t: real): (r: real)
    ensures r - t == (1.0 - lr) * (v - t)
  {
    v + lr * (t - v)
  }

  /** The Q-learning rule `cur + lr * (reward + gamma * nextMax - cur)`. */
  function QUpdate(cur: real, lr: real, gamma: real, reward: real, nextMax: real): (q: real)
    ensures q - Target(reward, gamma, nextMax) == (1.0 - lr) * (cur - Target(reward, gamma, nextMax))
  {
    Toward(cur, lr, Target(reward, gamma, nextMax))
  }

  /** An estimate already equal to its target is left as it is. */
  lemma UpdateFixedPoint(cur: real, lr: real, gamma: real, reward: real, nextMax: real)
    requires cur == Target(reward, gamma, nextMax)
    ensures QUpdate(cur, lr, gamma, reward, nextMax) == cur
  {
  }

  /** A value whose distance to `t` is a fraction `a` in [0, 1] of the
      distance from `cur` to `t` lies between `cur` and `t`. */
  lemma Between(cur: real, q: real, t: real, a: real)
    requires 0.0 <= a <= 1.0 && q - t == a * (cur - t)
    ensures cur <= t ==> cur <= q <= t
    ensures t <= cur ==> t <= q <= cur
  {
    Shrink(a, cur - t, q - t);
  }

  lemma MulNonNegative(p: real, x: real)
    requires p >= 0.0 && x >= 0.0
    ensures p * x >= 0.0
  {
  }

  lemma MulAtMost(p: real, x: real)
    requires 0.0 <= p <= 1.0 && x >= 0.0
    ensures p * x <= x
  {
  }

  lemma MulNegate(a: real, d: real)
    ensures a * (-d) == -(a * d)
  {
  }

  lemma Shrink(a: real, d: real, m: real)
    requires 0.0 <= a <= 1.0 && m == a * d
    ensures d >= 0.0 ==> 0.0 <= m <= d
    ensures d <= 0.0 ==> d <= m <= 0.0
  {
    if d >= 0.0 {
      ShrinkNonNegative(a, d, m);
    } else {
      MulNegate(a, d);
      ShrinkNonNegative(a, -d, -m);
    }
  }

  lemma ShrinkNonNegative(a: real, d: real, m: real)
    requires 0.0 <= a <= 1.0 && d >= 0.0 && m == a * d
    ensures 0.0 <= m <= d
  {
    MulNonNegative(a, d);
    MulAtMost(a, d);
  }

  /** With 0 < lr <= 1 the new value lies between the old value and the
      target; with lr = 1 it is the target. */
  lemma UpdateBetween(cur: real, lr: real, gamma: real, reward: real, nextMax: real)
    requires 0.0 < lr <= 1.0
    ensures var t, q := Target(reward, gamma, nextMax), QUpdate(cur, lr, gamma, reward, nextMax);
      (cur <= t ==> cur <= q <= t) && (t <= cur ==> t <= q <= cur)
    ensures lr == 1.0 ==> QUpdate(cur, lr, gamma, reward, nextMax) == Target(reward, gamma, nextMax)
  {
    var t, q := Target(reward, gamma, nextMax), QUpdate(cur, lr, gamma, reward, nextMax);
    Between(cur, q, t, 1.0 - lr);
  }

  function Pow(x: real, n: nat): real {
    if n == 0 then 1.0 else x * Pow(x, n - 1)
  }

  /** The estimate after `n` updates toward the same target: `n` identical
      transitions whose bootstrap value does not change (see
      RepeatedIsIteratedUpdate). */
  function Repeated(cur: real, lr: real, t: real, n: nat): real {
    if n == 0 then cur else Toward(Repeated(cur, lr, t, n - 1), lr, t)
  }

  lemma RepeatedIsIteratedUpdate(cur: real, lr: real, gamma: real, reward: real, nextMax: real, n: nat)
    ensures Repeated(cur, lr, Target(reward, gamma, nextMax), n + 1)
         == QUpdate(Repeated(cur, lr, Target(reward, gamma, nextMax), n), lr, gamma, reward, nextMax)
  {
  }

  /** Repeating the same transition contracts the distance to the target by
      the factor `1 - lr` each time. */
  lemma {:induction false} RepeatedContracts(cur: real, lr: real, t: real, n: nat)
    ensures Repeated(cur, lr, t, n) - t == Pow(1.0 - lr, n) * (cur - t)
  {
    if n > 0 {
      RepeatedContracts(cur, lr, t, n - 1);
      ContractOnce(cur, lr, t, n);
    }
  }

  /** One more repetition multiplies the distance by one more factor. */
  lemma ContractOnce(cur: real, lr: real, t: real, n: nat)
    requires n > 0
    requires Repeated(cur, lr, t, n - 1) - t == Pow(1.0 - lr, n - 1) * (cur - t)
    ensures Repeated(cur, lr, t, n) - t == Pow(1.0 - lr, n) * (cur - t)
  {
    RepeatedStep(cur, lr, t, n);
    PowStep(1.0 - lr, n);
    ContractStep(Repeated(cur, lr, t, n - 1), Repeated(cur, lr, t, n), t, 1.0 - lr, Pow(1.0 - lr, n - 1), cur - t);
  }

  lemma RepeatedStep(cur: real, lr: real, t: real, n: nat)
    requires n > 0
    ensures Repeated(cur, lr, t, n) - t == (1.0 - lr) * (Repeated(cur, lr, t, n - 1) - t)
  {
  }

  lemma PowStep(x: real, n: nat)
    requires n > 0
    ensures Pow(x, n) == x * Pow(x, n - 1)
  {
  }

  lemma ContractStep(prev: real, next: real, t: real, a: real, b: real, d: real)
    requires prev - t == b * d && next - t == a * (prev - t)
    ensures next - t == (a * b) * d
  {
    assert a * (b * d) == (a * b) * d;
  }

  lemma {:induction false} PowInUnit(x: real, n: nat)
    requires 0.0 <= x <= 1.0
    ensures 0.0 <= Pow(x, n) <= 1.0
  {
    if n > 0 {
      PowInUnit(x, n - 1);
      MulNonNegative(x, Pow(x, n - 1));
      MulAtMost(Pow(x, n - 1), x);
      assert Pow(x, n - 1) * x == x * Pow(x, n - 1);
    }
  }

  /** With 0 < lr <= 1, repeated identical updates never move away from the
      target: after `n` of them the estimate is between the start and the
      target. */
  lemma RepeatedStaysBetween(cur: real, lr: real, t: real, n: nat)
    requires 0.0 < lr <= 1.0
    ensures var q := Repeated(cur, lr, t, n);
      (cur <= t ==> cur <= q <= t) && (t <= cur ==> t <= q <= cur)
  {
    RepeatedContracts(cur, lr, t, n);
    PowInUnit(1.0 - lr, n);
    Between(cur, Repeated(cur, lr, t, n), t, Pow(1.0 - lr, n));
  }

  /** `max(epsilon_min, epsilon * epsilon_decay)`. */
  function Decayed(epsilon: real, epsilonMin: real, epsilonDecay: real): (e: real)
    ensures e >= epsilonMin && e >= epsilon * epsilonDecay
    ensures e == epsilonMin || e == epsilon * epsilonDecay
  {
    if epsilonMin >= epsilon * epsilonDecay then epsilonMin else epsilon * epsilonDecay
  }

  /** With a non-negative epsilon at or above the floor and a decay of at most
      1, the decayed epsilon lies in `[epsilon_min, epsilon]`. */
  lemma DecayWithinBounds(epsilon: real, epsilonMin: real, epsilonDecay: real)
    requires 0.0 <= epsilon && epsilonMin <= epsilon && epsilonDecay <= 1.0
    ensures epsilonMin <= Decayed(epsilon, epsilonMin, epsilonDecay) <= epsilon
  {
    if epsilonDecay >= 0.0 {
      MulAtMost(epsilonDecay, epsilon);
      assert epsilonDecay * epsilon == epsilon * epsilonDecay;
    } else {
      MulNonNegative(epsilon, -epsilonDecay);
      assert epsilon * -epsilonDecay == -(epsilon * epsilonDecay);
    }
  }
}
