/**
 * The reward rule shared by the browser client (app.js), the SQLite server (server.js)
 * and the hosted-store server (server-sqlite.js), stated once for any threshold.
 */
module Accounting {

  /** REWARD_THRESHOLD of the browser client and of the SQLite server. */
  const CLIENT_THRESHOLD: nat := 1000
  /** REWARD_THRESHOLD of the hosted-store server. */
  const HOSTED_THRESHOLD: nat := 10
  /** The servers reject an adjustment whose magnitude exceeds this. */
  const MAX_DELTA: nat := 100000
  /** Reason recorded for an adjustment that comes without one. */
  const DEFAULT_REASON: string := "Point adjustment"
  /** Reason of the entry that seeds every new student's history. */
  const CREATED_REASON: string := "Student created"

  /** A student's running point total and reward counter. */
  datatype Totals = Totals(points: nat, rewards: nat)

  /** `Math.max(0, before + delta)`: the least non-negative value not below the raw sum. */
  function Clamp(before: nat, delta: int): (after: nat)
    ensures after >= before + delta
    ensures after == before + delta || after == 0
  {
    if before + delta < 0 then 0 else before + delta
  }

  /**
   * The rewards a change of the total from `before` to `after` earns: the difference of the
   * completed cycles, counted only for an increase that ends at or above the threshold and
   * only when it is positive.
   */
  function Earned(before: nat, after: nat, threshold: nat): (n: nat)
    requires threshold > 0
    ensures n > 0 ==> after > before && after >= threshold
  {
    if after >= threshold && after > before && after / threshold - before / threshold > 0
    then after / threshold - before / threshold
    else 0
  }

  /** One adjustment: the clamped new total, and the rewards earned added to the counter. */
  function Apply(t: Totals, delta: int, threshold: nat): (r: Totals)
    requires threshold > 0
    ensures r.points >= t.points + delta && (r.points == 0 || r.points == t.points + delta)
    ensures r.rewards >= t.rewards
    ensures r.rewards > t.rewards ==> delta > 0 && r.points > t.points
  {
    var after := Clamp(t.points, delta);
    Totals(after, t.rewards + Earned(t.points, after, threshold))
  }

  /** The cycle-local value a history entry stores and a card displays. */
  function CycleLocal(points: nat, threshold: nat): (p: nat)
    requires threshold > 0
    ensures p < threshold && p <= points
    ensures points == (points / threshold) * threshold + p
  {
    points % threshold
  }

  /** Reference count: how many multiples of `threshold` lie in the interval (before, after]. */
  function Crossings(before: nat, after: nat, threshold: nat): (c: nat)
    requires threshold > 0
    ensures c <= if after > before then after - before else 0
    decreases after
  {
    if after <= before then 0
    else (if after % threshold == 0 then 1 else 0) + Crossings(before, after - 1, threshold)
  }

  lemma DivModUnique(a: int, m: int, q: int, r: int)
    requires m > 0 && 0 <= r < m && a == q * m + r
    ensures a / m == q && a % m == r
  {
    var q', r' := a / m, a % m;
    assert a == q' * m + r';
    if q' < q {
      MulDifference(q, q', m);
    } else if q < q' {
      MulDifference(q', q, m);
    }
  }

  lemma MulDifference(x: int, y: int, m: int)
    requires x > y && m > 0
    ensures x * m - y * m >= m
  {
    var k := x - y;
    assert x * m == y * m + k * m;
    MulAtLeast(k, m);
  }

  lemma MulAtLeast(k: int, m: int)
    requires k >= 1 && m > 0
    ensures k * m >= m
  {
  }

  /** Stepping up by one point completes a cycle exactly when it lands on a multiple. */
  lemma DivStep(a: nat, m: nat)
    requires a > 0 && m > 0
    ensures a / m == (a - 1) / m + (if a % m == 0 then 1 else 0)
  {
    var q, r := (a - 1) / m, (a - 1) % m;
    assert a - 1 == q * m + r;
    if r + 1 < m {
      DivModUnique(a, m, q, r + 1);
    } else {
      assert a == (q + 1) * m + 0;
      DivModUnique(a, m, q + 1, 0);
    }
  }

  /** The multiples crossed between two totals are the difference of their completed cycles. */
  lemma {:induction false} CrossingsAreCycleDifference(before: nat, after: nat, threshold: nat)
    requires threshold > 0 && before <= after
    ensures Crossings(before, after, threshold) == after / threshold - before / threshold
    decreases after
  {
    if after > before {
      CrossingsAreCycleDifference(before, after - 1, threshold);
      DivStep(after, threshold);
    }
  }

  /**
   * The rule's guards change nothing: an increase earns exactly the number of multiples of
   * the threshold it crosses, and anything else earns none.
   */
  lemma EarnedCountsCrossings(before: nat, after: nat, threshold: nat)
    requires threshold > 0
    ensures Earned(before, after, threshold) == if after > before then Crossings(before, after, threshold) else 0
    ensures Earned(before, after, threshold) == if after > before then after / threshold - before / threshold else 0
  {
    if after > before {
      CrossingsAreCycleDifference(before, after, threshold);
      if after < threshold {
        DivModUnique(after, threshold, 0, after);
        DivModUnique(before, threshold, 0, before);
      }
    }
  }

  /** An adjustment earns exactly the multiples of the threshold it crosses on the way up. */
  lemma ApplyEarnsCrossings(t: Totals, delta: int, threshold: nat)
    requires threshold > 0
    ensures Apply(t, delta, threshold).rewards
         == t.rewards + if delta > 0 then Crossings(t.points, t.points + delta, threshold) else 0
  {
    EarnedCountsCrossings(t.points, Clamp(t.points, delta), threshold);
  }

  /** Two increases in a row earn what their sum earns in one step. */
  lemma ApplySplitsUpward(t: Totals, d1: nat, d2: nat, threshold: nat)
    requires threshold > 0
    ensures Apply(Apply(t, d1, threshold), d2, threshold) == Apply(t, d1 + d2, threshold)
  {
    var b := t.points;
    EarnedCountsCrossings(b, b + d1, threshold);
    EarnedCountsCrossings(b + d1, b + d1 + d2, threshold);
    EarnedCountsCrossings(b, b + d1 + d2, threshold);
  }

  /** Without clamping, an adjustment and its opposite restore the points; rewards are kept. */
  lemma UndoRestoresPoints(t: Totals, delta: int, threshold: nat)
    requires threshold > 0 && t.points + delta >= 0
    ensures Apply(Apply(t, delta, threshold), -delta, threshold).points == t.points
    ensures Apply(Apply(t, delta, threshold), -delta, threshold).rewards >= t.rewards
  {
  }

  /**
   * Worked cases of the hosted-store rule (threshold 10): 5 + 25 lands on 30 and crosses
   * 10, 20 and 30, so three rewards are earned; 3 - 10 clamps to 0 and earns none.
   */
  lemma HostedExamples(rewards: nat)
    ensures Apply(Totals(5, rewards), 25, HOSTED_THRESHOLD) == Totals(30, rewards + 3)
    ensures Apply(Totals(3, rewards), -10, HOSTED_THRESHOLD) == Totals(0, rewards)
  {
  }

  /** JavaScript's `%`, which truncates toward zero. */
  function JsRem(a: int, m: nat): (r: int)
    requires m > 0
    ensures a >= 0 ==> r == a % m
    ensures a < 0 ==> r + m > 0 && r <= 0 && r == -((-a) % m)
  {
    if a >= 0 then a % m else -((-a) % m)
  }

  /**
   * The signed-in client's test for showing the reward dialog after the server replied with
   * the updated `points` and `rewards`: a non-zero reward counter, a cycle-local value that
   * wrapped around, and a positive delta.
   */
  predicate RewardNotice(points: nat, rewards: nat, delta: int, threshold: nat)
    requires threshold > 0
    ensures RewardNotice(points, rewards, delta, threshold) ==> 0 < delta <= points && rewards > 0
  {
    rewards != 0 && points % threshold < JsRem(points - delta, threshold) && delta > 0
  }

  /** A step up by less than one cycle completes a cycle exactly when the cycle-local value wraps. */
  lemma CycleWrap(b: nat, d: nat, threshold: nat)
    requires 0 < d < threshold
    ensures (b + d) / threshold == b / threshold + (if (b + d) % threshold < b % threshold then 1 else 0)
  {
    var q, m := b / threshold, b % threshold;
    assert b == q * threshold + m;
    if m + d < threshold {
      DivModUnique(b + d, threshold, q, m + d);
    } else {
      assert b + d == (q + 1) * threshold + (m + d - threshold);
      DivModUnique(b + d, threshold, q + 1, m + d - threshold);
    }
  }

  /** For a positive delta below the threshold, the dialog shows exactly when a reward was earned. */
  lemma NoticeMatchesEarned(t: Totals, delta: int, threshold: nat)
    requires threshold > 0 && 0 < delta < threshold
    ensures var r := Apply(t, delta, threshold);
            RewardNotice(r.points, r.rewards, delta, threshold) <==> r.rewards > t.rewards
  {
    var b := t.points;
    var a := b + delta;
    assert Apply(t, delta, threshold) == Totals(a, t.rewards + Earned(b, a, threshold));
    assert JsRem(a - delta, threshold) == b % threshold;
    EarnedCountsCrossings(b, a, threshold);
    CycleWrap(b, delta, threshold);
  }

  /** A delta of a whole cycle earns a reward, yet the dialog stays hidden. */
  lemma NoticeMissesWholeCycle(t: Totals, threshold: nat)
    requires threshold > 0
    ensures var r := Apply(t, threshold, threshold);
            r.rewards == t.rewards + 1 && !RewardNotice(r.points, r.rewards, threshold, threshold)
  {
    var b := t.points;
    var q, m := b / threshold, b % threshold;
    assert b + threshold == (q + 1) * threshold + m;
    DivModUnique(b + threshold, threshold, q + 1, m);
    EarnedCountsCrossings(b, b + threshold, threshold);
  }
}
