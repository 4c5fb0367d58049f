/** The flood limiter (lib/src/Irc/RateLimit.hs): one event per penalty, with a threshold of seconds in advance. */
module RateLimits {

  function Max(a: real, b: real): real {
    if a < b then b else a
  }

  function Ceiling(x: real): int {
    -(-x).Floor
  }

  /** The time from which the client may send, after one more event at time `now`. */
  function NextStamp(penalty: real, stamp: real, now: real): real {
    penalty + Max(stamp, now)
  }

  /** The microseconds to sleep before the event, none when the client is not too far ahead. */
  function Asked(penalty: real, threshold: real, stamp: real, now: real): nat {
    var excess := NextStamp(penalty, stamp, now) - now - threshold;
    if excess > 0.0 then
      CeilingCovers(1000000.0 * excess);
      Ceiling(1000000.0 * excess)
    else 0
  }

  /** A client that sleeps for `d` microseconds from time `now` is at most the threshold ahead. */
  predicate Enough(stamp: real, threshold: real, now: real, d: nat) {
    stamp - (now + d as real / 1000000.0) <= threshold
  }

  class RateLimit {
    var rateStamp: real
    const rateThreshold: real
    const ratePenalty: real

    constructor (now: real, penalty: real, threshold: real)
      ensures rateStamp == now
      ensures ratePenalty == if penalty > 0.0 then penalty else 0.0
      ensures rateThreshold == if threshold > 0.0 then threshold else 0.0
    {
      rateStamp := now;
      rateThreshold := Max(0.0, threshold);
      ratePenalty := Max(0.0, penalty);
    }

    /** Account for an event when the clock shows `now`; the caller proceeds after sleeping `delay` microseconds, the
        fewest after which the stamp is at most the threshold ahead. */
    method Tick(now: real) returns (delay: nat)
      modifies this
      ensures rateStamp == ratePenalty + if old(rateStamp) > now then old(rateStamp) else now
      ensures forall d: nat :: Enough(rateStamp, rateThreshold, now, d) <==> d >= delay
      ensures rateStamp == NextStamp(ratePenalty, old(rateStamp), now)
      ensures delay == Asked(ratePenalty, rateThreshold, old(rateStamp), now)
    {
      forall d: nat
        ensures Enough(NextStamp(ratePenalty, rateStamp, now), rateThreshold, now, d)
           <==> d >= Asked(ratePenalty, rateThreshold, rateStamp, now)
      {
        LeastSleep(ratePenalty, rateThreshold, rateStamp, now, d);
      }
      var stamp' := ratePenalty + Max(rateStamp, now);
      var diff := stamp' - now;
      var excess := diff - rateThreshold;
      delay := 0;
      if excess > 0.0 {
        delay := Ceiling(1000000.0 * excess);
      }
      rateStamp := stamp';
    }
  }

  /** No sleep is longer than it has to be: after `d` microseconds the next stamp is at most the threshold ahead exactly
      when `d` is at least what is asked for. */
  lemma LeastSleep(penalty: real, threshold: real, stamp: real, now: real, d: nat)
    ensures Enough(NextStamp(penalty, stamp, now), threshold, now, d)
       <==> d >= Asked(penalty, threshold, stamp, now)
  {
    var excess := NextStamp(penalty, stamp, now) - now - threshold;
    CeilingCovers(1000000.0 * excess);
    assert d as real / 1000000.0 >= excess <==> d as real >= 1000000.0 * excess;
    assert d < Ceiling(1000000.0 * excess) ==> d as real <= (Ceiling(1000000.0 * excess) - 1) as real;
  }

  // ----- Runs -----

  /** One call: what the clock shows when it begins, and the time when it returns. */
  datatype Call = Call(clock: real, back: real)

  /** The stamp after the first `k` calls. */
  function StampAt(penalty: real, stamp: real, calls: seq<Call>, k: nat): real
    requires k <= |calls|
  {
    if k == 0 then stamp else NextStamp(penalty, StampAt(penalty, stamp, calls, k - 1), calls[k - 1].clock)
  }

  predicate Ordered(calls: seq<Call>) {
    forall k | 0 < k < |calls| :: calls[k - 1].back <= calls[k].clock
  }

  /** The calls follow each other, the clock never goes back, and every sleep is at least as long as asked. */
  predicate Fair(penalty: real, threshold: real, stamp: real, calls: seq<Call>) {
    && (calls != [] ==> stamp <= calls[0].clock)
    && Ordered(calls)
    && forall k | 0 <= k < |calls| :: Slept(penalty, threshold, stamp, calls, k)
  }

  predicate Slept(penalty: real, threshold: real, stamp: real, calls: seq<Call>, k: nat)
    requires k < |calls|
  {
    var asked := Asked(penalty, threshold, StampAt(penalty, stamp, calls, k), calls[k].clock);
    calls[k].clock + asked as real / 1000000.0 <= calls[k].back
  }

  lemma CeilingCovers(x: real)
    ensures Ceiling(x) as real >= x
    ensures (Ceiling(x) - 1) as real < x
  {}

  /** When a call returns, the client is at most the threshold ahead of its stamp. */
  lemma NotTooFarAhead(penalty: real, threshold: real, stamp: real, calls: seq<Call>, k: nat)
    requires Fair(penalty, threshold, stamp, calls) && k < |calls|
    ensures StampAt(penalty, stamp, calls, k + 1) - threshold <= calls[k].back
  {
    var s := StampAt(penalty, stamp, calls, k);
    var excess := NextStamp(penalty, s, calls[k].clock) - calls[k].clock - threshold;
    CeilingCovers(1000000.0 * excess);
    assert Slept(penalty, threshold, stamp, calls, k);
    if excess > 0.0 {
      var asked := Ceiling(1000000.0 * excess) as real;
      assert asked / 1000000.0 >= excess;
    }
  }

  lemma OneMore(n: nat, p: real)
    ensures (n + 1) as real * p == n as real * p + p
  {
    assert (n + 1) as real == n as real + 1.0;
  }

  lemma {:induction false} StampGrows(penalty: real, stamp: real, calls: seq<Call>, j: nat, n: nat)
    requires Ordered(calls) && penalty >= 0.0 && j + n + 1 < |calls|
    ensures StampAt(penalty, stamp, calls, j + n + 2) >= calls[j].back + (n + 1) as real * penalty
    decreases n
  {
    OneMore(n, penalty);
    if n == 0 {
      assert calls[j].back <= calls[j + 1].clock;
      assert n as real * penalty == 0.0;
    } else {
      StampGrows(penalty, stamp, calls, j, n - 1);
    }
  }

  /** The flood bound: between any two events the time that has passed, plus the threshold, pays the penalty of every
      event after the first. */
  lemma FloodBound(penalty: real, threshold: real, stamp: real, calls: seq<Call>, j: nat, k: nat)
    requires Fair(penalty, threshold, stamp, calls) && penalty >= 0.0 && j < k < |calls|
    ensures (k - j) as real * penalty <= (calls[k].back - calls[j].back) + threshold
  {
    var n := k - j - 1;
    assert j + n + 2 == k + 1 && n + 1 == k - j;
    StampGrows(penalty, stamp, calls, j, n);
    NotTooFarAhead(penalty, threshold, stamp, calls, k);
  }

  /** No call asks for more than the penalty, rounded up to a microsecond. */
  lemma SleepBound(penalty: real, threshold: real, stamp: real, calls: seq<Call>, k: nat)
    requires Fair(penalty, threshold, stamp, calls) && penalty >= 0.0 && threshold >= 0.0 && k < |calls|
    ensures 0 <= Asked(penalty, threshold, StampAt(penalty, stamp, calls, k), calls[k].clock)
                 <= Ceiling(1000000.0 * penalty)
  {
    var s := StampAt(penalty, stamp, calls, k);
    if k > 0 {
      NotTooFarAhead(penalty, threshold, stamp, calls, k - 1);
      assert calls[k - 1].back <= calls[k].clock;
    }
    var excess := NextStamp(penalty, s, calls[k].clock) - calls[k].clock - threshold;
    assert excess <= penalty;
    CeilingMonotone(1000000.0 * excess, 1000000.0 * penalty);
  }

  lemma CeilingMonotone(x: real, y: real)
    requires x <= y
    ensures Ceiling(x) <= Ceiling(y)
    ensures x > 0.0 ==> Ceiling(x) > 0
  {}

  /** The limiter is no stricter than it has to be: a client that has been idle sends at once, without sleeping, exactly
      as many events as their penalties fit in the threshold. */
  lemma {:induction false} Burst(penalty: real, threshold: real, stamp: real, calls: seq<Call>, k: nat)
    requires penalty >= 0.0 && k < |calls| && stamp <= calls[0].clock
    requires forall i | 0 <= i < |calls| :: calls[i].clock == calls[0].clock
    ensures StampAt(penalty, stamp, calls, k + 1) == calls[0].clock + (k + 1) as real * penalty
    ensures Asked(penalty, threshold, StampAt(penalty, stamp, calls, k), calls[k].clock) == 0
       <==> (k + 1) as real * penalty <= threshold
  {
    var s := StampAt(penalty, stamp, calls, k);
    if k > 0 {
      Burst(penalty, threshold, stamp, calls, k - 1);
      OneMore(k, penalty);
      assert s == calls[0].clock + k as real * penalty;
    }
    var excess := NextStamp(penalty, s, calls[k].clock) - calls[k].clock - threshold;
    assert excess == (k + 1) as real * penalty - threshold;
    CeilingMonotone(1000000.0 * excess, 1000000.0 * excess);
  }
}
