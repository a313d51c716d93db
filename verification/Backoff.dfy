/**
  The retry delays of cmd/kms-agent/main.go. The product is computed in floating point and
  converted to a 64-bit duration; for a base of at most five minutes it is exact while it is
  below 2^63 ns, and beyond that the result of the conversion depends on the platform
  (`overflow`).
 */
module Backoff {
  import opened Options
  import opened Lease
  import opened Wire

  const MAX_BACKOFF: int := 300 * SECOND

  function Min(a: int, b: int): int {
    if a < b then a else b
  }

  /** The base, doubled for every failure after the first. */
  function Doubled(base: nat, failures: nat): nat
    requires failures >= 1
  {
    if failures == 1 then base else 2 * Doubled(base, failures - 1)
  }

  /** The delay the agent computes. */
  function Delay(failures: int, base: nat, overflow: int): int {
    if failures <= 1 then base
    else Min(if Doubled(base, failures) < TWO63 then Doubled(base, failures) else overflow, MAX_BACKOFF)
  }

  /** backoffDuration: the power of two first, then the product, the conversion and the cap. */
  method BackoffDuration(failures: int, base: nat, overflow: int) returns (backoff: int)
    ensures backoff == Delay(failures, base, overflow)
    ensures failures <= 1 ==> backoff == base
    ensures failures >= 2 && base * Pow2(failures - 1) < TWO63 ==>
              backoff == if base * Pow2(failures - 1) < 300_000_000_000 then base * Pow2(failures - 1) else 300_000_000_000
    ensures failures >= 2 && base * Pow2(failures - 1) >= TWO63 ==>
              backoff == if overflow < 300_000_000_000 then overflow else 300_000_000_000
  {
    if failures <= 1 {
      return base;
    }
    DoubledIsProduct(base, failures);
    var multiplier := Pow2(failures - 1);
    backoff := base * multiplier;
    if backoff >= TWO63 {
      backoff := overflow;
    }
    var maxBackoff := 5 * 60 * SECOND;
    if backoff > maxBackoff {
      backoff := maxBackoff;
    }
  }

  lemma {:induction false} DoubledIsProduct(base: nat, failures: nat)
    requires failures >= 1
    ensures Doubled(base, failures) == base * Pow2(failures - 1)
    decreases failures
  {
    if failures == 1 {
    } else {
      DoubledIsProduct(base, failures - 1);
      assert base * (2 * Pow2(failures - 2)) == 2 * (base * Pow2(failures - 2));
    }
  }

  lemma {:induction false} DoubledGrows(base: nat, n: nat, n': nat)
    requires 1 <= n <= n'
    ensures base <= Doubled(base, n) <= Doubled(base, n')
    decreases n'
  {
    if n < n' {
      DoubledGrows(base, n, n' - 1);
    } else if n > 1 {
      DoubledGrows(base, n - 1, n - 1);
    }
  }

  /**
    The delay is the capped doubling exactly while the product fits 64 bits, or where the
    platform converts a larger one to at least the cap.
   */
  lemma {:induction false} DelayIsCappedDoubling(failures: nat, base: nat, overflow: int)
    requires failures >= 1 && 0 < base <= MAX_BACKOFF
    ensures Delay(failures, base, overflow) == Min(Doubled(base, failures), MAX_BACKOFF)
            <==> Doubled(base, failures) < TWO63 || overflow >= MAX_BACKOFF
  {
  }

  /** In that range delays never shrink with more failures, and stay between the base and the cap. */
  lemma {:induction false} DelayIsMonotone(n: nat, n': nat, base: nat, overflow: int)
    requires 1 <= n <= n' && 0 < base <= MAX_BACKOFF && Doubled(base, n') < TWO63
    ensures base <= Delay(n, base, overflow) <= Delay(n', base, overflow) <= MAX_BACKOFF
  {
    DoubledGrows(base, n, n');
    DelayIsCappedDoubling(n, base, overflow);
    DelayIsCappedDoubling(n', base, overflow);
  }

  /** With the default base of 30 s the product fits for up to 29 failures in a row and no more. */
  lemma {:induction false} DefaultBaseFits(failures: nat)
    requires failures >= 1
    ensures Doubled(30 * SECOND, failures) < TWO63 <==> failures <= 29
  {
    var base := 30 * SECOND;
    DoubledIsProduct(base, 29);
    DoubledIsProduct(base, 30);
    Pow2By7(0);
    Pow2By7(7);
    Pow2By7(14);
    Pow2By7(21);
    assert Pow2(0) == 1 && Pow2(29) == 2 * Pow2(28);
    if failures <= 29 {
      DoubledGrows(base, failures, 29);
    } else {
      DoubledGrows(base, 30, failures);
    }
  }

  /** How long `time.After` waits: not at all for a negative delay. */
  function Pause(delay: int): nat {
    if delay < 0 then 0 else delay
  }

  /**
    Where the conversion of a product out of range gives the smallest integer, thirty failures
    in a row make the delay negative, and waiting for it no wait at all.
   */
  lemma {:induction false} NegativeDelayWitness()
    ensures Delay(30, 30 * SECOND, -TWO63) < 0 && Pause(Delay(30, 30 * SECOND, -TWO63)) == 0
  {
    DefaultBaseFits(30);
  }

  // ---------- The loops ----------

  /** How many of the latest attempts failed in a row. */
  function Trailing(outcomes: seq<bool>): nat {
    if outcomes == [] || outcomes[|outcomes| - 1] then 0 else 1 + Trailing(outcomes[..|outcomes| - 1])
  }

  lemma TrailingNext(outcomes: seq<bool>, i: nat)
    requires i < |outcomes|
    ensures Trailing(outcomes[..i + 1]) == if outcomes[i] then 0 else 1 + Trailing(outcomes[..i])
    ensures Trailing([]) == 0 && outcomes[..0] == []
  {
    assert outcomes[..i + 1][..i] == outcomes[..i];
  }

  /** How many ticks a ticker that was started at time 0 has fired up to `t`. */
  function Ticks(t: nat, interval: nat): nat
    requires interval > 0
  {
    if t < interval then 0 else 1 + Ticks(t - interval, interval)
  }

  /** When it fires next after `t`. */
  function NextTick(t: nat, interval: nat): nat
    requires interval > 0
  {
    if t < interval then interval else interval + NextTick(t - interval, interval)
  }

  lemma {:induction false} TicksGrow(x: nat, y: nat, interval: nat)
    requires interval > 0 && x <= y
    ensures Ticks(x, interval) <= Ticks(y, interval)
    decreases x
  {
    if x < interval {
    } else {
      TicksGrow(x - interval, y - interval, interval);
    }
  }

  lemma {:induction false} NextTickIsNext(t: nat, interval: nat)
    requires interval > 0
    ensures t < NextTick(t, interval) <= t + interval
    ensures Ticks(NextTick(t, interval), interval) == Ticks(t, interval) + 1
    decreases t
  {
    if t < interval {
      assert Ticks(interval, interval) == 1 + Ticks(0, interval);
    } else {
      NextTickIsNext(t - interval, interval);
    }
  }

  /** The ticks are the multiples of the interval. */
  lemma {:induction false} TicksExactly(t: nat, interval: nat)
    requires interval > 0
    ensures Ticks(t, interval) * interval <= t < Ticks(t, interval) * interval + interval
    decreases t
  {
    if t < interval {
    } else {
      TicksExactly(t - interval, interval);
      var k := Ticks(t - interval, interval);
      assert (1 + k) * interval == interval + k * interval;
    }
  }

  /** Nothing fires between `t` and the next tick. */
  lemma {:induction false} QuietUntilNextTick(t: nat, x: nat, interval: nat)
    requires interval > 0 && t <= x < NextTick(t, interval)
    ensures Ticks(x, interval) == Ticks(t, interval)
    decreases t
  {
    if t < interval {
    } else {
      QuietUntilNextTick(t - interval, x - interval, interval);
    }
  }

  /**
    When a receive that begins at `now` gets a tick. The channel, emptied at `last`, holds one: if
    the ticker has fired since then it is there, else the next one is awaited.
   */
  function Receive(now: nat, last: nat, interval: nat): nat
    requires interval > 0
  {
    if Ticks(now, interval) > Ticks(last, interval) then now else NextTick(now, interval)
  }

  /** Every receive takes a tick of its own. */
  lemma {:induction false} ReceiveTakesATick(now: nat, last: nat, interval: nat)
    requires interval > 0 && last <= now
    ensures Receive(now, last, interval) >= now
    ensures Ticks(Receive(now, last, interval), interval) > Ticks(last, interval)
  {
    hide Ticks, NextTick;
    TicksGrow(last, now, interval);
    NextTickIsNext(now, interval);
  }

  /** How long the loop waits behind an attempt, apart from the ticker. */
  function Wait(delay: Option<int>): nat {
    match delay case Some(d) => Pause(d) case None => 0
  }

  /** The delay behind attempt `i`: none after a success, else that of the failures in a row. */
  function DelayBehind(outcomes: seq<bool>, base: nat, overflow: int, i: nat): Option<int>
    requires i < |outcomes|
  {
    if outcomes[i] then None else Some(Delay(Trailing(outcomes[..i + 1]), base, overflow))
  }

  /** When attempt `i` is sent, the initial one being attempt 0, counted from the start of the ticker. */
  function SentAt(outcomes: seq<bool>, took: seq<nat>, base: nat, overflow: int, i: nat): nat
    requires 1 <= i <= |outcomes| == |took| && base > 0
  {
    if i == 1 then Receive(0, 0, base)
    else
      var last := SentAt(outcomes, took, base, overflow, i - 1);
      Receive(last + took[i - 1] + Wait(DelayBehind(outcomes, base, overflow, i - 1)), last, base)
  }

  /** Whatever the delays, no two attempts share a tick: the agent never sends more often than its interval. */
  lemma {:induction false} AttemptsKeepToTicks(outcomes: seq<bool>, took: seq<nat>, base: nat, overflow: int, i: nat)
    requires 1 <= i <= |outcomes| == |took| && base > 0
    ensures Ticks(SentAt(outcomes, took, base, overflow, i), base) >= i
    decreases i
  {
    hide Receive, Ticks, DelayBehind;
    if i == 1 {
      ReceiveTakesATick(0, 0, base);
    } else {
      AttemptsKeepToTicks(outcomes, took, base, overflow, i - 1);
      var last := SentAt(outcomes, took, base, overflow, i - 1);
      ReceiveTakesATick(last + took[i - 1] + Wait(DelayBehind(outcomes, base, overflow, i - 1)), last, base);
    }
  }

  /** A success has no delay behind it, and the `n`-th failure in a row that of `n` failures. */
  lemma {:induction false} DelayAfterFailures(outcomes: seq<bool>, base: nat, overflow: int, i: nat, n: nat)
    requires i < |outcomes| && n <= i + 1
    requires forall k :: i + 1 - n <= k <= i ==> !outcomes[k]
    requires n == i + 1 || outcomes[i - n]
    ensures DelayBehind(outcomes, base, overflow, i) == if n == 0 then None else Some(Delay(n, base, overflow))
  {
    hide Delay;
    TrailingExactly(outcomes, i, n);
  }

  lemma {:induction false} TrailingExactly(outcomes: seq<bool>, i: nat, n: nat)
    requires i < |outcomes| && n <= i + 1
    requires forall k :: i + 1 - n <= k <= i ==> !outcomes[k]
    requires n == i + 1 || outcomes[i - n]
    ensures Trailing(outcomes[..i + 1]) == n
    decreases n
  {
    TrailingNext(outcomes, i);
    if n == 0 {
    } else if i == 0 {
      TrailingNext(outcomes, 0);
    } else {
      TrailingExactly(outcomes, i - 1, n - 1);
    }
  }

  /**
    Attempt 1 is sent at the first tick. Every later one is sent at the earliest moment, once the one
    before has taken its time and its delay (if positive) has passed, by which the ticker has fired again.
   */
  lemma {:induction false} SentExactly(outcomes: seq<bool>, took: seq<nat>, base: nat, overflow: int, i: nat, t: nat)
    requires 1 <= i <= |outcomes| == |took| && base > 0
    ensures i == 1 ==> SentAt(outcomes, took, base, overflow, i) == base
    ensures i > 1 ==>
              var last, delay := SentAt(outcomes, took, base, overflow, i - 1), DelayBehind(outcomes, base, overflow, i - 1);
              var ready := last + took[i - 1] + if delay.Some? && delay.value > 0 then delay.value else 0;
              && SentAt(outcomes, took, base, overflow, i) >= ready
              && Ticks(SentAt(outcomes, took, base, overflow, i), base) > Ticks(last, base)
              && (ready <= t < SentAt(outcomes, took, base, overflow, i) ==> Ticks(t, base) == Ticks(last, base))
  {
    hide DelayBehind;
    if i == 1 {
    } else {
      hide Ticks, NextTick;
      var last := SentAt(outcomes, took, base, overflow, i - 1);
      var ready := last + took[i - 1] + Wait(DelayBehind(outcomes, base, overflow, i - 1));
      ReceiveTakesATick(ready, last, base);
      TicksGrow(last, ready, base);
      if ready <= t < NextTick(ready, base) {
        QuietUntilNextTick(ready, t, base);
      }
    }
  }

  /** heartbeatLoop over the outcomes of its attempts and how long each takes, the initial one first. */
  method HeartbeatLoop(outcomes: seq<bool>, took: seq<nat>, base: nat, overflow: int)
    returns (delays: seq<Option<int>>, sentAt: seq<nat>)
    requires |outcomes| > 0 && |took| == |outcomes| && base > 0
    ensures |delays| == |sentAt| == |outcomes| - 1
    ensures forall i :: 0 <= i < |delays| ==> delays[i] == DelayBehind(outcomes, base, overflow, i + 1)
    ensures forall i :: 0 <= i < |sentAt| ==> sentAt[i] == SentAt(outcomes, took, base, overflow, i + 1)
  {
    hide Receive, Delay, Trailing;
    TrailingNext(outcomes, 0);
    var consecutiveFailures := 0;
    delays, sentAt := [], [];
    if !outcomes[0] {
      consecutiveFailures := consecutiveFailures + 1;
    }
    var now: nat, last: nat := 0, 0;
    for i := 1 to |outcomes|
      invariant consecutiveFailures == Trailing(outcomes[..i])
      invariant |delays| == |sentAt| == i - 1
      invariant forall j :: 0 <= j < |delays| ==> delays[j] == DelayBehind(outcomes, base, overflow, j + 1)
      invariant forall j :: 0 <= j < |sentAt| ==> sentAt[j] == SentAt(outcomes, took, base, overflow, j + 1)
      invariant SentAt(outcomes, took, base, overflow, i) == Receive(now, last, base)
    {
      TrailingNext(outcomes, i);
      now := Receive(now, last, base);
      last := now;
      sentAt := sentAt + [now];
      now := now + took[i];
      if outcomes[i] {
        consecutiveFailures := 0;
        delays := delays + [None];
        continue;
      }
      consecutiveFailures := consecutiveFailures + 1;
      var backoff := BackoffDuration(consecutiveFailures, base, overflow);
      delays := delays + [Some(backoff)];
      now := now + Pause(backoff);
    }
  }

  /** identifyLoop over the outcomes of its attempts: it stops at the first success. */
  method IdentifyLoop(outcomes: seq<bool>, base: nat, overflow: int) returns (delays: seq<int>, identified: bool)
    ensures |delays| <= |outcomes|
    ensures forall i :: 0 <= i < |delays| ==> !outcomes[i] && delays[i] == Delay(i + 1, base, overflow)
    ensures if identified then |delays| < |outcomes| && outcomes[|delays|] else |delays| == |outcomes|
  {
    var consecutiveFailures := 0;
    delays := [];
    while consecutiveFailures < |outcomes|
      invariant consecutiveFailures == |delays| <= |outcomes|
      invariant forall i :: 0 <= i < |delays| ==> !outcomes[i] && delays[i] == Delay(i + 1, base, overflow)
    {
      if outcomes[consecutiveFailures] {
        return delays, true;
      }
      consecutiveFailures := consecutiveFailures + 1;
      var backoff := BackoffDuration(consecutiveFailures, base, overflow);
      delays := delays + [backoff];
    }
    identified := false;
  }
}
