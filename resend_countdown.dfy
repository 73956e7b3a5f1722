/** The `useCountdown` hook of src/hooks/use-countdown.ts, the cool-down
    before a code may be resent: a counter and an active flag. While the flag
    is up a one-second interval runs; each firing is a call of `Tick`. */
module ResendCountdown {

  /** The counter and the flag together. */
  datatype Timer = Timer(countdown: int, isActive: bool)

  /** One firing of the interval, as the state updater computes it: counting
      down by one, or to 0 and inactive once the counter is at 1 or below.
      No interval runs while the timer is inactive, so nothing changes then. */
  function Step(t: Timer): (r: Timer)
    ensures !t.isActive ==> r == t
    ensures t.isActive ==> r.countdown >= 0
    ensures t.isActive && t.countdown > 0 ==> r.countdown < t.countdown
    ensures t.isActive && t.countdown <= 0 ==> r.countdown == 0
    ensures t.isActive ==> (r.isActive <==> t.countdown > 1)
  {
    if !t.isActive then t
    else if t.countdown <= 1 then Timer(0, false)
    else Timer(t.countdown - 1, true)
  }

  /** `k` firings in a row. */
  function Steps(t: Timer, k: nat): Timer
    decreases k
  {
    if k == 0 then t else Steps(Step(t), k - 1)
  }

  /** Started at `n`, the timer shows `n - k` after `k < n` firings and is
      still running. */
  lemma {:induction false} CountsDown(n: int, k: nat)
    requires k < n
    ensures Steps(Timer(n, true), k) == Timer(n - k, true)
  {
    if k > 0 {
      assert Step(Timer(n, true)) == Timer(n - 1, true);
      CountsDown(n - 1, k - 1);
    }
  }

  /** Started at `n >= 1`, it reaches 0 and stops after exactly `n` firings,
      and stays there. */
  lemma {:induction false} StopsAtZero(n: int, extra: nat)
    requires n >= 1
    ensures Steps(Timer(n, true), n as nat + extra) == Timer(0, false)
  {
    StepsAdd(Timer(n, true), (n - 1) as nat, 1 + extra);
    CountsDown(n, (n - 1) as nat);
    assert Step(Timer(1, true)) == Timer(0, false);
    StaysStopped(Timer(0, false), extra);
  }

  lemma {:induction false} StepsAdd(t: Timer, a: nat, b: nat)
    ensures Steps(t, a + b) == Steps(Steps(t, a), b)
    decreases a
  {
    if a > 0 {
      StepsAdd(Step(t), a - 1, b);
    }
  }

  /** An inactive timer never changes. */
  lemma {:induction false} StaysStopped(t: Timer, k: nat)
    requires !t.isActive
    ensures Steps(t, k) == t
  {
    if k > 0 {
      StaysStopped(Step(t), k - 1);
    }
  }

  /** The parameter's default. */
  const DefaultInitialTime := 60

  class CountdownHook {
    const initialTime: int
    var countdown: int
    var isActive: bool

    /** `useCountdown(initialTime)`: the full count, not running. */
    constructor (initialTime: int := DefaultInitialTime)
      ensures this.initialTime == initialTime
      ensures countdown == initialTime && !isActive
    {
      this.initialTime := initialTime;
      countdown := initialTime;
      isActive := false;
    }

    /** One second passing: only a running timer has an interval that fires. */
    method Tick()
      modifies this
      ensures Timer(countdown, isActive) == Step(old(Timer(countdown, isActive)))
    {
      if isActive {
        if countdown <= 1 {
          isActive := false;
          countdown := 0;
        } else {
          countdown := countdown - 1;
        }
      }
    }

    /** `startCountdown`: back to the full count and running, whatever the
        state was. */
    method StartCountdown()
      modifies this
      ensures countdown == initialTime && isActive
    {
      countdown := initialTime;
      isActive := true;
    }
  }
}
