/** The rest countdown started after every saved set: a one-second interval whose callback
    updates the remaining seconds and stops the interval when it reaches the end. */
module RestTimer {
  import opened Types

  /** Seconds of rest a saved set starts. */
  const RestSeconds: nat := 60

  /** The state updater the interval runs each second: 1 goes to "no countdown",
      anything else counts down by one (an absent value is read as 1). */
  function NextRest(prev: Option<int>): (r: Option<int>)
    ensures prev == Some(1) <==> r == None
    ensures prev.Some? && prev.value != 1 ==> r == Some(prev.value - 1)
    ensures prev.None? ==> r == Some(0)
  {
    if prev == Some(1) then None
    else Some((if prev.Some? then prev.value else 1) - 1)
  }

  /** The remaining rest time together with whether the interval is still scheduled. */
  datatype Countdown = Countdown(rest: Option<int>, running: bool)

  /** A fresh countdown, as every saved set starts it (the previous interval is cancelled). */
  function Started(): (r: Countdown)
  {
    Countdown(Some(RestSeconds), true)
  }

  /** One second passes. A stopped interval fires nothing; a running one applies the updater
      and clears itself when it moved 1 to "no countdown". */
  function Tick(c: Countdown): (r: Countdown)
    ensures !c.running ==> r == c
    ensures c.running ==> r.rest == NextRest(c.rest)
    ensures r.running <==> c.running && c.rest != Some(1)
  {
    if !c.running then c else Countdown(NextRest(c.rest), c.rest != Some(1))
  }

  /** The countdown after `k` seconds. An interval that has cleared itself is never
      scheduled again. */
  function After(c: Countdown, k: nat): (r: Countdown)
    ensures r.running ==> c.running
    decreases k
  {
    if k == 0 then c else After(Tick(c), k - 1)
  }

  /** Once the interval is cleared, nothing changes any more. */
  lemma {:induction false} StoppedStaysStopped(c: Countdown, k: nat)
    requires !c.running
    ensures After(c, k) == c
  {
    if k > 0 {
      StoppedStaysStopped(Tick(c), k - 1);
    }
  }

  /** From `n` remaining seconds the display reads n - k after k < n seconds, and after n
      seconds the countdown is gone and its interval cleared for good. */
  lemma {:induction false} CountsDownFrom(n: nat, k: nat)
    requires n >= 1
    ensures After(Countdown(Some(n), true), k)
            == if k < n then Countdown(Some(n - k), true) else Countdown(None, false)
  {
    if k > 0 {
      if n == 1 {
        StoppedStaysStopped(Countdown(None, false), k - 1);
      } else {
        CountsDownFrom(n - 1, k - 1);
      }
    }
  }

  /** The rest period after a saved set: 60 - k seconds shown after k < 60 ticks, and no
      countdown (with the interval stopped) from the 60th tick on. */
  lemma RestPeriod(k: nat)
    ensures After(Started(), k)
            == if k < RestSeconds then Countdown(Some(RestSeconds - k), true) else Countdown(None, false)
  {
    CountsDownFrom(RestSeconds, k);
  }
}
