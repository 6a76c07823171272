/**
 * CountdownTimer: a check that reads the clock only every 100 calls and,
 * once it has seen the time limit passed, stays expired until restarted.
 * The stopwatch's elapsed milliseconds are an input of each check.
 */
module Countdown {

  /** TIMELIMIT: 1000 / 20 milliseconds. */
  const TIMELIMIT: int := 1000 / 20

  /** The number of checks between two readings of the clock. */
  const PERIOD: nat := 100

  /** One CheckExpired on countdown c, with the clock showing `elapsed`: the new countdown and the answer. */
  function Tick(c: nat, elapsed: int): (nat, bool)
  {
    if c == 0 then (0, true)
    else if c - 1 == 0 then (if elapsed > TIMELIMIT then (0, true) else (PERIOD, false))
    else (c - 1, false)
  }

  /** The answers of a run of checks from countdown c, the clock showing es[i] at the i-th. */
  function Answers(c: nat, es: seq<int>): (r: seq<bool>)
    ensures |r| == |es|
    decreases |es|
  {
    if es == [] then [] else [Tick(c, es[0]).1] + Answers(Tick(c, es[0]).0, es[1..])
  }

  /** The countdown after a run of checks. */
  function After(c: nat, es: seq<int>): nat
    decreases |es|
  {
    if es == [] then c else After(Tick(c, es[0]).0, es[1..])
  }

  /** A check answers true exactly when it leaves the countdown at 0; the countdown never exceeds PERIOD. */
  lemma TickExact(c: nat, elapsed: int)
    requires c <= PERIOD
    ensures Tick(c, elapsed).1 <==> Tick(c, elapsed).0 == 0
    ensures Tick(c, elapsed).0 <= PERIOD
  {
  }

  /** Expiry is sticky: from countdown 0 every check answers true, whatever the clock says. */
  lemma {:induction false} Sticky(es: seq<int>)
    ensures forall i :: 0 <= i < |es| ==> Answers(0, es)[i]
    ensures After(0, es) == 0
    decreases |es|
  {
    if es != [] {
      Sticky(es[1..]);
      assert forall i :: 1 <= i < |es| ==> Answers(0, es)[i] == Answers(0, es[1..])[i - 1];
    }
  }

  /** The clock is read only by the check that brings the countdown to 0: any other check ignores it. */
  lemma ClockReadOnlyAtZero(c: nat, e1: int, e2: int)
    requires c != 1
    ensures Tick(c, e1) == Tick(c, e2)
  {
  }

  /** Before the countdown reaches 1, checks answer false and only count down. */
  lemma {:induction false} CountsDown(c: nat, es: seq<int>)
    requires |es| < c
    ensures forall i :: 0 <= i < |es| ==> !Answers(c, es)[i]
    ensures After(c, es) == c - |es|
    decreases |es|
  {
    if es != [] {
      CountsDown(c - 1, es[1..]);
      assert forall i :: 1 <= i < |es| ==> Answers(c, es)[i] == Answers(c - 1, es[1..])[i - 1];
    }
  }

  /**
   * After Restart, the PERIOD-th check is the one that reads the clock:
   * the ones before it answer false, and it answers whether the limit is passed.
   */
  lemma RestartReadsAtPeriod(es: seq<int>)
    requires |es| == PERIOD
    ensures forall i :: 0 <= i < PERIOD - 1 ==> !Answers(PERIOD, es)[i]
    ensures Answers(PERIOD, es)[PERIOD - 1] <==> es[PERIOD - 1] > TIMELIMIT
  {
    var pre := es[..PERIOD - 1];
    CountsDown(PERIOD, pre);
    AnswersAppend(PERIOD, pre, es[PERIOD - 1..]);
    assert es == pre + es[PERIOD - 1..];
  }

  lemma {:induction false} AnswersAppend(c: nat, a: seq<int>, b: seq<int>)
    ensures Answers(c, a + b) == Answers(c, a) + Answers(After(c, a), b)
    decreases |a|
  {
    if a != [] {
      assert (a + b)[1..] == a[1..] + b;
      AnswersAppend(Tick(c, a[0]).0, a[1..], b);
    } else {
      assert a + b == b;
    }
  }

  /** CountdownTimer; the stopwatch it extends is the clock, read through CheckExpired's argument. */
  class CountdownTimer {
    var countdown: nat

    ghost predicate Valid()
      reads this
    {
      countdown <= PERIOD
    }

    constructor ()
      ensures Valid() && countdown == PERIOD
    {
      countdown := PERIOD;
    }

    /** CheckExpired, the clock showing `elapsedMs`. */
    method CheckExpired(elapsedMs: int) returns (r: bool)
      requires Valid()
      modifies this
      ensures Valid()
      ensures (countdown, r) == Tick(old(countdown), elapsedMs)
    {
      if countdown == 0 {
        return true;
      }
      countdown := countdown - 1;
      if countdown == 0 {
        if elapsedMs > TIMELIMIT {
          return true;
        }
        countdown := PERIOD;
      }
      r := false;
    }

    /** The IsExpired getter: the countdown has run out, so every further check answers true. */
    function IsExpired(): (r: bool)
      reads this
      ensures r ==> forall e :: Tick(countdown, e) == (0, true)
    {
      countdown == 0
    }

    /** The IsExpired setter (whatever value is assigned): forces the expired state. */
    method SetExpired()
      modifies this
      ensures countdown == 0 && IsExpired()
    {
      countdown := 0;
    }

    /** Restart: a full period before the clock is read again. */
    method Restart()
      modifies this
      ensures Valid() && countdown == PERIOD && !IsExpired()
    {
      countdown := PERIOD;
    }
  }
}
