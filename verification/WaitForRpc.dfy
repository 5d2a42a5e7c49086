/**
 waitForRpc: poll a port until it answers. Replies, their delays, the lateness of the retry timer and the moment of
 shutdown are arbitrary; the clock starts at 0 and never runs backwards, and a retry starts 1000 ms or more after a
 failure.
 */
module WaitForRpc {

  const INTERVAL: nat := 1000

  /** Attempt k: is it answered, after how long, how late does the retry after it start, is shutdown set before it. */
  datatype Port = Port(answers: nat -> bool, delay: nat -> nat, lateness: nat -> nat, shutDown: nat -> bool)

  datatype Outcome = Resolved | TimedOut | ShutDown

  /** When attempt k starts, if it does. */
  function StartTime(port: Port, k: nat): nat
    decreases k, 0
  {
    if k == 0 then 0 else ReplyTime(port, k - 1) + INTERVAL + port.lateness(k - 1)
  }

  /** When the outcome of attempt k is observed. */
  function ReplyTime(port: Port, k: nat): nat
    decreases k, 1
  {
    StartTime(port, k) + port.delay(k)
  }

  lemma {:induction false} EachTakesASecond(port: Port, k: nat)
    ensures StartTime(port, k) >= INTERVAL * k
    ensures (forall i: nat :: port.delay(i) == 0 && port.lateness(i) == 0) ==> StartTime(port, k) == INTERVAL * k
  {
    if k > 0 { EachTakesASecond(port, k - 1); }
  }

  function Total(f: nat -> nat, n: nat): nat {
    if n == 0 then 0 else Total(f, n - 1) + f(n - 1)
  }

  /** Attempt k is answered after all delays up to its own, all late timers before it, and k pauses of 1000 ms. */
  lemma {:induction false} ReplyTimeSum(port: Port, k: nat)
    ensures StartTime(port, k) == Total(port.delay, k) + Total(port.lateness, k) + 1000 * k
    ensures ReplyTime(port, k) == Total(port.delay, k + 1) + Total(port.lateness, k) + 1000 * k
  {
    if k > 0 { ReplyTimeSum(port, k - 1); }
  }

  /** Attempt k fails and another is due: no answer, observed in time. */
  predicate Retries(port: Port, maxMs: nat, k: nat) {
    !port.answers(k) && ReplyTime(port, k) <= maxMs
  }

  /**
   It resolves only on an answer, gives up only on a failure observed past maxMs or on shutdown,
   and starts no attempt after either.
   */
  ghost predicate Meets(port: Port, maxMs: nat, outcome: Outcome, attempts: nat) {
    && (forall k :: 0 <= k < attempts ==> !port.shutDown(k))
    && (outcome == ShutDown ==> port.shutDown(attempts) && forall k :: 0 <= k < attempts ==> Retries(port, maxMs, k))
    && (outcome != ShutDown ==> attempts > 0 && forall k :: 0 <= k < attempts - 1 ==> Retries(port, maxMs, k))
    && (outcome == Resolved ==> port.answers(attempts - 1))
    && (outcome == TimedOut ==> !port.answers(attempts - 1) && ReplyTime(port, attempts - 1) > maxMs)
  }

  method Wait(port: Port, maxMs: nat) returns (outcome: Outcome, attempts: nat)
    ensures Meets(port, maxMs, outcome, attempts)
    ensures attempts <= maxMs / 1000 + 2
  {
    var now := 0;
    attempts := 0;
    while true
      invariant now == StartTime(port, attempts)
      invariant forall k :: 0 <= k < attempts ==> Retries(port, maxMs, k) && !port.shutDown(k)
      invariant attempts <= maxMs / INTERVAL + 1
      decreases maxMs / INTERVAL + 1 - attempts
    {
      if port.shutDown(attempts) { return ShutDown, attempts; }
      var k := attempts;
      attempts := attempts + 1;
      now := now + port.delay(k);
      if port.answers(k) { return Resolved, attempts; }
      if now > maxMs { return TimedOut, attempts; }
      EachTakesASecond(port, k);
      now := now + INTERVAL + port.lateness(k);
    }
  }

  /** These conditions determine the result. */
  lemma {:induction false} ResultDetermined(
    port: Port, maxMs: nat, outcome: Outcome, attempts: nat, outcome': Outcome, attempts': nat)
    requires Meets(port, maxMs, outcome, attempts) && Meets(port, maxMs, outcome', attempts')
    ensures outcome == outcome' && attempts == attempts'
  {
    NotFewer(port, maxMs, outcome, attempts, outcome', attempts');
    NotFewer(port, maxMs, outcome', attempts', outcome, attempts);
    assert outcome == ShutDown && outcome' != ShutDown ==> Retries(port, maxMs, attempts - 1);
    assert outcome' == ShutDown && outcome != ShutDown ==> Retries(port, maxMs, attempts - 1);
  }

  lemma {:induction false} NotFewer(
    port: Port, maxMs: nat, outcome: Outcome, attempts: nat, outcome': Outcome, attempts': nat)
    requires Meets(port, maxMs, outcome, attempts) && Meets(port, maxMs, outcome', attempts')
    ensures attempts >= attempts'
  {
    assert attempts < attempts' && outcome != ShutDown ==> Retries(port, maxMs, attempts - 1);
  }

  /** The bound is reached: a port that never answers and never delays gets exactly that many attempts. */
  lemma {:induction false} BoundIsReached(port: Port, maxMs: nat, outcome: Outcome, attempts: nat)
    requires forall i: nat :: !port.answers(i) && port.delay(i) == 0 && port.lateness(i) == 0 && !port.shutDown(i)
    requires Meets(port, maxMs, outcome, attempts)
    ensures outcome == TimedOut && attempts == maxMs / 1000 + 2
  {
    assert outcome == TimedOut;
    EachTakesASecond(port, attempts - 1);
    if attempts > 1 {
      EachTakesASecond(port, attempts - 2);
      assert Retries(port, maxMs, attempts - 2);
    }
  }
}
