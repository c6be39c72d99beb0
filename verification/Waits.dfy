/** Polling an operation until it is over or the deadline has passed. */
module Waits {
  import opened Errors
  import opened Numbers

  /** The two kinds of operation that can be waited for. */
  datatype Kind = MessageOperation | SenderPoolOperation

  predicate IsTerminal(kind: Kind, status: string) {
    status == "COMPLETED" || status == "CANCELED" || (kind.SenderPoolOperation? && status == "FAILED")
  }

  /** A message operation cannot fail for good, one on a sender pool can. */
  lemma TerminalExactly(status: string)
    ensures IsTerminal(MessageOperation, status) <==> status in ["COMPLETED", "CANCELED"]
    ensures IsTerminal(SenderPoolOperation, status) <==> status in ["COMPLETED", "CANCELED", "FAILED"]
  {
  }

  /**
   * The world around the loop: what the `k`-th poll returns and how long it takes,
   * and how much longer than asked the sleep after it is. The clock only moves on.
   */
  datatype World = World(kind: Kind, fetch: nat -> Result<string>, fetchTime: nat -> nat, overSleep: nat -> nat)

  /** The time since the start when the clock is read after poll `k`. */
  function TimeAfter(w: World, interval: nat, timeout: nat, k: nat): nat
    decreases k, 0
  {
    if k == 0 then w.fetchTime(0) else
    var slept := SleepAfter(w, interval, timeout, k - 1) + w.overSleep(k - 1);
    TimeAfter(w, interval, timeout, k - 1) + slept + w.fetchTime(k)
  }

  /** The sleep that follows poll `k`: not beyond the deadline. */
  function SleepAfter(w: World, interval: nat, timeout: nat, k: nat): (s: nat)
    ensures s <= interval
    decreases k, 1
  {
    var now := TimeAfter(w, interval, timeout, k);
    if now >= timeout then 0 else Min(interval, timeout - now)
  }

  /** Poll `k` is not the last one. */
  predicate PollsOn(w: World, interval: nat, timeout: nat, k: nat) {
    w.fetch(k).Ok? && !IsTerminal(w.kind, w.fetch(k).value) && TimeAfter(w, interval, timeout, k) < timeout
  }

  /** One poll more than intervals fit into the timeout, rounded up. */
  function MaxPolls(interval: nat, timeout: nat): nat {
    if interval == 0 then 0 else (timeout + interval - 1) / interval + 1
  }

  /** A sleep at time `now` that is not empty: a whole interval, or the time left. */
  predicate IsFitting(interval: nat, timeout: nat, now: nat, sleep: nat) {
    0 < sleep <= interval && now + sleep <= timeout && (sleep == interval || now + sleep == timeout)
  }

  method Wait(w: World, interval: nat, timeout: nat) returns (r: Result<string>, polls: nat, sleeps: seq<nat>)
    ensures interval == 0 || timeout == 0 ==> r == Err(InvalidRequest) && polls == 0 && sleeps == []
    ensures interval > 0 && timeout > 0 ==>
      && polls > 0
      && (forall k | 0 <= k < polls - 1 :: PollsOn(w, interval, timeout, k))
      && !PollsOn(w, interval, timeout, polls - 1)
      && |sleeps| == polls - 1
      && forall k | 0 <= k < polls - 1 :: sleeps[k] == SleepAfter(w, interval, timeout, k)
    // every poll but the last finds an operation that is not over, before the deadline
    ensures forall k | 0 <= k < polls - 1 ::
      w.fetch(k).Ok? && !IsTerminal(w.kind, w.fetch(k).value) && TimeAfter(w, interval, timeout, k) < timeout
    // a failed poll is returned as it is, and so is a terminal status; else the deadline has passed
    ensures polls > 0 && w.fetch(polls - 1).Err? ==> r == w.fetch(polls - 1)
    ensures polls > 0 && w.fetch(polls - 1).Ok? && IsTerminal(w.kind, w.fetch(polls - 1).value) ==> r == w.fetch(polls - 1)
    ensures polls > 0 && w.fetch(polls - 1).Ok? && !IsTerminal(w.kind, w.fetch(polls - 1).value) ==>
      r == Err(OperationTimeout) && TimeAfter(w, interval, timeout, polls - 1) >= timeout
    // each sleep is a whole interval or the time that is left, and none is empty
    ensures forall k | 0 <= k < |sleeps| :: IsFitting(interval, timeout, TimeAfter(w, interval, timeout, k), sleeps[k])
    // success means a terminal status
    ensures r.Ok? ==> polls > 0 && w.fetch(polls - 1) == r && IsTerminal(w.kind, r.value)
    ensures polls <= MaxPolls(interval, timeout)
  {
    hide IsTerminal, TimeAfter, SleepAfter, MaxPolls, IsFitting;
    polls, sleeps := 0, [];
    if interval == 0 || timeout == 0 {
      r := Err(InvalidRequest);
      return;
    }
    var now := 0;
    Starts(w, interval, timeout);
    while true
      invariant now + w.fetchTime(polls) == TimeAfter(w, interval, timeout, polls)
      invariant |sleeps| == polls
      invariant forall k | 0 <= k < polls :: IsFitting(interval, timeout, TimeAfter(w, interval, timeout, k), sleeps[k])
      invariant forall k | 0 <= k < polls :: PollsOn(w, interval, timeout, k)
      invariant forall k | 0 <= k < polls :: sleeps[k] == SleepAfter(w, interval, timeout, k)
      invariant polls > 0 ==> now > TimeAfter(w, interval, timeout, polls - 1)
      decreases if now >= timeout then 0 else timeout - now, if polls == 0 then 1 else 0
    {
      var operation := w.fetch(polls);
      now := now + w.fetchTime(polls);
      polls := polls + 1;
      PollsAreBounded(w, interval, timeout, polls);
      PollsSoFar(w, interval, timeout, polls - 1);
      if operation.Err? || IsTerminal(w.kind, operation.value) {
        r := operation;
        return;
      }
      if now >= timeout {
        r := Err(OperationTimeout);
        return;
      }
      var sleep := Min(interval, timeout - now);
      Moves(w, interval, timeout, polls - 1);
      Fits(interval, timeout, now);
      now := now + sleep + w.overSleep(polls - 1);
      sleeps := sleeps + [sleep];
    }
  }

  lemma PollsSoFar(w: World, interval: nat, timeout: nat, n: nat)
    requires forall k | 0 <= k < n :: PollsOn(w, interval, timeout, k)
    ensures forall k | 0 <= k < n ::
      w.fetch(k).Ok? && !IsTerminal(w.kind, w.fetch(k).value) && TimeAfter(w, interval, timeout, k) < timeout
  {
    hide TimeAfter, IsTerminal;
    forall k | 0 <= k < n
      ensures w.fetch(k).Ok? && !IsTerminal(w.kind, w.fetch(k).value) && TimeAfter(w, interval, timeout, k) < timeout
    {
      assert PollsOn(w, interval, timeout, k);
    }
  }

  lemma Starts(w: World, interval: nat, timeout: nat)
    ensures TimeAfter(w, interval, timeout, 0) == w.fetchTime(0)
  {
  }

  lemma Fits(interval: nat, timeout: nat, now: nat)
    requires 0 < interval && now < timeout
    ensures IsFitting(interval, timeout, now, Min(interval, timeout - now))
  {
  }

  lemma Moves(w: World, interval: nat, timeout: nat, k: nat)
    ensures TimeAfter(w, interval, timeout, k + 1)
      == TimeAfter(w, interval, timeout, k) + SleepAfter(w, interval, timeout, k) + w.overSleep(k) + w.fetchTime(k + 1)
    ensures TimeAfter(w, interval, timeout, k) < timeout ==>
      SleepAfter(w, interval, timeout, k) == Min(interval, timeout - TimeAfter(w, interval, timeout, k))
  {
  }

  /** After `k` sleeps either `k` whole intervals or the timeout have passed. */
  lemma {:induction false} TimeGrows(w: World, interval: nat, timeout: nat, k: nat)
    ensures TimeAfter(w, interval, timeout, k) >= Min(k * interval, timeout)
  {
    if k > 0 {
      TimeGrows(w, interval, timeout, k - 1);
      assert k * interval == (k - 1) * interval + interval;
    }
  }

  /** The number of polls is bounded by the intervals that fit into the timeout. */
  lemma PollsAreBounded(w: World, interval: nat, timeout: nat, polls: nat)
    requires interval > 0 && polls > 0
    requires forall k | 0 <= k < polls - 1 :: PollsOn(w, interval, timeout, k)
    ensures polls <= MaxPolls(interval, timeout) == (timeout + interval - 1) / interval + 1
  {
    hide TimeAfter;
    var most := (timeout + interval - 1) / interval;
    assert most * interval >= timeout by {
      assert timeout + interval - 1 == most * interval + (timeout + interval - 1) % interval;
    }
    TimeGrows(w, interval, timeout, most);
    assert !PollsOn(w, interval, timeout, most);
  }
}
