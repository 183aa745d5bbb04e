/**
 * The send pacer (src/main.rs, `Pacer`): a token bucket that, when it lacks tokens, sleeps
 * until it would be full. Times are in seconds and arithmetic is over the reals; a sleep
 * lasts at least as long as was asked for.
 */
module Pacing {
  import opened Bytes

  const MIN_CAPACITY: real := 1392.0 // HEADER + SHARD + TAG
  const LARGEST_V3_FRAME: nat := 1419 // SHARD and the 79 bytes a V3 frame adds

  datatype Bucket = Bucket(rate: real, capacity: real, tokens: real, updated: real)

  datatype RateError = RateOutOfRange

  function MaxR(a: real, b: real): real { if a < b then b else a }

  function MinR(a: real, b: real): real { if a < b then a else b }

  function Capacity(rateMbps: real): real {
    MaxR(rateMbps * 125_000.0 * 0.004, MIN_CAPACITY)
  }

  function NewBucket(rateMbps: real, now: real): Result<Bucket, RateError> {
    if rateMbps < 1.0 || rateMbps > 1000.0 then Err(RateOutOfRange)
    else Ok(Bucket(rateMbps * 125_000.0, Capacity(rateMbps), Capacity(rateMbps), now))
  }

  /** One `wait(bytes)`: called at `now`, and, if it sleeps, awake again at `wake`. */
  datatype Call = Call(now: real, wake: real, bytes: nat)

  function Refilled(p: Bucket, now: real): real {
    MinR(p.tokens + (now - p.updated) * p.rate, p.capacity)
  }

  predicate Sleeps(p: Bucket, c: Call) { Refilled(p, c.now) < c.bytes as real }

  function Delay(p: Bucket, now: real): real
    requires p.rate > 0.0
  {
    (p.capacity - Refilled(p, now)) / p.rate
  }

  function WaitStep(p: Bucket, c: Call): Bucket {
    if Sleeps(p, c) then p.(tokens := p.capacity - c.bytes as real, updated := c.wake)
    else p.(tokens := Refilled(p, c.now) - c.bytes as real, updated := c.now)
  }

  /** The clock does not run backwards, and sleeping takes at least the delay asked for. */
  predicate Timed(p: Bucket, c: Call)
    requires p.rate > 0.0
  {
    p.updated <= c.now && (Sleeps(p, c) ==> c.now + Delay(p, c.now) <= c.wake)
  }

  class Pacer {
    const rate: real
    const capacity: real
    var tokens: real
    var updated: real

    function State(): Bucket
      reads this
    {
      Bucket(rate, capacity, tokens, updated)
    }

    constructor (rateMbps: real, now: real)
      requires 1.0 <= rateMbps <= 1000.0
      ensures NewBucket(rateMbps, now) == Ok(State()) && rate > 0.0
    {
      rate := rateMbps * 1_000_000.0 / 8.0;
      capacity := MaxR(rateMbps * 1_000_000.0 / 8.0 * 0.004, MIN_CAPACITY);
      tokens := MaxR(rateMbps * 1_000_000.0 / 8.0 * 0.004, MIN_CAPACITY);
      updated := now;
    }

    /**
     * `now` and `wake` are what the clock reads on entry and after the sleep, if any;
     * `delay` is the sleep asked for.
     */
    method Wait(bytes: nat, now: real, wake: real) returns (delay: real)
      requires rate > 0.0
      modifies this`tokens, this`updated
      ensures Sleeps(old(State()), Call(now, wake, bytes)) ==> delay == Delay(old(State()), now)
      ensures !Sleeps(old(State()), Call(now, wake, bytes)) ==> delay == 0.0
      ensures State() == WaitStep(old(State()), Call(now, wake, bytes))
    {
      ghost var before := State();
      tokens := MinR(tokens + (now - updated) * rate, capacity);
      updated := now;
      assert tokens == Refilled(before, now);
      var needed := bytes as real;
      delay := 0.0;
      if tokens < needed {
        delay := (capacity - tokens) / rate;
        updated := wake;
        tokens := capacity;
      }
      tokens := tokens - needed;
    }
  }

  // ----- Runs -----

  ghost function Run(p: Bucket, calls: seq<Call>): Bucket {
    if calls == [] then p else WaitStep(Run(p, calls[..|calls| - 1]), calls[|calls| - 1])
  }

  lemma {:induction false} RunKeepsShape(p: Bucket, calls: seq<Call>)
    ensures Run(p, calls).rate == p.rate && Run(p, calls).capacity == p.capacity
  {
    if calls != [] { RunKeepsShape(p, calls[..|calls| - 1]); }
  }

  ghost predicate Valid(p: Bucket) { p.rate > 0.0 && p.capacity > 0.0 && p.tokens <= p.capacity }

  ghost predicate TimedRun(p: Bucket, calls: seq<Call>)
    requires p.rate > 0.0
  {
    forall i :: 0 <= i < |calls| ==>
      (RunKeepsShape(p, calls[..i]); Timed(Run(p, calls[..i]), calls[i]))
  }

  /** When the frame of call `i` goes out. */
  ghost function ReleaseTime(p: Bucket, calls: seq<Call>, i: nat): real
    requires i < |calls|
  {
    Run(p, calls[..i + 1]).updated
  }

  function Released(calls: seq<Call>): nat {
    if calls == [] then 0 else Released(calls[..|calls| - 1]) + calls[|calls| - 1].bytes
  }

  /** However it is paid for, a frame's tokens were earned since the previous release. */
  lemma StepEarns(p: Bucket, c: Call)
    requires Valid(p) && Timed(p, c)
    ensures
      var p' := WaitStep(p, c);
      && Valid(p')
      && p'.updated >= p.updated
      && p'.tokens + c.bytes as real <= p.tokens + (p'.updated - p.updated) * p.rate
      && p'.tokens + c.bytes as real <= p.capacity
      && p'.tokens >= MinR(0.0, p.capacity - c.bytes as real)
  {
    if Sleeps(p, c) {
      var d := Delay(p, c.now);
      assert d * p.rate == p.capacity - Refilled(p, c.now);
      assert d >= 0.0 by {
        if d < 0.0 { NegativeProduct(d, p.rate); }
      }
      ProductMonotone(d, c.wake - c.now, p.rate);
      assert (c.wake - p.updated) * p.rate == (c.wake - c.now) * p.rate + (c.now - p.updated) * p.rate;
    }
  }

  lemma NegativeProduct(a: real, b: real)
    requires a < 0.0 && b > 0.0
    ensures a * b < 0.0
  {
  }

  lemma ProductMonotone(a: real, b: real, c: real)
    requires a <= b && c > 0.0
    ensures a * c <= b * c
  {
  }

  lemma {:induction false} RunValid(p: Bucket, calls: seq<Call>, n: nat)
    requires Valid(p) && TimedRun(p, calls) && n <= |calls|
    ensures Valid(Run(p, calls[..n]))
  {
    if n > 0 {
      RunValid(p, calls, n - 1);
      assert calls[..n][..n - 1] == calls[..n - 1];
      RunKeepsShape(p, calls[..n - 1]);
      StepEarns(Run(p, calls[..n - 1]), calls[n - 1]);
    }
  }

  lemma StepAt(p: Bucket, calls: seq<Call>, i: nat)
    requires Valid(p) && TimedRun(p, calls) && i < |calls|
    ensures Run(p, calls[..i + 1]) == WaitStep(Run(p, calls[..i]), calls[i])
    ensures Valid(Run(p, calls[..i])) && Timed(Run(p, calls[..i]), calls[i])
    ensures Run(p, calls[..i]).rate == p.rate && Run(p, calls[..i]).capacity == p.capacity
  {
    assert calls[..i + 1][..i] == calls[..i];
    RunValid(p, calls, i);
    RunKeepsShape(p, calls[..i]);
  }

  lemma SplitInterval(a: real, b: real, c: real, rate: real)
    ensures (c - a) * rate == (c - b) * rate + (b - a) * rate
  {
  }

  /** Bytes released by calls `i..j` against the tokens left after call `j`. */
  lemma {:induction false} Conformance(p: Bucket, calls: seq<Call>, i: nat, j: nat)
    requires Valid(p) && TimedRun(p, calls) && i <= j < |calls|
    ensures
      Released(calls[i..j + 1]) as real + Run(p, calls[..j + 1]).tokens <=
        p.capacity + (ReleaseTime(p, calls, j) - ReleaseTime(p, calls, i)) * p.rate
    decreases j - i
  {
    hide WaitStep, Run, Timed, TimedRun;
    StepAt(p, calls, j);
    StepEarns(Run(p, calls[..j]), calls[j]);
    assert calls[i..j + 1][..j - i] == calls[i..j];
    if i < j {
      Conformance(p, calls, i, j - 1);
      SplitInterval(ReleaseTime(p, calls, i), ReleaseTime(p, calls, j - 1), ReleaseTime(p, calls, j), p.rate);
    }
  }

  ghost predicate FramesAtMost(calls: seq<Call>, m: nat) {
    forall i :: 0 <= i < |calls| ==> calls[i].bytes <= m
  }

  /** Rate conformance over every interval of every run, for frames of at most `m` bytes. */
  lemma RateBound(p: Bucket, calls: seq<Call>, i: nat, j: nat, m: nat)
    requires Valid(p) && TimedRun(p, calls) && i <= j < |calls| && FramesAtMost(calls, m)
    ensures
      Released(calls[i..j + 1]) as real <=
        MaxR(p.capacity, m as real) + (ReleaseTime(p, calls, j) - ReleaseTime(p, calls, i)) * p.rate
    ensures MinR(0.0, p.capacity - m as real) <= Run(p, calls[..j + 1]).tokens <= p.capacity
  {
    StepAt(p, calls, j);
    StepEarns(Run(p, calls[..j]), calls[j]);
    Conformance(p, calls, i, j);
  }

  /** A pacer the constructor accepts starts valid. */
  lemma NewIsValid(rateMbps: real, now: real)
    ensures NewBucket(rateMbps, now).Ok? <==> 1.0 <= rateMbps <= 1000.0
    ensures NewBucket(rateMbps, now).Ok? ==> Valid(NewBucket(rateMbps, now).value)
  {
  }

  /**
   * The capacity floor is one V1 frame. A full V3 frame is larger, so the bucket covers it,
   * and never runs into debt, exactly from 2.838 Mbit/s up.
   */
  lemma LargestFrameFitsIff(rateMbps: real, now: real)
    requires 1.0 <= rateMbps <= 1000.0
    ensures
      var p := NewBucket(rateMbps, now).value;
      WaitStep(p, Call(now, now, LARGEST_V3_FRAME)).tokens >= 0.0 <==> rateMbps >= 2.838
  {
    assert rateMbps * 125_000.0 * 0.004 == rateMbps * 500.0;
  }
}
