/**
 * The redundancy controller (src/main.rs, `Adaptive`): an integer exponential average of
 * reported loss drives a parity level with hysteresis, a bypass above 30% loss, and slow
 * retirement while the path is idle.
 */
module AdaptiveControl {
  import opened Bytes

  const MAX_PARITY: nat := 4
  const FEC_BYPASS_LOSS_PPM: nat := 300_000
  const LOSS_SAMPLE_UNAVAILABLE: nat := U32_LIMIT - 1
  const U8_MAX: nat := 255

  type u32 = x: int | 0 <= x < 0x1_0000_0000

  datatype Control = Control(
    parity: nat, bad: nat, good: nat, lastLoss: u32, smoothed: u32,
    idle: nat, streak: nat, bypassed: bool)

  const DEFAULT_CONTROL: Control := Control(0, 0, 0, 0, 0, 0, 0, false)

  function Target(loss: u32): (t: nat)
    ensures t <= MAX_PARITY
  {
    if loss <= 9_999 then 0
    else if loss <= 49_999 then 1
    else if loss <= 99_999 then 2
    else if loss <= 199_999 then 3
    else 4
  }

  function SaturatingIncrement8(x: nat): nat { if x < U8_MAX then x + 1 else U8_MAX }

  function Smooth(s: u32, loss: u32): u32 { (3 * s + loss) / 4 }

  function IdleStep(c: Control): Control {
    var idle := SaturatingIncrement8(c.idle);
    if idle < 15 then c.(idle := idle)
    else
      var parity := SaturatingSub(c.parity, 1);
      if parity == 0 then c.(idle := 0, parity := 0, smoothed := 0, lastLoss := 0)
      else c.(idle := 0, parity := parity)
  }

  function Follow(c: Control, target: nat): Control {
    if target > c.parity then
      if c.bad + 1 >= 2 then c.(bad := 0, good := 0, parity := Min(c.parity + 1, MAX_PARITY))
      else c.(bad := c.bad + 1, good := 0)
    else if target < c.parity then
      var bad := SaturatingSub(c.bad, 1);
      if c.good + 1 >= 15 then c.(bad := bad, good := 0, parity := c.parity - 1)
      else c.(bad := bad, good := c.good + 1)
    else c.(bad := SaturatingSub(c.bad, 1), good := 0)
  }

  /** `Adaptive::report` as a function of the old state. */
  function Step(c: Control, loss: u32): Control {
    if loss == LOSS_SAMPLE_UNAVAILABLE then IdleStep(c)
    else
      var c1 := c.(idle := 0, lastLoss := loss, smoothed := Smooth(c.smoothed, loss));
      if loss >= FEC_BYPASS_LOSS_PPM then
        var c2 := c1.(streak := SaturatingIncrement8(c1.streak), good := 0);
        if c2.streak >= 3 then c2.(parity := 0, bad := 0, bypassed := true) else c2
      else
        var c2 := c1.(streak := 0);
        var target := Target(c2.smoothed);
        if c2.bypassed then c2.(parity := target, bad := 0, good := 0, bypassed := false)
        else Follow(c2, target)
  }

  class Adaptive {
    var parity: nat
    var bad: nat
    var good: nat
    var lastLoss: u32
    var smoothed: u32
    var unavailableReports: nat
    var bypassStreak: nat
    var bypassed: bool

    function State(): Control
      reads this
    {
      Control(parity, bad, good, lastLoss, smoothed, unavailableReports, bypassStreak, bypassed)
    }

    constructor ()
      ensures State() == DEFAULT_CONTROL
    {
      parity, bad, good := 0, 0, 0;
      lastLoss, smoothed := 0, 0;
      unavailableReports, bypassStreak, bypassed := 0, 0, false;
    }

    method Report(loss: u32)
      modifies this
      ensures State() == Step(old(State()), loss)
    {
      if loss == LOSS_SAMPLE_UNAVAILABLE {
        unavailableReports := SaturatingIncrement8(unavailableReports);
        if unavailableReports >= 15 {
          parity := SaturatingSub(parity, 1);
          unavailableReports := 0;
          if parity == 0 {
            smoothed := 0;
            lastLoss := 0;
          }
        }
        return;
      }
      unavailableReports := 0;
      lastLoss := loss;
      smoothed := (smoothed * 3 + loss) / 4;
      if loss >= FEC_BYPASS_LOSS_PPM {
        bypassStreak := SaturatingIncrement8(bypassStreak);
        good := 0;
        if bypassStreak >= 3 {
          parity := 0;
          bad := 0;
          bypassed := true;
        }
        return;
      }
      bypassStreak := 0;
      var target := Target(smoothed);
      if bypassed {
        parity := Min(target, MAX_PARITY);
        bad := 0;
        good := 0;
        bypassed := false;
        return;
      }
      if target > parity {
        bad := bad + 1;
        good := 0;
        if bad >= 2 {
          parity := Min(parity + 1, MAX_PARITY);
          bad := 0;
        }
      } else if target < parity {
        good := good + 1;
        bad := SaturatingSub(bad, 1);
        if good >= 15 {
          parity := parity - 1;
          good := 0;
        }
      } else {
        bad := SaturatingSub(bad, 1);
        good := 0;
      }
    }
  }

  // ----- Invariants over every run -----

  function Run(c: Control, samples: seq<u32>): Control {
    if samples == [] then c else Step(Run(c, samples[..|samples| - 1]), samples[|samples| - 1])
  }

  /** Real samples at or above the bypass threshold since the last lower one; idle ones do not count. */
  function HighStreak(samples: seq<u32>): nat {
    if samples == [] then 0
    else
      var before, last := HighStreak(samples[..|samples| - 1]), samples[|samples| - 1];
      if last == LOSS_SAMPLE_UNAVAILABLE then before
      else if last >= FEC_BYPASS_LOSS_PPM then before + 1
      else 0
  }

  predicate Bounded(c: Control) {
    c.parity <= MAX_PARITY && c.bad <= 1 && c.good <= 14 && c.idle <= 14 && (c.bypassed ==> c.parity == 0)
  }

  /** Closed-loop bounds, and bypass is exactly "three high samples with no lower one since". */
  lemma {:induction false} ReachableControl(samples: seq<u32>)
    ensures
      var c := Run(DEFAULT_CONTROL, samples);
      && Bounded(c)
      && c.streak == Min(HighStreak(samples), U8_MAX)
      && (c.bypassed <==> HighStreak(samples) >= 3)
  {
    if samples != [] {
      ReachableControl(samples[..|samples| - 1]);
    }
  }

  /**
   * One more report after any run. In bypass parity is 0; the first lower sample after bypass
   * sets parity to the smoothed target at once; every other step moves parity by at most one.
   */
  lemma BypassHysteresis(samples: seq<u32>, loss: u32)
    ensures
      var c, c' := Run(DEFAULT_CONTROL, samples), Run(DEFAULT_CONTROL, samples + [loss]);
      var before, after := HighStreak(samples), HighStreak(samples + [loss]);
      && (after >= 3 ==> c'.parity == 0)
      && (before >= 3 && after < 3 ==> loss < FEC_BYPASS_LOSS_PPM && c'.parity == Target(c'.smoothed))
      && (before < 3 && after < 3 ==> c.parity - 1 <= c'.parity <= c.parity + 1)
      && (before >= 3 && after >= 3 ==> c.parity == c'.parity == 0)
  {
    var all := samples + [loss];
    assert all[..|all| - 1] == samples;
    ReachableControl(samples);
    ReachableControl(all);
  }

  // ----- Idle reports -----

  /** `c'` is `c` after `n` idle reports: one level less for every fifteenth. */
  predicate RetiredBy(c: Control, c': Control, n: nat) {
    && c'.parity == SaturatingSub(c.parity, (c.idle + n) / 15) && c'.idle == (c.idle + n) % 15
    && c'.bad == c.bad && c'.good == c.good && c'.streak == c.streak && c'.bypassed == c.bypassed
    && c'.smoothed == (if c'.parity == 0 && c.idle + n >= 15 then 0 else c.smoothed)
  }

  lemma OneMoreIdle(c: Control, c': Control, n: nat)
    requires c.idle <= 14 && RetiredBy(c, c', n)
    ensures RetiredBy(c, IdleStep(c'), n + 1)
  {
    var k := c.idle + n;
    assert ((k + 1) % 15 == 0 && (k + 1) / 15 == k / 15 + 1) || ((k + 1) % 15 == k % 15 + 1 && (k + 1) / 15 == k / 15);
  }

  /**
   * Idle reports alone retire one level every fifteen, whatever came before, and touch neither
   * the rise and fall counters nor the bypass; the average is dropped with the last level.
   */
  lemma {:induction false} IdleRetires(samples: seq<u32>, n: nat)
    ensures
      var c := Run(DEFAULT_CONTROL, samples);
      RetiredBy(c, Feed(c, LOSS_SAMPLE_UNAVAILABLE, n), n)
  {
    ReachableControl(samples);
    if n > 0 {
      hide RetiredBy, IdleStep;
      IdleRetires(samples, n - 1);
      var c := Run(DEFAULT_CONTROL, samples);
      OneMoreIdle(c, Feed(c, LOSS_SAMPLE_UNAVAILABLE, n - 1), n - 1);
    }
  }

  // ----- Convergence under constant loss -----

  function Feed(c: Control, loss: u32, n: nat): Control {
    if n == 0 then c else Step(Feed(c, loss, n - 1), loss)
  }

  /** Where the integer average comes to rest: it may stop up to three below the input. */
  function Limit(s: u32, loss: u32): u32 {
    if s >= loss then loss else if s + 3 >= loss then s else loss - 3
  }

  function Distance(s: u32, loss: u32): nat {
    if s >= Limit(s, loss) then s - Limit(s, loss) else Limit(s, loss) - s
  }

  /** One step keeps the limit and shrinks the distance to it by a factor of 3/4 or better. */
  lemma SmoothContracts(s: u32, loss: u32)
    ensures Limit(Smooth(s, loss), loss) == Limit(s, loss)
    ensures 4 * Distance(Smooth(s, loss), loss) <= 3 * Distance(s, loss)
  {
    var s' := Smooth(s, loss);
    assert 4 * s' <= 3 * s + loss < 4 * s' + 4;
  }

  function Pow(b: nat, n: nat): nat { if n == 0 then 1 else b * Pow(b, n - 1) }

  /** The smoothed value after `n` constant reports, whatever the rest of the state does. */
  lemma {:induction false} ErrorDecays(c: Control, loss: u32, n: nat)
    requires loss < FEC_BYPASS_LOSS_PPM
    ensures
      var s := Feed(c, loss, n).smoothed;
      && Limit(s, loss) == Limit(c.smoothed, loss)
      && Pow(4, n) * Distance(s, loss) <= Pow(3, n) * Distance(c.smoothed, loss)
  {
    if n > 0 {
      ErrorDecays(c, loss, n - 1);
      var t, s := Feed(c, loss, n - 1).smoothed, Feed(c, loss, n).smoothed;
      SmoothContracts(t, loss);
      Scale(Pow(4, n - 1), Pow(3, n - 1), Distance(t, loss), Distance(s, loss), Distance(c.smoothed, loss));
    }
  }

  lemma Scale(p4: nat, p3: nat, dt: nat, ds: nat, d0: nat)
    requires p4 * dt <= p3 * d0 && 4 * ds <= 3 * dt
    ensures 4 * p4 * ds <= 3 * p3 * d0
  {
    calc {
      4 * p4 * ds;
      p4 * (4 * ds);
    <= { MulNonNeg(p4, 3 * dt - 4 * ds); assert p4 * (3 * dt - 4 * ds) == p4 * (3 * dt) - p4 * (4 * ds); }
      p4 * (3 * dt);
      3 * (p4 * dt);
    <=
      3 * (p3 * d0);
      3 * p3 * d0;
    }
  }

  const SETTLE: nat := 78

  lemma MulAssoc(a: nat, b: nat, c: nat)
    ensures a * (b * c) == (a * b) * c
  {
  }

  lemma {:induction false} PowAdd(b: nat, m: nat, n: nat)
    ensures Pow(b, m + n) == Pow(b, m) * Pow(b, n)
  {
    if m > 0 {
      PowAdd(b, m - 1, n);
      MulAssoc(b, Pow(b, m - 1), Pow(b, n));
    }
  }

  lemma PowersAtSettle(n: nat)
    requires n == 13
    ensures Pow(3, 6 * n) * U32_LIMIT < Pow(4, 6 * n)
  {
    var a, b := Pow(3, n), Pow(4, n);
    assert a == 1_594_323 && b == 67_108_864 by {
      assert Pow(3, 13) == 1_594_323 && Pow(4, 13) == 67_108_864;
    }
    PowAdd(3, n, n);
    PowAdd(4, n, n);
    PowAdd(3, 2 * n, 2 * n);
    PowAdd(4, 2 * n, 2 * n);
    PowAdd(3, 4 * n, 2 * n);
    PowAdd(4, 4 * n, 2 * n);
  }

  lemma Vanishes(p4: nat, p3: nat, d: nat, d0: nat, bound: nat)
    requires p4 * d <= p3 * d0 && d0 <= bound && p3 * bound < p4
    ensures d == 0
  {
    MulNonNeg(p3, bound - d0);
    if d > 0 {
      MulNonNeg(p4, d - 1);
      assert false;
    }
  }

  /** Once 3^n times any u32 is below 4^n, an error that decays this way has vanished. */
  lemma Settled(c: Control, loss: u32, n: nat)
    requires loss < FEC_BYPASS_LOSS_PPM && Pow(3, n) * U32_LIMIT < Pow(4, n)
    ensures Feed(c, loss, n).smoothed == Limit(c.smoothed, loss)
  {
    ErrorDecays(c, loss, n);
    var d, d0 := Distance(Feed(c, loss, n).smoothed, loss), Distance(c.smoothed, loss);
    Vanishes(Pow(4, n), Pow(3, n), d, d0, U32_LIMIT);
  }

  /** Reports still needed before parity equals `target`, once the average is at rest. */
  function Remaining(c: Control, target: nat): int {
    if c.bypassed then 1
    else if target > c.parity then 2 * (target - c.parity) - c.bad
    else if target < c.parity then 15 * (c.parity - target) - c.good
    else 0
  }

  lemma RemainingDecreases(c: Control, loss: u32)
    requires Bounded(c) && loss < FEC_BYPASS_LOSS_PPM && Smooth(c.smoothed, loss) == c.smoothed
    ensures
      var t, c' := Target(c.smoothed), Step(c, loss);
      && Bounded(c') && c'.smoothed == c.smoothed && 0 <= Remaining(c', t) <= 60
      && (Remaining(c, t) > 0 ==> Remaining(c', t) < Remaining(c, t))
      && (Remaining(c, t) == 0 ==> Remaining(c', t) == 0)
  {
  }

  lemma {:induction false} ParityReached(c: Control, loss: u32, n: nat)
    requires Bounded(c) && loss < FEC_BYPASS_LOSS_PPM && Smooth(c.smoothed, loss) == c.smoothed
    ensures
      var t, c' := Target(c.smoothed), Feed(c, loss, n);
      && Bounded(c') && c'.smoothed == c.smoothed && 0 <= Remaining(c', t)
      && Remaining(c', t) <= Max(0, Remaining(c, t) - n)
  {
    hide Step, Smooth;
    if n > 0 {
      ParityReached(c, loss, n - 1);
      RemainingDecreases(Feed(c, loss, n - 1), loss);
    }
  }

  lemma {:induction false} FeedSplit(c: Control, loss: u32, m: nat, n: nat)
    ensures Feed(c, loss, m + n) == Feed(Feed(c, loss, m), loss, n)
  {
    hide Step;
    if n > 0 {
      FeedSplit(c, loss, m, n - 1);
    }
  }

  lemma {:induction false} FeedBounded(c: Control, loss: u32, n: nat)
    requires Bounded(c)
    ensures Bounded(Feed(c, loss, n))
  {
    if n > 0 {
      FeedBounded(c, loss, n - 1);
    }
  }

  lemma ConvergesFrom(c: Control, loss: u32, settle: nat, n: nat)
    requires Bounded(c) && loss < FEC_BYPASS_LOSS_PPM
    requires Pow(3, settle) * U32_LIMIT < Pow(4, settle)
    ensures
      var c', rest := Feed(c, loss, settle + n), Limit(c.smoothed, loss);
      c'.smoothed == rest && (n >= 60 ==> c'.parity == Target(rest))
  {
    FeedBounded(c, loss, settle);
    Settled(c, loss, settle);
    var mid := Feed(c, loss, settle);
    assert Smooth(mid.smoothed, loss) == mid.smoothed;
    ParityReached(mid, loss, n);
    FeedSplit(c, loss, settle, n);
  }

  /**
   * Convergence: from any state a run can reach, a constant loss below the bypass threshold
   * brings the average to rest within 78 reports and parity to its target within 60 more,
   * and both then stay where they are.
   */
  lemma Converges(samples: seq<u32>, loss: u32, n: nat)
    requires loss < FEC_BYPASS_LOSS_PPM && n >= SETTLE
    ensures
      var c := Run(DEFAULT_CONTROL, samples);
      var rest := Limit(c.smoothed, loss);
      && Feed(c, loss, n).smoothed == rest
      && Max(0, loss - 3) <= rest <= loss
      && (n >= SETTLE + 60 ==> Feed(c, loss, n).parity == Target(rest))
  {
    ReachableControl(samples);
    PowersAtSettle(13);
    ConvergesFrom(Run(DEFAULT_CONTROL, samples), loss, SETTLE, n - SETTLE);
  }

  /** The least loss of each level above zero. */
  predicate BandEdge(e: nat) { e == 10_000 || e == 50_000 || e == 100_000 || e == 200_000 }

  /** The average comes to rest in a lower band iff it starts below an edge at most two below the loss. */
  lemma RestsBelowIff(s: u32, loss: u32)
    ensures Target(Limit(s, loss)) != Target(loss) <==>
      exists e: nat :: BandEdge(e) && loss - 3 < e <= loss && s < e
  {
    assert BandEdge(10_000) && BandEdge(50_000) && BandEdge(100_000) && BandEdge(200_000);
  }

  /**
   * So parity ends at `Target(loss)` exactly when no band edge lies within two below the loss,
   * or at it, and above the average there was at first.
   */
  lemma ReachesOwnTargetIff(samples: seq<u32>, loss: u32, n: nat)
    requires loss < FEC_BYPASS_LOSS_PPM && n >= SETTLE + 60
    ensures
      var c := Run(DEFAULT_CONTROL, samples);
      Feed(c, loss, n).parity == Target(loss) <==>
      !exists e: nat :: BandEdge(e) && loss - 3 < e <= loss && c.smoothed < e
  {
    Converges(samples, loss, n);
    RestsBelowIff(Run(DEFAULT_CONTROL, samples).smoothed, loss);
  }

  /** A steady 1.0000% loss from a fresh start never earns the level meant for it. */
  lemma BandEdgeIsNotReached(n: nat)
    requires n >= SETTLE + 60
    ensures Target(10_000) == 1 && Feed(DEFAULT_CONTROL, 10_000, n).parity == 0
  {
    Converges([], 10_000, n);
  }
}
