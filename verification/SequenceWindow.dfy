/**
 * Sliding-window loss accounting (src/main.rs, `Decoder::observe_seq` and
 * `Decoder::sequence_report`): which sequence numbers are accepted, and what each loss
 * report says about them.
 */
module SequenceWindow {
  import opened Bytes
  import opened Ledger

  const REORDER_WINDOW: nat := 64
  const MIN_SAMPLE: nat := 32
  const MILLION: nat := 1_000_000

  datatype Window = Window(highest: nat, finalized: nat, seen: set<nat>, late: nat, duplicates: nat)

  const EMPTY_WINDOW: Window := Window(0, 0, {}, 0, 0)

  datatype SequenceReport = SequenceReport(
    expected: nat, received: nat, missing: nat, gapPpm: nat, late: nat, duplicates: nat)

  predicate Untouched(w: Window) { w.highest == 0 && w.finalized == 0 && w.seen == {} }

  /** `observe_seq`: the first number sets the baseline; old and repeated numbers are refused. */
  function Observe(w: Window, seqno: nat): (Window, bool) {
    var w0 := if Untouched(w) then w.(finalized := SaturatingSub(seqno, 1)) else w;
    if seqno <= w0.finalized then (w0.(late := SaturatingAdd64(w0.late, 1)), false)
    else
      var w1 := w0.(highest := Max(w0.highest, seqno));
      if seqno in w1.seen then (w1.(duplicates := SaturatingAdd64(w1.duplicates, 1)), false)
      else (w1.(seen := w1.seen + {seqno}), true)
  }

  function Cutoff(w: Window): nat { SaturatingSub(w.highest, REORDER_WINDOW) }

  function UpToCutoff(seen: set<nat>, lo: nat, hi: nat): set<nat> {
    set s | s in seen && lo < s <= hi
  }

  predicate Reportable(w: Window) {
    Cutoff(w) > w.finalized && Cutoff(w) - w.finalized >= MIN_SAMPLE
  }

  /** `sequence_report`: close the window up to 64 below the highest number seen. */
  function Report(w: Window): (Window, Option<SequenceReport>) {
    if !Reportable(w) then (w, None)
    else
      var cutoff := Cutoff(w);
      var expected := cutoff - w.finalized;
      var received := |UpToCutoff(w.seen, w.finalized, cutoff)|;
      var missing := SaturatingSub(expected, received);
      var gap := missing * MILLION / expected;
      (Window(w.highest, cutoff, set s | s in w.seen && s > cutoff, 0, 0),
       Some(SequenceReport(expected, received, missing, Min(gap, MILLION), w.late, w.duplicates)))
  }

  datatype Event = Seen(seqno: nat) | Tick

  /** One report with the range of sequence numbers it speaks about: `lo < s <= hi`. */
  datatype Span = Span(lo: nat, hi: nat, report: SequenceReport)

  /** A run as an outsider would write it down. */
  datatype Journal = Journal(w: Window, accepted: seq<nat>, spans: seq<Span>)

  ghost function Note(j: Journal, e: Event): Journal {
    match e
    case Seen(s) =>
      var (w, isNew) := Observe(j.w, s);
      Journal(w, if isNew then j.accepted + [s] else j.accepted, j.spans)
    case Tick =>
      var (w, report) := Report(j.w);
      if report.None? then j.(w := w)
      else Journal(w, j.accepted, j.spans + [Span(j.w.finalized, w.finalized, report.value)])
  }

  ghost function Run(events: seq<Event>): Journal {
    if events == [] then Journal(EMPTY_WINDOW, [], [])
    else Note(Run(events[..|events| - 1]), events[|events| - 1])
  }

  /** One below the first non-zero number observed. */
  ghost function Baseline(events: seq<Event>): nat {
    if events == [] then 0
    else if events[0].Seen? && events[0].seqno > 0 then events[0].seqno - 1
    else Baseline(events[1..])
  }

  ghost predicate Started(events: seq<Event>) {
    exists i :: 0 <= i < |events| && events[i].Seen? && events[i].seqno > 0
  }

  lemma {:induction false} BaselineSnoc(events: seq<Event>, e: Event)
    ensures Started(events + [e]) <==> Started(events) || (e.Seen? && e.seqno > 0)
    ensures Started(events) ==> Baseline(events + [e]) == Baseline(events)
    ensures !Started(events + [e]) ==> Baseline(events + [e]) == 0
    ensures !Started(events) && e.Seen? && e.seqno > 0 ==> Baseline(events + [e]) == e.seqno - 1
  {
    var all := events + [e];
    assert all[|events|] == e;
    assert forall i :: 0 <= i < |events| ==> all[i] == events[i];
    if events == [] {
      assert all[1..] == [];
    } else {
      assert all[1..] == events[1..] + [e];
      BaselineSnoc(events[1..], e);
      assert events == [events[0]] + events[1..];
      assert Started(events[1..]) ==> Started(events);
      assert Started(events) ==> Started(events[1..]) || (events[0].Seen? && events[0].seqno > 0);
    }
  }

  /** The accepted numbers of a range, counted over the whole run. */
  ghost function Within(accepted: seq<nat>, lo: nat, hi: nat): set<nat> {
    set a | a in accepted && lo < a <= hi
  }

  /** Spans tile `from < s <= to` without gap or overlap. */
  ghost predicate Tile(spans: seq<Span>, from: nat, to: nat) {
    if spans == [] then from == to
    else
      var last := spans[|spans| - 1];
      last.lo < last.hi == to && Tile(spans[..|spans| - 1], from, last.lo)
  }

  ghost predicate Truthful(span: Span, accepted: seq<nat>) {
    && span.report.expected == span.hi - span.lo
    && span.report.received == |Within(accepted, span.lo, span.hi)|
    && span.report.missing + span.report.received == span.report.expected
    && span.report.expected > 0
    && span.report.gapPpm == span.report.missing * MILLION / span.report.expected <= MILLION
  }

  ghost predicate SpanBounds(s: Span, hi: nat) { s.lo < s.hi <= hi }

  ghost predicate Inv(j: Journal, events: seq<Event>) {
    var base := Baseline(events);
    && (!Started(events) ==> j.w.(late := 0, duplicates := 0) == EMPTY_WINDOW && j.accepted == [] && j.spans == [])
    && (Started(events) ==> 1 <= j.w.highest && base <= j.w.finalized <= Max(base, j.w.highest))
    && (forall s :: s in j.w.seen <==> s in j.accepted && s > j.w.finalized)
    && (forall a :: a in j.accepted ==> base < a <= j.w.highest)
    && Distinct(j.accepted)
    && Tile(j.spans, base, j.w.finalized)
    && (forall i :: 0 <= i < |j.spans| ==> SpanBounds(j.spans[i], j.w.finalized) && Truthful(j.spans[i], j.accepted))
  }

  lemma RangeSize(s: set<nat>, lo: nat, hi: nat)
    requires lo <= hi && forall x :: x in s ==> lo < x <= hi
    ensures |s| <= hi - lo
    decreases hi
  {
    if lo < hi {
      RangeSize(s - {hi}, lo, hi - 1);
    } else {
      assert s == {};
    }
  }

  lemma WithinStable(accepted: seq<nat>, s: nat, lo: nat, hi: nat)
    requires s > hi
    ensures Within(accepted + [s], lo, hi) == Within(accepted, lo, hi)
  {
  }

  lemma GapBound(missing: nat, expected: nat)
    requires missing <= expected && expected > 0
    ensures missing * MILLION / expected <= MILLION
  {
    var q := missing * MILLION / expected;
    assert expected * q <= missing * MILLION <= expected * MILLION;
    if q > MILLION {
      MulNonNeg(expected, q - MILLION - 1);
      assert false;
    }
  }

  lemma ObserveKeeps(j: Journal, events: seq<Event>, s: nat)
    requires Inv(j, events)
    ensures Inv(Note(j, Seen(s)), events + [Seen(s)])
  {
    BaselineSnoc(events, Seen(s));
    var (w, isNew) := Observe(j.w, s);
    if isNew {
      forall i | 0 <= i < |j.spans| ensures Truthful(j.spans[i], j.accepted + [s]) {
        WithinStable(j.accepted, s, j.spans[i].lo, j.spans[i].hi);
      }
      assert s !in j.accepted;
    }
  }

  lemma ReportKeeps(j: Journal, events: seq<Event>)
    requires Inv(j, events)
    ensures Inv(Note(j, Tick), events + [Tick])
  {
    BaselineSnoc(events, Tick);
    var (w, report) := Report(j.w);
    if report.Some? {
      var span := Span(j.w.finalized, w.finalized, report.value);
      var got := UpToCutoff(j.w.seen, j.w.finalized, Cutoff(j.w));
      assert got == Within(j.accepted, span.lo, span.hi);
      RangeSize(got, span.lo, span.hi);
      GapBound(report.value.missing, report.value.expected);
      assert Truthful(span, j.accepted);
      var spans := j.spans + [span];
      assert spans[..|spans| - 1] == j.spans;
    }
  }

  lemma {:induction false} RunKeeps(events: seq<Event>)
    ensures Inv(Run(events), events)
  {
    if events != [] {
      var prefix, e := events[..|events| - 1], events[|events| - 1];
      assert events == prefix + [e];
      RunKeeps(prefix);
      match e
      case Seen(s) => ObserveKeeps(Run(prefix), prefix, s);
      case Tick => ReportKeeps(Run(prefix), prefix);
    }
  }

  /** In any run of observations and reports no number is accepted twice. */
  lemma AcceptedAtMostOnce(events: seq<Event>)
    ensures Distinct(Run(events).accepted)
  {
    RunKeeps(events);
  }

  /**
   * Report windows tile the range from the baseline to the finalized number, and each says
   * of its own range exactly how many numbers the whole run accepted and how many it did not.
   */
  lemma ReportsTile(events: seq<Event>)
    ensures
      var j := Run(events);
      && Tile(j.spans, Baseline(events), j.w.finalized)
      && forall i :: 0 <= i < |j.spans| ==> Truthful(j.spans[i], j.accepted)
  {
    RunKeeps(events);
  }

  ghost function Received(spans: seq<Span>): nat {
    if spans == [] then 0 else Received(spans[..|spans| - 1]) + spans[|spans| - 1].report.received
  }

  ghost function LateReported(spans: seq<Span>): nat {
    if spans == [] then 0 else LateReported(spans[..|spans| - 1]) + spans[|spans| - 1].report.late
  }

  ghost function DuplicatesReported(spans: seq<Span>): nat {
    if spans == [] then 0 else DuplicatesReported(spans[..|spans| - 1]) + spans[|spans| - 1].report.duplicates
  }

  /** Observations of a number whose window is closed, or that lies at or below the baseline. */
  ghost function Lates(events: seq<Event>): nat {
    if events == [] then 0
    else
      var before, e := events[..|events| - 1], events[|events| - 1];
      Lates(before) + (if e.Seen? && e.seqno <= Run(before).w.finalized then 1 else 0)
  }

  /** Observations of a number accepted earlier whose window is still open. */
  ghost function Repeats(events: seq<Event>): nat {
    if events == [] then 0
    else
      var before, e := events[..|events| - 1], events[|events| - 1];
      Repeats(before) +
      (if e.Seen? && e.seqno > Run(before).w.finalized && e.seqno in Run(before).accepted then 1 else 0)
  }

  ghost function Observations(events: seq<Event>): nat {
    if events == [] then 0
    else Observations(events[..|events| - 1]) + (if events[|events| - 1].Seen? then 1 else 0)
  }

  lemma SplitAtCutoff(w: Window)
    requires Reportable(w) && forall s :: s in w.seen ==> s > w.finalized
    ensures Report(w).1.Some? && Report(w).1.value.received + |Report(w).0.seen| == |w.seen|
  {
    var got := UpToCutoff(w.seen, w.finalized, Cutoff(w));
    var rest := Report(w).0.seen;
    assert w.seen == got + rest && got !! rest;
  }

  /** Conservation of numbers: what the reports counted plus what is pending is what was accepted. */
  lemma {:induction false} NothingLost(events: seq<Event>)
    ensures var j := Run(events); Received(j.spans) + |j.w.seen| == |j.accepted|
  {
    if events != [] {
      var prefix, e := events[..|events| - 1], events[|events| - 1];
      NothingLost(prefix);
      RunKeeps(prefix);
      var j, j' := Run(prefix), Run(events);
      if e.Tick? && Reportable(j.w) {
        SplitAtCutoff(j.w);
        assert j'.spans[..|j'.spans| - 1] == j.spans;
      }
    }
  }

  /** One observation is late, a repeat, or accepted. */
  lemma SeenCounts(j: Journal, events: seq<Event>, s: nat)
    requires Inv(j, events) && j.w.late + 1 < U64_LIMIT && j.w.duplicates + 1 < U64_LIMIT
    ensures
      var j' := Note(j, Seen(s));
      var late := s <= j.w.finalized;
      var repeat := !late && s in j.accepted;
      && |j'.accepted| == |j.accepted| + (if late || repeat then 0 else 1) && j'.spans == j.spans
      && j'.w.late == j.w.late + (if late then 1 else 0)
      && j'.w.duplicates == j.w.duplicates + (if repeat then 1 else 0)
  {
    hide Baseline, Tile, Truthful;
  }

  /**
   * Every observation is counted once: the late and duplicate counts of all reports, with those
   * not yet reported, are the late and repeated observations of the run, and the rest were
   * accepted. This holds until a counter could saturate.
   */
  lemma {:induction false} EveryObservationCounted(events: seq<Event>)
    requires Observations(events) < U64_LIMIT
    ensures
      var j := Run(events);
      && LateReported(j.spans) + j.w.late == Lates(events)
      && DuplicatesReported(j.spans) + j.w.duplicates == Repeats(events)
      && |j.accepted| + Lates(events) + Repeats(events) == Observations(events)
  {
    hide Inv, Note;
    if events != [] {
      var prefix, e := events[..|events| - 1], events[|events| - 1];
      EveryObservationCounted(prefix);
      RunKeeps(prefix);
      if e.Seen? {
        SeenCounts(Run(prefix), prefix, e.seqno);
      } else {
        TickCounts(Run(prefix));
      }
    }
  }

  /** A report moves the counts, it does not change their totals. */
  lemma TickCounts(j: Journal)
    ensures
      var j' := Note(j, Tick);
      && j'.accepted == j.accepted
      && LateReported(j'.spans) + j'.w.late == LateReported(j.spans) + j.w.late
      && DuplicatesReported(j'.spans) + j'.w.duplicates == DuplicatesReported(j.spans) + j.w.duplicates
  {
    if Reportable(j.w) {
      var spans := Note(j, Tick).spans;
      assert spans[..|spans| - 1] == j.spans;
    }
  }

  // ----- Reordering -----

  /** No number is first observed after one that lies 64 or more above it. */
  ghost predicate NotOvertaken(events: seq<Event>) {
    forall t, u :: 0 <= t < u < |events| && events[t].Seen? && events[u].Seen?
                   && events[u].seqno + REORDER_WINDOW <= events[t].seqno ==>
                   events[u] in events[..t]
  }

  /** Every number observed above the baseline has been accepted, and only such. */
  ghost predicate CaughtUp(j: Journal, events: seq<Event>) {
    && (forall n: nat :: Seen(n) in events && n > Baseline(events) ==> n in j.accepted)
    && (forall a :: a in j.accepted ==> Seen(a) in events)
    && j.w.finalized <= Max(Baseline(events), Cutoff(j.w))
    && (j.w.highest > 0 ==> Seen(j.w.highest) in events)
  }

  lemma NotOvertakenPrefix(events: seq<Event>)
    requires events != [] && NotOvertaken(events)
    ensures NotOvertaken(events[..|events| - 1])
  {
    var prefix := events[..|events| - 1];
    forall t | 0 <= t < |prefix| ensures prefix[t] == events[t] && prefix[..t] == events[..t] {}
  }

  /** A number above the baseline is never late: any number 64 above it would have come after it. */
  lemma NeverLate(j: Journal, prefix: seq<Event>, s: nat)
    requires NotOvertaken(prefix + [Seen(s)]) && CaughtUp(j, prefix) && s > Baseline(prefix)
    ensures s in j.accepted || s > j.w.finalized
  {
    var events := prefix + [Seen(s)];
    assert events[|prefix|] == Seen(s);
    if s + REORDER_WINDOW <= j.w.highest {
      var t :| 0 <= t < |prefix| && prefix[t] == Seen(j.w.highest);
      assert events[t] == Seen(j.w.highest);
      assert Seen(s) in events[..t];
      assert events[..t] == prefix[..t];
    }
  }

  lemma SeenSnoc(prefix: seq<Event>, e: Event, n: nat)
    ensures Seen(n) in prefix + [e] <==> Seen(n) in prefix || e == Seen(n)
  {
  }

  lemma ObserveCatchesUp(j: Journal, prefix: seq<Event>, s: nat)
    requires CaughtUp(j, prefix) && Inv(j, prefix)
    requires s > Baseline(prefix) ==> s in j.accepted || s > j.w.finalized
    ensures CaughtUp(Note(j, Seen(s)), prefix + [Seen(s)])
  {
    hide Baseline, Tile, Truthful, Started, Distinct, SpanBounds;
    var events, j' := prefix + [Seen(s)], Note(j, Seen(s));
    BaselineSnoc(prefix, Seen(s));
    forall n: nat ensures Seen(n) in events <==> Seen(n) in prefix || n == s { SeenSnoc(prefix, Seen(s), n); }
    assert Started(prefix) ==> Baseline(events) == Baseline(prefix);
    assert !Started(prefix) ==> forall n: nat :: Seen(n) in prefix ==> n == 0 by { NotStarted(prefix); }
  }

  lemma NotStarted(events: seq<Event>)
    ensures !Started(events) ==> forall n: nat :: Seen(n) in events ==> n == 0
  {
  }

  lemma ReportCatchesUp(j: Journal, prefix: seq<Event>)
    requires CaughtUp(j, prefix) && Inv(j, prefix)
    ensures CaughtUp(Note(j, Tick), prefix + [Tick])
  {
    hide Baseline, Started, Tile, Truthful, Distinct, SpanBounds;
    BaselineSnoc(prefix, Tick);
    forall n: nat ensures Seen(n) in prefix + [Tick] <==> Seen(n) in prefix { SeenSnoc(prefix, Tick, n); }
    assert !Started(prefix) ==> forall n: nat :: Seen(n) in prefix ==> n == 0 by { NotStarted(prefix); }
  }

  lemma {:induction false} RunCatchesUp(events: seq<Event>)
    requires NotOvertaken(events)
    ensures CaughtUp(Run(events), events)
  {
    hide CaughtUp, Inv, Note;
    if events == [] {
      assert CaughtUp(Run([]), []) by { StartsCaughtUp(); }
    } else {
      var prefix, e := events[..|events| - 1], events[|events| - 1];
      assert events == prefix + [e];
      NotOvertakenPrefix(events);
      RunCatchesUp(prefix);
      RunKeeps(prefix);
      match e
      case Seen(s) =>
        if s > Baseline(prefix) { NeverLate(Run(prefix), prefix, s); }
        ObserveCatchesUp(Run(prefix), prefix, s);
      case Tick => ReportCatchesUp(Run(prefix), prefix);
    }
  }

  lemma StartsCaughtUp()
    ensures CaughtUp(Run([]), [])
  {
  }

  /** Which numbers are accepted, from the observations alone: those above the baseline. */
  lemma AcceptedIffObserved(events: seq<Event>, s: nat)
    requires NotOvertaken(events)
    ensures s in Run(events).accepted <==> Seen(s) in events && s > Baseline(events)
  {
    hide Baseline, Run;
    RunCatchesUp(events);
    RunKeeps(events);
  }

  /** Each number from `start` on is observed before any number 64 or more above it. */
  ghost predicate MildlyReordered(events: seq<Event>, start: nat) {
    && (forall t :: 0 <= t < |events| && events[t].Seen? ==> events[t].seqno >= start)
    && forall t, n :: 0 <= t < |events| && events[t].Seen? && start <= n && n + REORDER_WINDOW <= events[t].seqno ==>
         Seen(n) in events[..t]
  }

  lemma MildNotOvertaken(events: seq<Event>, start: nat)
    requires MildlyReordered(events, start)
    ensures NotOvertaken(events)
  {
  }

  lemma MildPrefix(events: seq<Event>, start: nat)
    requires events != [] && MildlyReordered(events, start)
    ensures MildlyReordered(events[..|events| - 1], start)
  {
    var prefix := events[..|events| - 1];
    forall t | 0 <= t < |prefix| ensures prefix[t] == events[t] && prefix[..t] == events[..t] {}
  }

  lemma {:induction false} BaselineSeen(events: seq<Event>)
    ensures Started(events) ==> Seen(Baseline(events) + 1) in events
  {
    if events != [] && !(events[0].Seen? && events[0].seqno > 0) {
      BaselineSeen(events[1..]);
      assert events == [events[0]] + events[1..];
    }
  }

  lemma MildWindowFull(j: Journal, prefix: seq<Event>, start: nat, n: nat)
    requires start >= 1 && MildlyReordered(prefix, start)
    requires CaughtUp(j, prefix) && Inv(j, prefix)
    requires j.w.finalized < n <= Cutoff(j.w)
    ensures n in j.w.seen
  {
    hide Baseline, Tile, Truthful, SpanBounds;
    BaselineSeen(prefix);
    var t :| 0 <= t < |prefix| && prefix[t] == Seen(j.w.highest);
    var u :| 0 <= u < |prefix| && prefix[u] == Seen(Baseline(prefix) + 1);
    assert prefix[u].seqno >= start;
    assert Seen(n) in prefix[..t];
  }

  lemma MildReport(j: Journal, prefix: seq<Event>, start: nat)
    requires start >= 1 && MildlyReordered(prefix, start)
    requires CaughtUp(j, prefix) && Inv(j, prefix)
    ensures Report(j.w).1.Some? ==> Report(j.w).1.value.missing == 0
  {
    hide Inv, CaughtUp, MildlyReordered;
    if Reportable(j.w) {
      var lo, hi := j.w.finalized, Cutoff(j.w);
      var got := UpToCutoff(j.w.seen, lo, hi);
      forall n: nat | lo < n <= hi ensures n in got {
        MildWindowFull(j, prefix, start, n);
      }
      RangeFull(got, lo, hi);
    }
  }

  lemma RangeFull(s: set<nat>, lo: nat, hi: nat)
    requires lo <= hi && forall x: nat :: lo < x <= hi ==> x in s
    ensures |s| >= hi - lo
    decreases hi
  {
    if lo < hi {
      RangeFull(s - {hi}, lo, hi - 1);
    }
  }

  /** Reordering by less than the window is never mistaken for loss. */
  lemma {:induction false} ReorderingIsNotLoss(events: seq<Event>, start: nat)
    requires start >= 1 && MildlyReordered(events, start)
    ensures forall i :: 0 <= i < |Run(events).spans| ==> Run(events).spans[i].report.missing == 0
  {
    hide Inv, CaughtUp, MildlyReordered, Observe, Report;
    if events != [] {
      var prefix := events[..|events| - 1];
      MildPrefix(events, start);
      ReorderingIsNotLoss(prefix, start);
      MildNotOvertaken(prefix, start);
      RunCatchesUp(prefix);
      RunKeeps(prefix);
      MildReport(Run(prefix), prefix, start);
    }
  }
}
