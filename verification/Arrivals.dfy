/**
 * When the conditions of exact delivery hold, told from the arrivals alone: which frames are
 * accepted, when the tables cannot overflow, and when every datagram is prompt.
 */
module Arrivals {
  import opened Bytes
  import Erasure
  import Frames
  import Reassembly
  import FecEncoder
  import opened EncoderHistory
  import opened FecDecoder
  import opened DecoderReassembly
  import opened GroupRecovery
  import opened Tunnel
  import opened Integrity
  import opened Reception
  import opened Delivery
  import SW = SequenceWindow

  // ----- Which frames are accepted -----

  /** What the sequence window sees of a run. */
  ghost function Observed(hs: seq<Happening>): (es: seq<SW.Event>)
    ensures |es| == |hs|
  {
    seq(|hs|, i requires 0 <= i < |hs| => if hs[i].Get? then SW.Seen(hs[i].f.sequence) else SW.Tick)
  }

  /** The shard frames that came, but for those numbered below the first frame to come. */
  ghost function Arrived(hs: seq<Happening>): set<Slot> {
    set i | 0 <= i < |hs| && hs[i].Get? && CarriesShard(hs[i].f) && hs[i].f.sequence > SW.Baseline(Observed(hs))
      :: Slot(hs[i].f.group, hs[i].f.index)
  }

  lemma ObservedNext(hs: seq<Happening>, n: nat)
    requires n < |hs|
    ensures Observed(hs[..n + 1]) ==
      Observed(hs[..n]) + [if hs[n].Get? then SW.Seen(hs[n].f.sequence) else SW.Tick]
  {
  }

  lemma JournalNext(hs: seq<Happening>, n: nat)
    requires n < |hs|
    ensures SW.Run(Observed(hs[..n + 1])) ==
      SW.Note(SW.Run(Observed(hs[..n])), if hs[n].Get? then SW.Seen(hs[n].f.sequence) else SW.Tick)
  {
    hide SW.Note, Observed;
    ObservedNext(hs, n);
    var es := Observed(hs[..n + 1]);
    assert es[..|es| - 1] == Observed(hs[..n]);
  }

  lemma WindowAtFirst(t: Trace)
    requires Honest(t)
    ensures |t.states| >= 1 && t.states[0].window == SW.Run(Observed(t.hs[..0])).w && t.states[0].session == t.session
  {
    hide Sender, HonestRun, May;
    assert t.hs[..0] == [];
  }

  /** The decoder's window is the one of the loss accounting. */
  lemma {:induction false} WindowIs(t: Trace, n: nat)
    requires Honest(t) && NothingForgotten(t.hs) && n <= |t.hs| && n < |t.states|
    ensures t.states[n].window == SW.Run(Observed(t.hs[..n])).w && t.states[n].session == t.session
  {
    hide Honest, SW.Run, Observed, SW.Observe, SW.Report;
    if n == 0 {
      WindowAtFirst(t);
    } else {
      WindowIs(t, n - 1);
      JournalNext(t.hs, n - 1);
      WindowNext(t, n - 1);
    }
  }

  lemma WindowNext(t: Trace, n: nat)
    requires Honest(t) && n < |t.hs| && n + 1 < |t.states| && !t.hs[n].Forget? && t.states[n].session == t.session
    ensures t.states[n + 1].session == t.session
    ensures t.states[n + 1].window ==
      if t.hs[n].Get? then SW.Observe(t.states[n].window, t.hs[n].f.sequence).0 else SW.Report(t.states[n].window).0
  {
    hide Sender, Absorb, SW.Observe, SW.Report, HonestFrame;
    Shape(t);
    assert May(t.code, t.states[n], t.hs[n], t.states[n + 1], t.outs[n]);
    if t.hs[n].Get? {
      var f, at, st := t.hs[n].f, t.hs[n].at, t.states[n];
      FrameIsHonest(t, n);
      assert f.session == t.session by { HonestSession(t, f); }
      var r :| FrameMay(t.code, st, f, at, t.states[n + 1], r);
      if IsAccepted(st, f) && DimensionsOk(f) {
        var st1 := FirstPrune(t.code, st, f, at, t.states[n + 1], r);
        AbsorbKeepsWindow(t.code, st1, f, at);
      }
    }
  }

  lemma HonestSession(t: Trace, f: Frames.Frame)
    requires HonestFrame(t.code, t.ds, t.blocks, t.session, f)
    ensures f.session == t.session
  {
  }

  lemma AbsorbKeepsWindow(code: Erasure.Code, st: DecoderState, f: Frames.Frame, at: Readings)
    requires WfGroups(st.groups) && DimensionsOk(f)
    ensures
      var st' := Absorb(code, st, f, at).0;
      st'.window == st.window && st'.session == st.session
  {
    hide Deliver, FragmentAll;
  }

  /** Frames of one run with the same number are the same frame. */
  ghost predicate OneFrameEach(hs: seq<Happening>) {
    forall i, j :: 0 <= i < j < |hs| && hs[i].Get? && hs[j].Get? && hs[i].f.sequence == hs[j].f.sequence ==>
      hs[i].f == hs[j].f
  }

  lemma SentOneEach(t: Trace, version: nat, keyId: nat, force: Option<nat>, sent: seq<Event>)
    requires SentBy(t, version, keyId, force, sent)
    ensures OneFrameEach(t.hs)
  {
    hide RunT, Datagrams, Carries;
    StreamLaw(t.code, t.session, version, keyId, force, sent);
    var e := RunT(t.code, FecEncoder.InitialEncoder(t.session, version, keyId, force), sent);
    forall i | 0 <= i < |t.hs| && t.hs[i].Get?
      ensures 1 <= t.hs[i].f.sequence <= |e.frames| && t.hs[i].f == e.frames[t.hs[i].f.sequence - 1]
    {
      var k :| 0 <= k < |e.frames| && e.frames[k] == t.hs[i].f;
      assert Placed(t.code, t.session, e.stream, e.frames, e.blocks, k);
    }
  }

  /** The frames among the first `n` happenings whose numbers the window accepted. */
  ghost predicate Taken(t: Trace, n: nat, i: int) {
    && 0 <= i < n <= |t.hs| && t.hs[i].Get? && CarriesShard(t.hs[i].f)
    && t.hs[i].f.sequence in SW.Run(Observed(t.hs[..n])).accepted
  }

  ghost function TakenBy(t: Trace, n: nat): set<Slot>
    requires n <= |t.hs|
  {
    set i | 0 <= i < n && Taken(t, n, i) :: Slot(t.hs[i].f.group, t.hs[i].f.index)
  }

  lemma NothingAccepted(hs: seq<Happening>)
    ensures SW.Run(Observed(hs[..0])).accepted == []
  {
    assert Observed(hs[..0]) == [];
  }

  /** A number the window has accepted came with a frame. */
  lemma {:induction false} AcceptedCame(hs: seq<Happening>, n: nat, s: nat) returns (i: nat)
    requires n <= |hs| && s in SW.Run(Observed(hs[..n])).accepted
    ensures i < n && hs[i].Get? && hs[i].f.sequence == s
  {
    hide SW.Run, Observed;
    NothingAccepted(hs);
    JournalNext(hs, n - 1);
    if s in SW.Run(Observed(hs[..n - 1])).accepted {
      i := AcceptedCame(hs, n - 1, s);
    } else {
      i := n - 1;
    }
  }

  /** The numbers the window has accepted after one more happening. */
  lemma NumbersNext(t: Trace, n: nat)
    requires Honest(t) && NothingForgotten(t.hs) && n < |t.hs| && n < |t.states|
    ensures
      var before, after := SW.Run(Observed(t.hs[..n])).accepted, SW.Run(Observed(t.hs[..n + 1])).accepted;
      if t.hs[n].Get? && SW.Observe(t.states[n].window, t.hs[n].f.sequence).1
      then after == before + [t.hs[n].f.sequence]
      else after == before
    ensures Accepts(t, n) <==>
      t.hs[n].Get? && SW.Observe(t.states[n].window, t.hs[n].f.sequence).1 && CarriesShard(t.hs[n].f)
  {
    hide Sender, RunOf, HonestRun, HonestFrame, SW.Observe, SW.Report, SW.Run, Observed;
    WindowIs(t, n);
    JournalNext(t.hs, n);
    if t.hs[n].Get? {
      FrameIsHonest(t, n);
      HonestSession(t, t.hs[n].f);
    }
  }

  lemma TakenNext(t: Trace, n: nat)
    requires Honest(t) && NothingForgotten(t.hs) && n < |t.hs| && n < |t.states| && OneFrameEach(t.hs)
    ensures TakenBy(t, n + 1) ==
      TakenBy(t, n) + (if Accepts(t, n) then {Slot(t.hs[n].f.group, t.hs[n].f.index)} else {})
  {
    hide Honest, NothingForgotten, IsAccepted, SW.Observe, SW.Run, Observed;
    NumbersNext(t, n);
    var before, after, h := TakenBy(t, n), TakenBy(t, n + 1), t.hs[n];
    forall i: nat | Taken(t, n, i) ensures Taken(t, n + 1, i) {}
    forall i: nat | Taken(t, n + 1, i) && !Taken(t, n, i)
      ensures Slot(t.hs[i].f.group, t.hs[i].f.index) in
        before + (if Accepts(t, n) then {Slot(h.f.group, h.f.index)} else {})
    {
      if !Accepts(t, n) {
        assert i == n && h.f.sequence in SW.Run(Observed(t.hs[..n])).accepted;
        var k := AcceptedCame(t.hs, n, h.f.sequence);
        assert Taken(t, n, k);
      }
    }
    assert Accepts(t, n) ==> Taken(t, n + 1, n);
  }

  lemma {:induction false} AcceptedIsTaken(t: Trace, n: nat)
    requires Honest(t) && NothingForgotten(t.hs) && n <= |t.hs| && n < |t.states| && OneFrameEach(t.hs)
    ensures AcceptedBy(t, n) == TakenBy(t, n)
  {
    hide Honest, NothingForgotten, IsAccepted, OneFrameEach, Taken;
    if n > 0 {
      AcceptedIsTaken(t, n - 1);
      TakenNext(t, n - 1);
    }
  }

  /**
   * If no frame is overtaken by one numbered 64 or more above it, the accepted frames are the
   * shard frames that arrived, but for those numbered below the first arrival. Those are lost.
   */
  lemma AcceptedAreArrived(t: Trace, version: nat, keyId: nat, force: Option<nat>, sent: seq<Event>)
    requires HonestCode(t.code) && |t.ds| < U64_LIMIT && SentBy(t, version, keyId, force, sent)
    requires RunOf(t.code, t.session, t.hs, t.states, t.outs) && NothingForgotten(t.hs)
    requires SW.NotOvertaken(Observed(t.hs))
    ensures AcceptedBy(t, |t.hs|) == Arrived(t.hs)
  {
    hide RunOf, HonestCode, SentBy, SW.NotOvertaken, SW.Baseline, SW.Run, Honest, AcceptedBy;
    SentIsHonest(t, version, keyId, force, sent);
    SentOneEach(t, version, keyId, force, sent);
    Shape(t);
    AcceptedIsTaken(t, |t.hs|);
    assert t.hs[..|t.hs|] == t.hs;
    var es := Observed(t.hs);
    forall i: nat | i < |t.hs| && t.hs[i].Get?
      ensures t.hs[i].f.sequence in SW.Run(es).accepted <==> t.hs[i].f.sequence > SW.Baseline(es)
    {
      assert es[i] == SW.Seen(t.hs[i].f.sequence);
      SW.AcceptedIffObserved(es, t.hs[i].f.sequence);
    }
  }

  // ----- Limits -----

  lemma {:induction false} FewKeys(keys: set<nat>, n: nat)
    requires forall k :: k in keys ==> 1 <= k <= n
    ensures |keys| <= n
  {
    if n == 0 {
      assert keys == {};
    } else {
      FewKeys(keys - {n}, n - 1);
      assert keys <= (keys - {n}) + {n};
    }
  }

  lemma FewPackets(ds: seq<seq<byte>>, packets: Reassembly.Table)
    requires PacketsSound(ds, packets)
    ensures |packets| <= |ds|
  {
    FewKeys(packets.Keys, |ds|);
    assert |packets.Keys| == |packets|;
  }

  /** At no time are there more reassemblies open than datagrams sent, whatever is forgotten. */
  lemma FewReassemblies(t: Trace, n: nat)
    requires Honest(t) && n < |t.states|
    ensures |t.states[n].packets| <= |t.ds|
  {
    hide Sender, HonestRun, PacketsSound, May;
    RunSound(t.code, t.ds, t.blocks, t.session, t.hs, t.states, t.outs, n);
    FewPackets(t.ds, t.states[n].packets);
  }

  lemma RoomFor(groups: map<nat, Group>, f: Frames.Frame, n: nat)
    requires 1 <= f.group <= n <= MAX_GROUPS && forall g :: g in groups ==> 1 <= g <= n
    ensures Room(groups, f)
  {
    if f.group !in groups {
      FewKeys(groups.Keys + {f.group}, n);
      assert |groups.Keys + {f.group}| == |groups.Keys| + 1 && |groups.Keys| == |groups|;
    }
  }

  /** A sender of at most 2048 groups is never refused for having too many. */
  lemma NeverRefused(t: Trace, i: nat)
    requires Honest(t) && |t.blocks| <= MAX_GROUPS && Accepts(t, i)
    ensures Room(Swept(Heard(t.states[i], t.hs[i].f), t.hs[i].at.sweep).groups, t.hs[i].f)
  {
    hide Sender, HonestRun, GroupSound, May, PacketsSound, IsAccepted, Carries, RunOf;
    var f, at := t.hs[i].f, t.hs[i].at;
    Shape(t);
    RunSound(t.code, t.ds, t.blocks, t.session, t.hs, t.states, t.outs, i);
    AcceptedCarries(t, i);
    assert 1 <= f.group <= |t.blocks| by { CarriedGroup(t.code, t.ds, t.blocks, f); }
    RoomFor(Swept(Heard(t.states[i], f), at.sweep).groups, f, |t.blocks|);
  }

  lemma CarriedGroup(code: Erasure.Code, ds: seq<seq<byte>>, blocks: seq<Block>, f: Frames.Frame)
    requires Carries(code, Stream(ds), blocks, f)
    ensures 1 <= f.group <= |blocks|
  {
  }

  /** With at most 2048 groups and 4096 datagrams nothing is ever refused or evicted. */
  lemma SmallSenderFits(t: Trace)
    requires Honest(t) && |t.blocks| <= MAX_GROUPS && |t.ds| <= MAX_REASSEMBLIES
    ensures WithinLimits(t)
  {
    hide Sender, HonestRun, Sound, May, IsAccepted, Carries, RunOf, Absorb, Room, Swept, HonestCode;
    forall i: nat | Accepts(t, i) && WfGroups(t.states[i].groups) && DimensionsOk(t.hs[i].f)
      ensures
        var f, at := t.hs[i].f, t.hs[i].at;
        var st1 := Swept(Heard(t.states[i], f), at.sweep);
        WfGroups(st1.groups) && Fits(t.code, st1, f, at)
    {
      SmallFits(t, i);
    }
  }

  lemma SweptWf(st: DecoderState, now: nat)
    requires WfGroups(st.groups)
    ensures WfGroups(Swept(st, now).groups)
  {
  }

  lemma SmallFits(t: Trace, i: nat)
    requires Honest(t) && |t.blocks| <= MAX_GROUPS && |t.ds| <= MAX_REASSEMBLIES
    requires Accepts(t, i) && WfGroups(t.states[i].groups) && DimensionsOk(t.hs[i].f)
    ensures
      var f, at := t.hs[i].f, t.hs[i].at;
      var st1 := Swept(Heard(t.states[i], f), at.sweep);
      WfGroups(st1.groups) && Fits(t.code, st1, f, at)
  {
    hide Sender, HonestRun, GroupsSound, PacketsSound, May, IsAccepted, Carries, RunOf, Absorb, Room, Swept, AllFrom;
    var f, at := t.hs[i].f, t.hs[i].at;
    var st1 := Swept(Heard(t.states[i], f), at.sweep);
    Shape(t);
    SweptWf(Heard(t.states[i], f), at.sweep);
    RunSound(t.code, t.ds, t.blocks, t.session, t.hs, t.states, t.outs, i);
    AcceptedCarries(t, i);
    NeverRefused(t, i);
    SweptSound(t.code, t.ds, t.blocks, t.session, Heard(t.states[i], f), at.sweep);
    AbsorbSound(t.code, t.ds, t.blocks, t.session, st1, f, at);
    var st2 := Absorb(t.code, st1, f, at).0;
    SweptFewer(st2, at.close);
    FewPackets(t.ds, st2.packets);
  }

  // ----- Short runs -----

  /** Every frame comes less than a group's lifetime after `start`. */
  ghost predicate Timely(hs: seq<Happening>, start: nat) {
    forall i :: 0 <= i < |hs| && hs[i].Get? ==> start <= hs[i].at.sweep < start + GROUP_TTL
  }

  lemma {:induction false} NotBeforeStart(t: Trace, start: nat, n: nat, g: nat, id: nat)
    requires Timely(t.hs, start)
    ensures OpenedAt(t, n, g).Some? ==> OpenedAt(t, n, g).value >= start
    ensures BegunAt(t, n, id).Some? ==> BegunAt(t, n, id).value >= start
  {
    hide IsAccepted, LetsOut, PartOf;
    if n > 0 { NotBeforeStart(t, start, n - 1, g, id); }
  }

  lemma TimelyGroup(t: Trace, start: nat, g: nat)
    requires Timely(t.hs, start)
    ensures PromptGroup(t, g)
  {
    hide IsAccepted, OpenedAt;
    forall i | Accepts(t, i) && t.hs[i].f.group == g && OpenedAt(t, i, g).Some?
      ensures t.hs[i].at.sweep < OpenedAt(t, i, g).value + GROUP_TTL
    {
      NotBeforeStart(t, start, i, g, 0);
    }
  }

  lemma TimelyIsPrompt(t: Trace, start: nat, id: nat)
    requires Timely(t.hs, start)
    ensures PromptDatagram(t, id)
  {
    hide IsAccepted, PromptGroup, LetsOut, PartOf, InBlock, BegunAt;
    forall b: nat, k: nat | InBlock(t.blocks, b, k) && PartOf(t.ds, k, id) ensures PromptGroup(t, b + 1) {
      TimelyGroup(t, start, b + 1);
    }
    forall i | Releases(t, i, id) && BegunAt(t, i, id).Some?
      ensures t.hs[i].at.sweep < BegunAt(t, i, id).value + REASSEMBLY_TTL
    {
      NotBeforeStart(t, start, i, 0, id);
    }
  }

  /**
   * Exact delivery with nothing to ask of the decoder: at most 4096 datagrams in at most 2048
   * groups, frames in any order and number within two seconds. Each datagram comes out exactly
   * once if it gets through and never otherwise.
   */
  lemma DeliveredInTime(t: Trace, version: nat, keyId: nat, force: Option<nat>, sent: seq<Event>, start: nat)
    returns (ids: seq<nat>)
    requires HonestCode(t.code) && SentBy(t, version, keyId, force, sent)
    requires |t.ds| <= MAX_REASSEMBLIES && |t.blocks| <= MAX_GROUPS
    requires RunOf(t.code, t.session, t.hs, t.states, t.outs) && NothingForgotten(t.hs)
    requires Steady(t.hs) && Timely(t.hs, start)
    ensures Joined(t.outs) == Payloads(t.ds, ids)
    ensures forall id: nat :: multiset(ids)[id] == TimesDue(t, id)
  {
    hide RunOf, HonestCode, SentBy, WithinLimits, Steady, Honest, PromptDatagram, Joined, Payloads, AcceptedBy;
    SentIsHonest(t, version, keyId, force, sent);
    SmallSenderFits(t);
    ids := ExactDelivery(t, version, keyId, force, sent);
    forall id: nat ensures multiset(ids)[id] == TimesDue(t, id) {
      if 1 <= id <= |t.ds| {
        TimelyIsPrompt(t, start, id);
      } else {
        assert id !in ids;
      }
    }
  }
}
