/**
 * A run of the decoder seen from outside: what it accepted and when, which groups and
 * datagrams came promptly, and what each frame does to its group while that is so.
 */
module Reception {
  import opened Bytes
  import Erasure
  import Frames
  import Ledger
  import opened EncoderHistory
  import opened FecDecoder
  import DecoderReassembly
  import opened GroupRecovery
  import opened Tunnel
  import opened Integrity
  import SW = SequenceWindow

  /** A run of the decoder on frames of the blocks cut from the datagrams `ds`. */
  datatype Trace = Trace(code: Erasure.Code, session: nat, ds: seq<seq<byte>>, blocks: seq<Block>,
                         hs: seq<Happening>, states: seq<DecoderState>, outs: seq<seq<seq<byte>>>)

  ghost predicate Honest(t: Trace) {
    && Sender(t.code, t.ds, t.blocks)
    && RunOf(t.code, t.session, t.hs, t.states, t.outs)
    && HonestRun(t.code, t.ds, t.blocks, t.session, t.hs)
  }

  // ----- Time -----

  ghost predicate Ordered(at: Readings) {
    at.sweep <= at.open <= at.close && forall i :: at.sweep <= at.place(i) <= at.close
  }

  /** The clock never goes back. */
  ghost predicate Steady(hs: seq<Happening>) {
    && (forall i :: 0 <= i < |hs| && hs[i].Get? ==> Ordered(hs[i].at))
    && forall i, j :: 0 <= i < j < |hs| && hs[i].Get? && hs[j].Get? ==> hs[i].at.close <= hs[j].at.sweep
  }

  /** The last reading of the first `n` happenings. */
  ghost function Clock(hs: seq<Happening>, n: nat): nat
    requires n <= |hs|
  {
    if n == 0 then 0 else if hs[n - 1].Get? then hs[n - 1].at.close else Clock(hs, n - 1)
  }

  lemma {:induction false} ClockBehind(hs: seq<Happening>, n: nat, m: nat)
    requires Steady(hs) && n <= m < |hs| && hs[m].Get?
    ensures Clock(hs, n) <= hs[m].at.sweep
  {
    if n > 0 && !hs[n - 1].Get? { ClockBehind(hs, n - 1, m); }
  }

  // ----- What a run accepted, and when -----

  ghost predicate Accepts(t: Trace, i: int) {
    0 <= i < |t.hs| && i < |t.states| && t.hs[i].Get? && IsAccepted(t.states[i], t.hs[i].f)
  }

  ghost function AcceptedBy(t: Trace, n: nat): set<Slot> {
    if n == 0 then {}
    else if Accepts(t, n - 1) then AcceptedBy(t, n - 1) + {Slot(t.hs[n - 1].f.group, t.hs[n - 1].f.index)}
    else AcceptedBy(t, n - 1)
  }

  /** When the first accepted frame of a group came. */
  ghost function OpenedAt(t: Trace, n: nat, g: nat): Option<nat> {
    if n == 0 then None
    else if OpenedAt(t, n - 1, g).Some? then OpenedAt(t, n - 1, g)
    else if Accepts(t, n - 1) && t.hs[n - 1].f.group == g then Some(t.hs[n - 1].at.sweep)
    else None
  }

  /** The accepted frames of a group come within its lifetime of the first. */
  ghost predicate PromptGroup(t: Trace, g: nat) {
    forall i :: Accepts(t, i) && t.hs[i].f.group == g && OpenedAt(t, i, g).Some? ==>
      t.hs[i].at.sweep < OpenedAt(t, i, g).value + GROUP_TTL
  }

  ghost predicate PartOf(ds: seq<seq<byte>>, k: nat, id: nat) {
    k < |Stream(ds)| && Stream(ds)[k].packet == id
  }

  /** Happening `i` lets out fragment `k`. */
  ghost predicate LetsOut(t: Trace, i: nat, k: nat) {
    Recovered(t.blocks, AcceptedBy(t, i + 1), k) && !Recovered(t.blocks, AcceptedBy(t, i), k)
  }

  /** Happening `i` lets out a fragment of datagram `id`. */
  ghost predicate Releases(t: Trace, i: int, id: nat) {
    Accepts(t, i) && exists k: nat :: PartOf(t.ds, k, id) && LetsOut(t, i, k)
  }

  /** When the first fragment of a datagram was let out. */
  ghost function BegunAt(t: Trace, n: nat, id: nat): Option<nat> {
    if n == 0 then None
    else if BegunAt(t, n - 1, id).Some? then BegunAt(t, n - 1, id)
    else if Releases(t, n - 1, id) then Some(t.hs[n - 1].at.sweep)
    else None
  }

  /**
   * The groups that carry fragments of a datagram are prompt, and its fragments are let out
   * within the lifetime of a reassembly. Other datagrams may be as late as they like.
   */
  ghost predicate PromptDatagram(t: Trace, id: nat) {
    && (forall b: nat, k: nat :: InBlock(t.blocks, b, k) && PartOf(t.ds, k, id) ==> PromptGroup(t, b + 1))
    && forall i :: Releases(t, i, id) && BegunAt(t, i, id).Some? ==>
         t.hs[i].at.sweep < BegunAt(t, i, id).value + REASSEMBLY_TTL
  }

  // ----- The tables stay within their limits -----

  ghost function Heard(st: DecoderState, f: Frames.Frame): DecoderState {
    st.(window := SW.Observe(st.window, f.sequence).0)
  }

  /** There is room for the frame's group, and no reassembly is evicted after it. */
  ghost predicate Fits(code: Erasure.Code, st: DecoderState, f: Frames.Frame, at: Readings)
    requires WfGroups(st.groups) && DimensionsOk(f)
  {
    && Room(st.groups, f)
    && |Swept(Absorb(code, st, f, at).0, at.close).packets| <= MAX_REASSEMBLIES
  }

  ghost predicate WithinLimits(t: Trace) {
    forall i :: Accepts(t, i) && WfGroups(t.states[i].groups) && DimensionsOk(t.hs[i].f) ==>
      var f, at := t.hs[i].f, t.hs[i].at;
      Fits(t.code, Swept(Heard(t.states[i], f), at.sweep), f, at)
  }

  ghost predicate NothingForgotten(hs: seq<Happening>) {
    forall i :: 0 <= i < |hs| ==> !hs[i].Forget?
  }

  ghost predicate Undisturbed(t: Trace) {
    Honest(t) && Steady(t.hs) && WithinLimits(t) && NothingForgotten(t.hs)
  }

  // ----- One happening -----

  /** What an accepted frame does: a sweep, the frame itself, and another sweep. */
  ghost predicate StepsOn(t: Trace, n: nat)
    requires n < |t.hs| && n + 1 < |t.states| && n < |t.outs| && t.hs[n].Get?
  {
    var f, at := t.hs[n].f, t.hs[n].at;
    var st1 := Swept(Heard(t.states[n], f), at.sweep);
    && WfGroups(st1.groups) && DimensionsOk(f) && Room(st1.groups, f)
    && t.states[n + 1] == Swept(Absorb(t.code, st1, f, at).0, at.close)
    && Absorb(t.code, st1, f, at).1 == Ok(t.outs[n])
  }

  lemma Shape(t: Trace)
    requires Honest(t)
    ensures |t.states| == |t.hs| + 1 && |t.outs| == |t.hs|
  {
  }

  lemma SweptFewer(st: DecoderState, now: nat)
    ensures |Swept(st, now).packets| <= |st.packets|
  {
    Ledger.SubsetSize(Swept(st, now).packets.Keys, st.packets.Keys);
  }

  lemma SweptSound(code: Erasure.Code, ds: seq<seq<byte>>, blocks: seq<Block>, session: nat, st: DecoderState, now: nat)
    requires Sender(code, ds, blocks) && Sound(code, ds, blocks, session, st)
    ensures Sound(code, ds, blocks, session, Swept(st, now))
  {
    hide Sender, GroupsSound, DecoderReassembly.PacketsSound;
    ShrunkSound(code, ds, blocks, session, st, Swept(st, now));
  }

  lemma AcceptedGet(t: Trace, n: nat, r: Result<seq<seq<byte>>, DecodeError>)
    requires Undisturbed(t) && n < |t.hs| && n + 1 < |t.states| && n < |t.outs| && Accepts(t, n)
    requires Sound(t.code, t.ds, t.blocks, t.session, t.states[n]) && |t.states[n].packets| <= MAX_REASSEMBLIES
    requires WfGroups(t.states[n].groups) && FrameMay(t.code, t.states[n], t.hs[n].f, t.hs[n].at, t.states[n + 1], r)
    requires t.outs[n] == if r.Ok? then r.value else []
    ensures StepsOn(t, n) && |t.states[n + 1].packets| <= MAX_REASSEMBLIES
  {
    hide Sender, RunOf, HonestRun, GroupsSound, DecoderReassembly.PacketsSound, Absorb, Pruned, Carries, GoodWord,
      Room, Swept, AllFrom;
    var f, at, st := t.hs[n].f, t.hs[n].at, t.states[n];
    assert HonestFrame(t.code, t.ds, t.blocks, t.session, f) by { FrameIsHonest(t, n); }
    HonestDimensions(t.code, t.ds, t.blocks, t.session, f);
    var st1 := FirstPrune(t.code, st, f, at, t.states[n + 1], r);
    SweptFewer(Heard(st, f), at.sweep);
    PruneSweeps(Heard(st, f), at.sweep, st1);
    SweptSound(t.code, t.ds, t.blocks, t.session, Heard(st, f), at.sweep);
    AbsorbSound(t.code, t.ds, t.blocks, t.session, st1, f, at);
    assert Fits(t.code, st1, f, at);
    PruneSweeps(Absorb(t.code, st1, f, at).0, at.close, t.states[n + 1]);
  }

  lemma FrameIsHonest(t: Trace, n: nat)
    requires Honest(t) && n < |t.hs| && t.hs[n].Get?
    ensures HonestFrame(t.code, t.ds, t.blocks, t.session, t.hs[n].f)
  {
  }

  /** Anything but an accepted frame leaves the tables alone. */
  ghost predicate Idles(t: Trace, n: nat)
    requires n + 1 < |t.states| && n < |t.outs|
  {
    t.states[n + 1] == t.states[n].(window := t.states[n + 1].window) && t.outs[n] == []
  }

  lemma StepIs(t: Trace, n: nat)
    requires Undisturbed(t) && n < |t.hs| && n + 1 < |t.states| && n < |t.outs|
    requires Sound(t.code, t.ds, t.blocks, t.session, t.states[n]) && |t.states[n].packets| <= MAX_REASSEMBLIES
    ensures |t.states[n + 1].packets| <= MAX_REASSEMBLIES
    ensures if Accepts(t, n) then StepsOn(t, n) else Idles(t, n)
  {
    hide Sender, HonestRun, Sound, StepsOn, WithinLimits, Steady, Pruned, AbsorbMay;
    assert May(t.code, t.states[n], t.hs[n], t.states[n + 1], t.outs[n]);
    if t.hs[n].Get? {
      var f, at := t.hs[n].f, t.hs[n].at;
      var r :| FrameMay(t.code, t.states[n], f, at, t.states[n + 1], r) && t.outs[n] == if r.Ok? then r.value else [];
      if Accepts(t, n) {
        AcceptedGet(t, n, r);
      }
    }
  }

  // ----- Prompt groups -----

  /** The shards of a prompt group are out as its accepted frames decide; once gone, it is past its time. */
  ghost predicate GroupStanding(t: Trace, n: nat, g: nat)
    requires n < |t.states| && n <= |t.hs|
  {
    var groups, first := t.states[n].groups, OpenedAt(t, n, g);
    && (first.None? ==> g !in groups && Indexes(AcceptedBy(t, n), g) == {})
    && (first.Some? && g in groups ==>
          groups[g].created >= first.value && GroupExact(groups[g], Indexes(AcceptedBy(t, n), g)))
    && (first.Some? && g !in groups ==> Clock(t.hs, n) >= first.value + GROUP_TTL)
  }

  /** A prompt group meets its next frame with all that came before. */
  lemma MetInTime(t: Trace, n: nat, g: nat)
    requires n < |t.hs| && n < |t.states| && Steady(t.hs) && Accepts(t, n) && t.hs[n].f.group == g
    requires PromptGroup(t, g) && GroupStanding(t, n, g) && t.hs[n].f.data >= 1
    ensures
      var f, at := t.hs[n].f, t.hs[n].at;
      var met := Met(Swept(Heard(t.states[n], f), at.sweep).groups, f, at.open);
      && GroupExact(met, Indexes(AcceptedBy(t, n), g))
      && OpenedAt(t, n + 1, g).Some? && met.created >= OpenedAt(t, n + 1, g).value
  {
    hide GroupExact, Indexes, AcceptedBy, IsAccepted;
    var f, at := t.hs[n].f, t.hs[n].at;
    assert Ordered(at);
    ClockBehind(t.hs, n, n);
    NewGroupExact(f.data, f.parity, at.open);
  }

  /** A swept group is as it was, or past its time. */
  lemma SweptGroup(st: DecoderState, now: nat, g: nat)
    requires g in st.groups
    ensures
      var st' := Swept(st, now);
      if g in st'.groups then st'.groups[g] == st.groups[g] else now >= st.groups[g].created + GROUP_TTL
  {
  }

  lemma ClockNext(t: Trace, n: nat)
    requires n < |t.hs| && Steady(t.hs)
    ensures Clock(t.hs, n) <= Clock(t.hs, n + 1)
    ensures t.hs[n].Get? ==> t.hs[n].at.sweep <= Clock(t.hs, n + 1) == t.hs[n].at.close
  {
    if t.hs[n].Get? {
      assert Ordered(t.hs[n].at);
      ClockBehind(t.hs, n, n);
    }
  }

  /** A frame of another group, or none: sweeps only. */
  lemma GroupElsewhere(t: Trace, n: nat, g: nat)
    requires n < |t.hs| && n + 1 < |t.states| && n < |t.outs| && Steady(t.hs) && GroupStanding(t, n, g)
    requires if Accepts(t, n) then StepsOn(t, n) && t.hs[n].f.group != g && AbsorbsInto(t, n) else Idles(t, n)
    ensures GroupStanding(t, n + 1, g)
  {
    hide GroupExact, Indexes, IsAccepted, Absorb;
    ClockNext(t, n);
    if Accepts(t, n) {
      var f, at := t.hs[n].f, t.hs[n].at;
      var st0 := Heard(t.states[n], f);
      var st1 := Swept(st0, at.sweep);
      IndexesSnoc(AcceptedBy(t, n), f.group, f.index, g);
      if g in st0.groups {
        SweptGroup(st0, at.sweep, g);
        if g in st1.groups { SweptGroup(Absorb(t.code, st1, f, at).0, at.close, g); }
      }
    }
  }

  /** An accepted frame changes no group but its own. */
  ghost predicate AbsorbsInto(t: Trace, n: nat)
    requires n < |t.hs| && n < |t.states| && t.hs[n].Get?
  {
    var f, at := t.hs[n].f, t.hs[n].at;
    var st1 := Swept(Heard(t.states[n], f), at.sweep);
    WfGroups(st1.groups) && DimensionsOk(f) &&
    var met := Met(st1.groups, f, at.open);
    && WfGroup(met) && f.index < |met.shards|
    && Absorb(t.code, st1, f, at).0.groups ==
         st1.groups[f.group := Deliver(t.code, met, f.index, f.payload).0]
  }

  lemma GroupNext(t: Trace, n: nat, g: nat)
    requires Sender(t.code, t.ds, t.blocks) && n < |t.hs| && n + 1 < |t.states| && n < |t.outs| && Steady(t.hs)
    requires Accepts(t, n) && StepsOn(t, n) && AbsorbsInto(t, n) && t.hs[n].f.group == g
    requires Carries(t.code, Stream(t.ds), t.blocks, t.hs[n].f)
    requires GroupsSound(t.code, t.ds, t.blocks, Swept(Heard(t.states[n], t.hs[n].f), t.hs[n].at.sweep).groups)
    requires PromptGroup(t, g) && GroupStanding(t, n, g)
    ensures GroupStanding(t, n + 1, g)
  {
    hide GroupExact, Indexes, IsAccepted, Absorb, Sender, GroupsSound, GroupSound, GoodWord, Deliver, Stream,
      Carries, PromptGroup;
    var f, at := t.hs[n].f, t.hs[n].at;
    var st1 := Swept(Heard(t.states[n], f), at.sweep);
    var met := Met(st1.groups, f, at.open);
    ClockNext(t, n);
    MetInTime(t, n, g);
    MetSound(t.code, t.ds, t.blocks, st1.groups, f, at.open);
    IndexesSnoc(AcceptedBy(t, n), f.group, f.index, g);
    MetExact(t, f, met, Indexes(AcceptedBy(t, n), g));
    SweptGroup(Absorb(t.code, st1, f, at).0, at.close, g);
  }

  lemma MetExact(t: Trace, f: Frames.Frame, met: Group, got: set<nat>)
    requires Sender(t.code, t.ds, t.blocks) && Carries(t.code, Stream(t.ds), t.blocks, f)
    requires
      var b := t.blocks[f.group - 1];
      && GroupSound(met, WordOf(t.code, t.ds, b), b.data, b.parity)
      && GoodWord(t.code, WordOf(t.code, t.ds, b), b.data, b.parity) && f.payload == WordOf(t.code, t.ds, b)[f.index]
    requires GroupExact(met, got)
    ensures f.index < |met.shards| && GroupExact(Deliver(t.code, met, f.index, f.payload).0, got + {f.index})
    ensures NewlyOut(Released(met, f.index, f.payload), got, t.blocks[f.group - 1].data, f.index)
  {
    hide Stream, Deliver, Released, WordOf, GroupExact, HonestCode;
    var b := t.blocks[f.group - 1];
    DeliverExact(t.code, met, WordOf(t.code, t.ds, b), f.index, got);
    ReleasedExact(met, f.index, f.payload, got);
  }

  /** `js` are the data shards of a block that a frame with this index newly lets out. */
  ghost predicate NewlyOut(js: seq<nat>, got: set<nat>, data: nat, index: nat) {
    Ledger.Distinct(js) && forall j: nat :: j in js <==> j < data && !Out(got, data, j) && Out(got + {index}, data, j)
  }
}
