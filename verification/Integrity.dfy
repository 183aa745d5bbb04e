/**
 * Integrity with pruning: whatever is lost, repeated, reordered, expired or evicted, nothing
 * but datagrams the encoder was given comes out.
 */
module Integrity {
  import opened Bytes
  import Fragments
  import opened Erasure
  import opened Frames
  import Reassembly
  import FecEncoder
  import opened EncoderHistory
  import opened FecDecoder
  import opened DecoderReassembly
  import opened GroupRecovery
  import opened Tunnel
  import SW = SequenceWindow

  ghost predicate GroupsSound(code: Code, ds: seq<seq<byte>>, blocks: seq<Block>, groups: map<nat, Group>)
    requires Sender(code, ds, blocks)
  {
    && (forall g :: g in groups ==> 1 <= g <= |blocks|)
    && forall g :: g in groups ==>
         GroupSound(groups[g], WordOf(code, ds, blocks[g - 1]), blocks[g - 1].data, blocks[g - 1].parity)
  }

  ghost predicate Sound(code: Code, ds: seq<seq<byte>>, blocks: seq<Block>, session: nat, st: DecoderState)
    requires Sender(code, ds, blocks)
  {
    st.session == session && GroupsSound(code, ds, blocks, st.groups) && PacketsSound(ds, st.packets)
  }

  lemma ShrunkSound(code: Code, ds: seq<seq<byte>>, blocks: seq<Block>, session: nat,
                    st: DecoderState, st': DecoderState)
    requires Sender(code, ds, blocks) && Sound(code, ds, blocks, session, st) && Shrunk(st, st')
    ensures Sound(code, ds, blocks, session, st')
  {
    hide Sender, GroupSound, PartsSound, WordOf;
  }

  lemma PrunedShrinks(st: DecoderState, now: nat, st': DecoderState)
    requires Pruned(st, now, st')
    ensures Shrunk(st, st')
  {
  }

  // ----- Absorbing a frame -----

  ghost predicate AllFrom(out: seq<seq<byte>>, ds: seq<seq<byte>>) {
    forall i :: 0 <= i < |out| ==> out[i] in ds
  }

  lemma ShardSound(ds: seq<seq<byte>>, shard: seq<byte>, k: nat, packets: Reassembly.Table, now: nat)
    requires k < |Stream(ds)| && Carry(ds, shard, k) && PacketsSound(ds, packets)
    ensures
      var (packets', out) := FragmentStep(packets, shard, now);
      PacketsSound(ds, packets') && AllFrom(out, ds)
  {
    hide Stream, PacketsSound, PlaceFragment, Fragments.ParseShard, FragmentOf;
    var f := Stream(ds)[k];
    FragmentShape(ds, f);
    FragmentRange(ds, f);
    if f.count <= Fragments.MAX_FRAGMENTS { PlaceSound(ds, packets, f, now); }
  }

  lemma {:induction false} FragmentsSound(ds: seq<seq<byte>>, word: seq<seq<byte>>, b: Block, packets: Reassembly.Table,
                                          js: seq<nat>, place: nat -> nat)
    requires ShardsCarry(ds, word, b) && Below(js, b.data) && PacketsSound(ds, packets)
    ensures
      var (packets', out) := FragmentAll(packets, Pick(word, js), place);
      PacketsSound(ds, packets') && AllFrom(out, ds)
  {
    hide Stream, PacketsSound, FragmentStep, Carry, Pick;
    if js == [] {
      assert Pick(word, js) == [];
    } else {
      var init, j := js[..|js| - 1], js[|js| - 1];
      FragmentsSound(ds, word, b, packets, init, place);
      Snoc(js);
      PickSnoc(word, init, j);
      FragmentAllSnoc(packets, Pick(word, init), word[j], place);
      ShardSound(ds, word[j], b.first + j, FragmentAll(packets, Pick(word, init), place).0, place(|init|));
    }
  }

  lemma MetSound(code: Code, ds: seq<seq<byte>>, blocks: seq<Block>, groups: map<nat, Group>, f: Frame, now: nat)
    requires Sender(code, ds, blocks) && GroupsSound(code, ds, blocks, groups)
    requires Carries(code, Stream(ds), blocks, f)
    ensures
      var b := blocks[f.group - 1];
      && GroupSound(Met(groups, f, now), WordOf(code, ds, b), b.data, b.parity)
      && GoodWord(code, WordOf(code, ds, b), b.data, b.parity) && f.payload == WordOf(code, ds, b)[f.index]
  {
    hide Stream, HonestCode, GoodWord, FecEncoder.GroupPayloads;
    BlockWordGood(code, ds, blocks[f.group - 1]);
    assert |WordOf(code, ds, blocks[f.group - 1])| == f.data + f.parity;
  }

  /** A frame of a sound group releases some of its block's own data shards. */
  lemma AbsorbIs(code: Code, ds: seq<seq<byte>>, blocks: seq<Block>, st: DecoderState, f: Frame, at: Readings)
    requires Sender(code, ds, blocks) && GroupsSound(code, ds, blocks, st.groups)
    requires WfGroups(st.groups) && DimensionsOk(f) && Carries(code, Stream(ds), blocks, f) && Room(st.groups, f)
    ensures
      var b, g := blocks[f.group - 1], Met(st.groups, f, at.open);
      WfGroup(g) && f.index < |g.shards| &&
      var js, g' := Released(g, f.index, f.payload), Deliver(code, g, f.index, f.payload).0;
      && GroupSound(g', WordOf(code, ds, b), b.data, b.parity) && Below(js, b.data)
      && b.data <= |WordOf(code, ds, b)|
      && var (packets, out) := FragmentAll(st.packets, Pick(WordOf(code, ds, b), js), at.place);
         Absorb(code, st, f, at) == (st.(groups := st.groups[f.group := g'], packets := packets), Ok(out))
  {
    hide Deliver, FragmentAll, Stream, HonestCode, Released, GoodWord, WordOf;
    var b, g := blocks[f.group - 1], Met(st.groups, f, at.open);
    MetSound(code, ds, blocks, st.groups, f, at.open);
    DeliverSound(code, g, WordOf(code, ds, b), f.index);
    WordLength(code, ds, b);
  }

  lemma GroupsSoundWith(code: Code, ds: seq<seq<byte>>, blocks: seq<Block>, groups: map<nat, Group>, group: nat,
                        g: Group)
    requires Sender(code, ds, blocks) && GroupsSound(code, ds, blocks, groups) && 1 <= group <= |blocks|
    requires GroupSound(g, WordOf(code, ds, blocks[group - 1]), blocks[group - 1].data, blocks[group - 1].parity)
    ensures GroupsSound(code, ds, blocks, groups[group := g])
  {
    hide GroupSound, WordOf, HonestCode, Stream;
  }

  lemma AbsorbSound(code: Code, ds: seq<seq<byte>>, blocks: seq<Block>, session: nat, st: DecoderState,
                    f: Frame, at: Readings)
    requires Sender(code, ds, blocks) && Sound(code, ds, blocks, session, st)
    requires WfGroups(st.groups) && DimensionsOk(f) && Carries(code, Stream(ds), blocks, f)
    ensures
      var (st', r) := Absorb(code, st, f, at);
      && Sound(code, ds, blocks, session, st')
      && (if Room(st.groups, f) then r.Ok? && AllFrom(r.value, ds) else st' == st && r == Err(TooManyGroups))
  {
    hide Deliver, FragmentAll, Stream, HonestCode, Pick, AllFrom, GroupSound, PacketsSound, WordOf, Released,
      GroupsSound;
    if Room(st.groups, f) {
      var b, met := blocks[f.group - 1], Met(st.groups, f, at.open);
      AbsorbIs(code, ds, blocks, st, f, at);
      GroupsSoundWith(code, ds, blocks, st.groups, f.group, Deliver(code, met, f.index, f.payload).0);
      WordCarries(code, ds, b);
      FragmentsSound(ds, WordOf(code, ds, b), b, st.packets, Released(met, f.index, f.payload), at.place);
    }
  }

  // ----- Runs -----

  /** The state between the first prune of an accepted frame and the rest of the call. */
  lemma FirstPrune(code: Code, st: DecoderState, f: Frame, at: Readings,
                   st': DecoderState, r: Result<seq<seq<byte>>, DecodeError>) returns (st1: DecoderState)
    requires WfGroups(st.groups) && IsAccepted(st, f) && DimensionsOk(f) && FrameMay(code, st, f, at, st', r)
    ensures Pruned(st.(window := SW.Observe(st.window, f.sequence).0), at.sweep, st1) && WfGroups(st1.groups)
    ensures AbsorbMay(code, st1, f, at, st', r)
  {
    hide Absorb;
    var st0 := st.(window := SW.Observe(st.window, f.sequence).0);
    st1 :| Pruned(st0, at.sweep, st1) && AbsorbMay(code, st1, f, at, st', r);
  }

  lemma GetSound(code: Code, ds: seq<seq<byte>>, blocks: seq<Block>, session: nat, st: DecoderState,
                 f: Frame, at: Readings, st': DecoderState, r: Result<seq<seq<byte>>, DecodeError>)
    requires Sender(code, ds, blocks) && Sound(code, ds, blocks, session, st) && WfGroups(st.groups)
    requires HonestFrame(code, ds, blocks, session, f) && FrameMay(code, st, f, at, st', r)
    ensures Sound(code, ds, blocks, session, st') && (r.Ok? ==> AllFrom(r.value, ds))
  {
    hide GroupsSound, PacketsSound, Sender, Absorb, Pruned, AllFrom, Carries, GoodWord;
    HonestDimensions(code, ds, blocks, session, f);
    assert AllFrom([], ds) by { NoneFrom(ds); }
    if IsAccepted(st, f) {
      var st0 := st.(window := SW.Observe(st.window, f.sequence).0);
      var st1 := FirstPrune(code, st, f, at, st', r);
      PrunedShrinks(st0, at.sweep, st1);
      ShrunkSound(code, ds, blocks, session, st0, st1);
      AbsorbSound(code, ds, blocks, session, st1, f, at);
      if r.Ok? {
        var st2 := Absorb(code, st1, f, at).0;
        PrunedShrinks(st2, at.close, st');
        ShrunkSound(code, ds, blocks, session, st2, st');
      }
    }
  }

  lemma NoneFrom(ds: seq<seq<byte>>)
    ensures AllFrom([], ds)
  {
  }

  lemma MaySound(code: Code, ds: seq<seq<byte>>, blocks: seq<Block>, session: nat,
                 st: DecoderState, h: Happening, st': DecoderState, out: seq<seq<byte>>)
    requires Sender(code, ds, blocks) && Sound(code, ds, blocks, session, st) && May(code, st, h, st', out)
    requires h.Get? ==> HonestFrame(code, ds, blocks, session, h.f)
    ensures Sound(code, ds, blocks, session, st') && AllFrom(out, ds)
  {
    hide GroupsSound, PacketsSound, Sender, FrameMay, HonestFrame, Shrunk, AllFrom;
    NoneFrom(ds);
    match h
    case Count =>
    case Forget => ShrunkSound(code, ds, blocks, session, st, st');
    case Get(f, at) =>
      var r :| FrameMay(code, st, f, at, st', r) && out == (if r.Ok? then r.value else []);
      GetSound(code, ds, blocks, session, st, f, at, st', r);
  }

  lemma {:induction false} RunSound(code: Code, ds: seq<seq<byte>>, blocks: seq<Block>, session: nat,
                                    hs: seq<Happening>, states: seq<DecoderState>, outs: seq<seq<seq<byte>>>, n: nat)
    requires Sender(code, ds, blocks) && RunOf(code, session, hs, states, outs) && n <= |hs|
    requires HonestRun(code, ds, blocks, session, hs)
    ensures Sound(code, ds, blocks, session, states[n])
    ensures forall i :: 0 <= i < n ==> AllFrom(outs[i], ds)
  {
    hide May, HonestFrame, Sender, AllFrom;
    if n > 0 {
      hide Sound;
      RunSound(code, ds, blocks, session, hs, states, outs, n - 1);
      assert May(code, states[n - 1], hs[n - 1], states[n], outs[n - 1]);
      MaySound(code, ds, blocks, session, states[n - 1], hs[n - 1], states[n], outs[n - 1]);
    }
  }

  /** Integrity: every datagram the decoder outputs is, byte for byte, one the encoder was given. */
  lemma OutputsAreInputs(code: Code, session: nat, version: nat, keyId: nat, force: Option<nat>, sent: seq<Event>,
                         hs: seq<Happening>, states: seq<DecoderState>, outs: seq<seq<seq<byte>>>)
    requires HonestCode(code) && |Datagrams(sent)| < U64_LIMIT
    requires forall i :: 0 <= i < |hs| && hs[i].Get? ==>
      hs[i].f in RunT(code, FecEncoder.InitialEncoder(session, version, keyId, force), sent).frames
    requires RunOf(code, session, hs, states, outs)
    ensures forall i, j :: 0 <= i < |outs| && 0 <= j < |outs[i]| ==> outs[i][j] in Datagrams(sent)
  {
    hide RunT, Datagrams, May, Sound, HonestFrame, HonestCode, Sender;
    SenderFrom(code, session, version, keyId, force, sent);
    var blocks := RunT(code, FecEncoder.InitialEncoder(session, version, keyId, force), sent).blocks;
    RunSound(code, Datagrams(sent), blocks, session, hs, states, outs, |hs|);
    assert forall i :: 0 <= i < |outs| ==> AllFrom(outs[i], Datagrams(sent));
  }
}
