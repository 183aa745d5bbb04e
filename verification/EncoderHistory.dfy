/**
 * What an encoder has sent: a run of datagrams, flushes, reports and feedback is written
 * down as one fragment stream cut into blocks, and every frame is placed in it.
 */
module EncoderHistory {
  import opened Bytes
  import opened Fragments
  import opened Erasure
  import opened Frames
  import opened AdaptiveControl
  import opened FecEncoder

  /** A group: `data` fragments of the stream from `first`, sent as the frames from `at`. */
  datatype Block = Block(first: nat, data: nat, parity: nat, at: nat)

  datatype Transcript = Transcript(
    st: EncoderState, stream: seq<Fragment>, frames: seq<Frame>, blocks: seq<Block>)

  datatype Event = Datagram(payload: seq<byte>) | Flush | Report(loss: u32) | Feedback(sample: u32)

  ghost function FlushT(code: Code, t: Transcript): Transcript {
    if t.st.shards == [] then t
    else
      var (st, fs) := FlushStep(code, t.st);
      var block := Block(SaturatingSub(|t.stream|, |t.st.shards|), |t.st.shards|, ParityNow(t.st), |t.frames|);
      Transcript(st, t.stream, t.frames + fs, t.blocks + [block])
  }

  ghost function QueueT(t: Transcript, f: Fragment): Transcript {
    t.(st := t.st.(shards := t.st.shards + [ShardBytes(f)]), stream := t.stream + [f])
  }

  ghost function PushT(code: Code, t: Transcript, f: Fragment): Transcript {
    var t1 := QueueT(t, f);
    if |t1.st.shards| == DATA_SHARDS then FlushT(code, t1) else t1
  }

  ghost function PushAllT(code: Code, t: Transcript, fs: seq<Fragment>): Transcript {
    if fs == [] then t else PushT(code, PushAllT(code, t, fs[..|fs| - 1]), fs[|fs| - 1])
  }

  ghost function StepT(code: Code, t: Transcript, e: Event): Transcript {
    match e
    case Datagram(payload) =>
      PushAllT(code, t.(st := t.st.(packet := t.st.packet + 1)), FragmentsOf(t.st.packet, payload))
    case Flush => FlushT(code, t)
    case Report(loss) =>
      var (st, f) := ReportStep(t.st, loss);
      t.(st := st, frames := t.frames + [f])
    case Feedback(sample) =>
      t.(st := t.st.(control := Step(t.st.control, sample)))
  }

  ghost function RunT(code: Code, st: EncoderState, events: seq<Event>): Transcript {
    if events == [] then Transcript(st, [], [], [])
    else StepT(code, RunT(code, st, events[..|events| - 1]), events[|events| - 1])
  }

  // ----- The transcript is a record of the encoder's own steps -----

  lemma PushMatches(code: Code, t: Transcript, f: Fragment)
    ensures
      var (st, out) := PushStep(code, t.st, ShardBytes(f));
      PushT(code, t, f).st == st && PushT(code, t, f).frames == t.frames + out
  {
    hide ShardBytes, GroupFrames;
  }

  lemma {:induction false} PushAllMatches(code: Code, t: Transcript, fs: seq<Fragment>)
    ensures
      var (st, out) := PushAll(code, t.st, ShardsOf(fs));
      PushAllT(code, t, fs).st == st && PushAllT(code, t, fs).frames == t.frames + out
  {
    hide PushT, PushStep, ShardBytes;
    if fs != [] {
      var init, last := fs[..|fs| - 1], fs[|fs| - 1];
      PushAllMatches(code, t, init);
      PushMatches(code, PushAllT(code, t, init), last);
      assert ShardsOf(fs)[..|fs| - 1] == ShardsOf(init);
    }
  }

  /** Each step of the transcript is the encoder's step, and appends the frames it returned. */
  lemma TranscriptIsFaithful(code: Code, t: Transcript, e: Event)
    ensures
      var t' := StepT(code, t, e);
      match e
      case Datagram(payload) =>
        var (st, r) := DatagramStep(code, t.st, payload);
        t'.st == st && t'.frames == t.frames + (if r.Ok? then r.value else [])
      case Flush => t'.st == FlushStep(code, t.st).0 && t'.frames == t.frames + FlushStep(code, t.st).1
      case Report(loss) => t'.st == ReportStep(t.st, loss).0 && t'.frames == t.frames + [ReportStep(t.st, loss).1]
      case Feedback(sample) => t'.st == t.st.(control := Step(t.st.control, sample)) && t'.frames == t.frames
  {
    hide PushT, PushStep, GroupFrames, Step, Chunks;
    if e.Datagram? {
      PushAllMatches(code, t.(st := t.st.(packet := t.st.packet + 1)), FragmentsOf(t.st.packet, e.payload));
    }
  }

  // ----- The stream law -----

  function BlocksEnd(blocks: seq<Block>): nat {
    if blocks == [] then 0 else blocks[|blocks| - 1].first + blocks[|blocks| - 1].data
  }

  /** Blocks cut the stream from its start without gap or overlap. */
  ghost predicate Tiled(blocks: seq<Block>) {
    forall b :: 0 <= b < |blocks| ==> blocks[b].first == BlocksEnd(blocks[..b])
  }

  ghost predicate BlockBounds(b: Block) {
    1 <= b.data <= DATA_SHARDS && b.parity <= MAX_PARITY && b.parity <= b.data
  }

  ghost function BlockWord(code: Code, stream: seq<Fragment>, b: Block): seq<seq<byte>>
    requires b.first + b.data <= |stream|
  {
    GroupPayloads(code, ShardsOf(stream[b.first..b.first + b.data]), b.parity)
  }

  ghost predicate IsReport(f: Frame) { f.kind == KIND_REPORT }

  /** `f` is the frame number `f.index` of its block. */
  ghost predicate Carries(code: Code, stream: seq<Fragment>, blocks: seq<Block>, f: Frame) {
    1 <= f.group <= |blocks| &&
    var b := blocks[f.group - 1];
    && b.first + b.data <= |stream|
    && f.data == b.data && f.parity == b.parity && f.index < b.data + b.parity
    && f.kind == (if f.index < b.data then KIND_DATA else KIND_PARITY)
    && f.payload == BlockWord(code, stream, b)[f.index]
  }

  ghost predicate Placed(code: Code, session: nat, stream: seq<Fragment>, frames: seq<Frame>, blocks: seq<Block>,
                         i: nat)
    requires i < |frames|
  {
    var f := frames[i];
    && f.sequence == i + 1 && f.session == session
    && (IsReport(f) || (Carries(code, stream, blocks, f) && i == blocks[f.group - 1].at + f.index))
  }

  ghost predicate SentAt(frames: seq<Frame>, i: nat, group: nat, index: nat) {
    i < |frames| && frames[i].group == group && frames[i].index == index && !IsReport(frames[i])
  }

  /** Frame `p` of block `b` was sent, at its own place. */
  ghost predicate Sent(frames: seq<Frame>, blocks: seq<Block>, b: nat, p: nat)
    requires b < |blocks|
  {
    SentAt(frames, blocks[b].at + p, b + 1, p)
  }

  /** Frames and blocks agree with the stream and with each other. */
  ghost predicate Laid(code: Code, session: nat, stream: seq<Fragment>, frames: seq<Frame>, blocks: seq<Block>) {
    && Tiled(blocks)
    && (forall b :: 0 <= b < |blocks| ==> BlockBounds(blocks[b]) && blocks[b].first + blocks[b].data <= |stream|)
    && (forall b, p: nat :: 0 <= b < |blocks| && p < blocks[b].data + blocks[b].parity ==> Sent(frames, blocks, b, p))
    && (forall i :: 0 <= i < |frames| ==> Placed(code, session, stream, frames, blocks, i))
  }

  ghost predicate Recorded(code: Code, t: Transcript) {
    && Bounded(t.st.control)
    && |t.st.shards| <= DATA_SHARDS
    && BlocksEnd(t.blocks) + |t.st.shards| == |t.stream|
    && t.st.shards == ShardsOf(t.stream[BlocksEnd(t.blocks)..])
    && t.st.group == |t.blocks| + 1
    && t.st.sequence == |t.frames| + 1
    && Laid(code, t.st.session, t.stream, t.frames, t.blocks)
  }

  lemma WordStable(code: Code, stream: seq<Fragment>, b: Block, more: seq<Fragment>)
    requires b.first + b.data <= |stream|
    ensures BlockWord(code, stream + more, b) == BlockWord(code, stream, b)
  {
    hide GroupPayloads, ShardsOf;
    assert (stream + more)[b.first..b.first + b.data] == stream[b.first..b.first + b.data];
  }

  lemma LaidUnderMore(code: Code, session: nat, stream: seq<Fragment>, frames: seq<Frame>, blocks: seq<Block>,
                      f: Fragment)
    requires Laid(code, session, stream, frames, blocks)
    ensures Laid(code, session, stream + [f], frames, blocks)
  {
    forall i | 0 <= i < |frames| ensures Placed(code, session, stream + [f], frames, blocks, i) {
      assert Placed(code, session, stream, frames, blocks, i);
      if !IsReport(frames[i]) { WordStable(code, stream, blocks[frames[i].group - 1], [f]); }
    }
  }

  lemma QueueKeeps(code: Code, t: Transcript, f: Fragment)
    requires Recorded(code, t) && |t.st.shards| < DATA_SHARDS
    ensures Recorded(code, QueueT(t, f))
  {
    var t' := QueueT(t, f);
    var end := BlocksEnd(t.blocks);
    assert t'.stream[end..] == t.stream[end..] + [f];
    assert t'.st.shards == ShardsOf(t'.stream[end..]);
    LaidUnderMore(code, t.st.session, t.stream, t.frames, t.blocks, f);
  }

  lemma LaidWithReport(code: Code, session: nat, stream: seq<Fragment>, frames: seq<Frame>, blocks: seq<Block>,
                       f: Frame)
    requires Laid(code, session, stream, frames, blocks)
    requires IsReport(f) && f.sequence == |frames| + 1 && f.session == session
    ensures Laid(code, session, stream, frames + [f], blocks)
  {
    var more := frames + [f];
    forall i | 0 <= i < |more| ensures Placed(code, session, stream, more, blocks, i) {
      if i < |frames| { assert Placed(code, session, stream, frames, blocks, i); }
    }
    forall b, p: nat | 0 <= b < |blocks| && p < blocks[b].data + blocks[b].parity ensures Sent(more, blocks, b, p) {
      assert Sent(frames, blocks, b, p);
    }
  }

  /** `fs` are the frames of a new block `block`, numbered on from `frames`. */
  ghost predicate FramesOf(code: Code, session: nat, stream: seq<Fragment>, fs: seq<Frame>, block: Block, group: nat) {
    && block.first + block.data <= |stream|
    && |fs| == block.data + block.parity
    && forall p :: 0 <= p < |fs| ==>
         && fs[p].sequence == block.at + p + 1 && fs[p].session == session && fs[p].group == group && fs[p].index == p
         && fs[p].data == block.data && fs[p].parity == block.parity
         && fs[p].kind == (if p < block.data then KIND_DATA else KIND_PARITY)
         && fs[p].payload == BlockWord(code, stream, block)[p]
  }

  lemma TiledWithBlock(blocks: seq<Block>, block: Block)
    requires Tiled(blocks) && block.first == BlocksEnd(blocks)
    ensures Tiled(blocks + [block])
  {
    hide BlocksEnd;
    var more := blocks + [block];
    forall b | 0 <= b < |more| ensures more[b].first == BlocksEnd(more[..b]) {
      assert more[..b] == blocks[..b];
      assert blocks[..|blocks|] == blocks;
    }
  }

  lemma PlacedWithBlock(code: Code, session: nat, stream: seq<Fragment>, frames: seq<Frame>, blocks: seq<Block>,
                        fs: seq<Frame>, block: Block, i: nat)
    requires i < |frames| ==> Placed(code, session, stream, frames, blocks, i)
    requires block.at == |frames| && FramesOf(code, session, stream, fs, block, |blocks| + 1)
    requires i < |frames + fs|
    ensures Placed(code, session, stream, frames + fs, blocks + [block], i)
  {
    hide BlockWord;
    var moreFrames, moreBlocks := frames + fs, blocks + [block];
    if i < |frames| {
      assert moreFrames[i] == frames[i];
    } else {
      assert moreFrames[i] == fs[i - |frames|];
      assert moreBlocks[|blocks|] == block;
    }
  }

  lemma SentWithBlock(code: Code, session: nat, stream: seq<Fragment>, frames: seq<Frame>, blocks: seq<Block>,
                      fs: seq<Frame>, block: Block, b: nat, p: nat)
    requires b <= |blocks| && (b < |blocks| ==> Sent(frames, blocks, b, p))
    requires b == |blocks| ==> p < block.data + block.parity
    requires block.at == |frames| && FramesOf(code, session, stream, fs, block, |blocks| + 1)
    ensures Sent(frames + fs, blocks + [block], b, p)
  {
    hide BlockWord;
    if b == |blocks| { assert (frames + fs)[|frames| + p] == fs[p]; }
  }

  lemma LaidWithBlock(code: Code, session: nat, stream: seq<Fragment>, frames: seq<Frame>, blocks: seq<Block>,
                      fs: seq<Frame>, block: Block)
    requires Laid(code, session, stream, frames, blocks)
    requires BlockBounds(block) && block.first == BlocksEnd(blocks) && block.at == |frames|
    requires FramesOf(code, session, stream, fs, block, |blocks| + 1)
    ensures Laid(code, session, stream, frames + fs, blocks + [block])
  {
    hide Tiled, Placed, Sent, BlockBounds, BlockWord, BlocksEnd;
    var moreFrames, moreBlocks := frames + fs, blocks + [block];
    TiledWithBlock(blocks, block);
    forall i | 0 <= i < |moreFrames| ensures Placed(code, session, stream, moreFrames, moreBlocks, i) {
      PlacedWithBlock(code, session, stream, frames, blocks, fs, block, i);
    }
    forall b, p: nat | 0 <= b < |moreBlocks| && p < moreBlocks[b].data + moreBlocks[b].parity
      ensures Sent(moreFrames, moreBlocks, b, p)
    {
      SentWithBlock(code, session, stream, frames, blocks, fs, block, b, p);
    }
  }

  lemma FlushFrames(code: Code, st: EncoderState, stream: seq<Fragment>, block: Block)
    requires |st.shards| <= |stream| && st.sequence >= 1
    requires block == Block(|stream| - |st.shards|, |st.shards|, ParityNow(st), st.sequence - 1)
    requires st.shards == ShardsOf(stream[block.first..])
    ensures FramesOf(code, st.session, stream, GroupFrames(code, st, block.parity), block, st.group)
  {
    hide GroupPayloads, ShardsOf, ChooseParity;
    assert stream[block.first..] == stream[block.first..block.first + block.data];
  }

  lemma FlushKeeps(code: Code, t: Transcript)
    requires Recorded(code, t)
    ensures Recorded(code, FlushT(code, t))
  {
    hide Laid, FramesOf, GroupFrames, ShardBytes;
    if t.st.shards != [] {
      var t' := FlushT(code, t);
      var block := t'.blocks[|t.blocks|];
      FlushFrames(code, t.st, t.stream, block);
      LaidWithBlock(code, t.st.session, t.stream, t.frames, t.blocks, FlushStep(code, t.st).1, block);
      assert t'.stream[BlocksEnd(t'.blocks)..] == [];
    }
  }

  lemma {:induction false} PushAllKeeps(code: Code, t: Transcript, fs: seq<Fragment>)
    requires Recorded(code, t) && |t.st.shards| < DATA_SHARDS
    ensures
      var t' := PushAllT(code, t, fs);
      && Recorded(code, t') && |t'.st.shards| < DATA_SHARDS && t'.stream == t.stream + fs
      && t'.st.packet == t.st.packet && t'.st.session == t.st.session
  {
    hide Recorded, PushT, FlushT, ShardBytes;
    if fs != [] {
      var init, last := fs[..|fs| - 1], fs[|fs| - 1];
      PushAllKeeps(code, t, init);
      PushKeeps(code, PushAllT(code, t, init), last);
      assert fs == init + [last];
    }
  }

  lemma PushKeeps(code: Code, t: Transcript, f: Fragment)
    requires Recorded(code, t) && |t.st.shards| < DATA_SHARDS
    ensures
      var t' := PushT(code, t, f);
      && Recorded(code, t') && |t'.st.shards| < DATA_SHARDS && t'.stream == t.stream + [f]
      && t'.st.packet == t.st.packet && t'.st.session == t.st.session
  {
    QueueKeeps(code, t, f);
    FlushKeeps(code, QueueT(t, f));
  }

  /** The datagrams handed to the encoder; number `i` gets packet number `i + 1`. */
  ghost function Datagrams(events: seq<Event>): seq<seq<byte>> {
    if events == [] then []
    else
      var before := Datagrams(events[..|events| - 1]);
      if events[|events| - 1].Datagram? then before + [events[|events| - 1].payload] else before
  }

  /** All fragments of all datagrams, in order. */
  ghost function Stream(ds: seq<seq<byte>>): seq<Fragment> {
    if ds == [] then [] else Stream(ds[..|ds| - 1]) + FragmentsOf(|ds|, ds[|ds| - 1])
  }

  ghost predicate Follows(code: Code, t: Transcript, t': Transcript, e: Event) {
    && Recorded(code, t') && |t'.st.shards| < DATA_SHARDS && t'.st.session == t.st.session
    && t'.stream == t.stream + (if e.Datagram? then FragmentsOf(t.st.packet, e.payload) else [])
    && t'.st.packet == t.st.packet + (if e.Datagram? then 1 else 0)
  }

  lemma DatagramKeeps(code: Code, t: Transcript, payload: seq<byte>)
    requires Recorded(code, t) && |t.st.shards| < DATA_SHARDS
    ensures Follows(code, t, StepT(code, t, Datagram(payload)), Datagram(payload))
  {
    hide Laid, FragmentsOf, PushAllT, ShardsOf;
    PushAllKeeps(code, t.(st := t.st.(packet := t.st.packet + 1)), FragmentsOf(t.st.packet, payload));
  }

  lemma ReportKeeps(code: Code, t: Transcript, loss: u32)
    requires Recorded(code, t) && |t.st.shards| < DATA_SHARDS
    ensures Follows(code, t, StepT(code, t, Report(loss)), Report(loss))
  {
    LaidWithReport(code, t.st.session, t.stream, t.frames, t.blocks, ReportStep(t.st, loss).1);
  }

  lemma FeedbackKeeps(code: Code, t: Transcript, sample: u32)
    requires Recorded(code, t) && |t.st.shards| < DATA_SHARDS
    ensures Follows(code, t, StepT(code, t, Feedback(sample)), Feedback(sample))
  {
    hide Laid, ShardsOf;
  }

  lemma StepKeeps(code: Code, t: Transcript, e: Event)
    requires Recorded(code, t) && |t.st.shards| < DATA_SHARDS
    ensures Follows(code, t, StepT(code, t, e), e)
  {
    hide Laid, ShardsOf, GroupFrames, PushAllT, Step, FragmentsOf, ShardBytes;
    match e
    case Datagram(payload) => DatagramKeeps(code, t, payload);
    case Flush => FlushKeeps(code, t);
    case Report(loss) => ReportKeeps(code, t, loss);
    case Feedback(sample) => FeedbackKeeps(code, t, sample);
  }

  /**
   * The encoder's stream law, over any mix of datagrams, flushes, reports and feedback:
   * the fragments of all datagrams in order are the blocks sent so far followed by fewer
   * than ten pending shards; frames are numbered from 1 and groups from 1 without gap; and
   * every frame is a report or the one frame of its place in its block.
   */
  lemma {:induction false} StreamLaw(code: Code, session: nat, version: nat, keyId: nat, force: Option<nat>,
                                     events: seq<Event>)
    ensures
      var t := RunT(code, InitialEncoder(session, version, keyId, force), events);
      && Recorded(code, t)
      && |t.st.shards| < DATA_SHARDS
      && t.stream == Stream(Datagrams(events))
      && t.st.packet == |Datagrams(events)| + 1
      && t.st.session == session
  {
    if events != [] {
      var prefix, e := events[..|events| - 1], events[|events| - 1];
      StreamLaw(code, session, version, keyId, force, prefix);
      StepKeeps(code, RunT(code, InitialEncoder(session, version, keyId, force), prefix), e);
      if e.Datagram? {
        assert Datagrams(events)[..|Datagrams(prefix)|] == Datagrams(prefix);
      }
    }
  }

  // ----- The stream's own structure -----

  ghost predicate FragmentOf(ds: seq<seq<byte>>, f: Fragment) {
    && 1 <= f.packet <= |ds|
    && f.index < |FragmentsOf(f.packet, ds[f.packet - 1])|
    && f == FragmentsOf(f.packet, ds[f.packet - 1])[f.index]
  }

  /** Every chunk fits a shard. */
  ghost predicate Short(fs: seq<Fragment>) {
    forall i :: 0 <= i < |fs| ==> |fs[i].chunk| <= CHUNK
  }

  /** The stream holds exactly the fragments of the datagrams. */
  lemma {:induction false} StreamMembers(ds: seq<seq<byte>>, f: Fragment)
    ensures f in Stream(ds) <==> FragmentOf(ds, f)
  {
    hide Chunks;
    if ds != [] {
      var init := ds[..|ds| - 1];
      StreamMembers(init, f);
      var own := FragmentsOf(|ds|, ds[|ds| - 1]);
      assert f in own ==> f.packet == |ds| && f.index < |own| && own[f.index] == f;
    }
  }

  /** ... each of them once. */
  lemma {:induction false} StreamDistinct(ds: seq<seq<byte>>, j: nat, k: nat)
    requires j < k < |Stream(ds)|
    ensures Stream(ds)[j] != Stream(ds)[k]
  {
    var init := ds[..|ds| - 1];
    var n := |Stream(init)|;
    if k < n {
      StreamDistinct(init, j, k);
    } else if j < n {
      StreamMembers(init, Stream(init)[j]);
    }
  }

  lemma FragmentShape(ds: seq<seq<byte>>, f: Fragment)
    requires FragmentOf(ds, f)
    ensures f.index < f.count == FragmentCount(ds[f.packet - 1]) == |Chunks(ds[f.packet - 1])| < U16_LIMIT
    ensures f.chunk == Chunks(ds[f.packet - 1])[f.index] && |f.chunk| <= CHUNK
  {
    ChunksShape(ds[f.packet - 1]);
  }
}
