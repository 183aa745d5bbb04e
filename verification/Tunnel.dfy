/**
 * End to end: the frames of one encoder run, received in any order, with loss and
 * duplication, by one decoder.
 */
module Tunnel {
  import opened Bytes
  import opened Fragments
  import opened Erasure
  import opened Frames
  import Reassembly
  import SW = SequenceWindow
  import opened FecEncoder
  import opened EncoderHistory
  import opened FecDecoder
  import opened GroupRecovery
  import AC = AdaptiveControl

  // ----- What the decoder may rely on about the sender -----

  /** Blocks cut out of the fragment stream of `ds`, under a code that corrects their shapes. */
  ghost predicate Sender(code: Code, ds: seq<seq<byte>>, blocks: seq<Block>) {
    && HonestCode(code) && |ds| < U64_LIMIT && Tiled(blocks)
    && forall b :: 0 <= b < |blocks| ==> BlockBounds(blocks[b]) && blocks[b].first + blocks[b].data <= |Stream(ds)|
  }

  ghost function WordOf(code: Code, ds: seq<seq<byte>>, b: Block): seq<seq<byte>>
    requires b.first + b.data <= |Stream(ds)|
  {
    BlockWord(code, Stream(ds), b)
  }

  lemma {:induction false} MaxLenWithin(shards: seq<seq<byte>>, hi: nat)
    requires forall i :: 0 <= i < |shards| ==> |shards[i]| <= hi
    ensures MaxLen(shards) <= hi
  {
    if shards != [] { MaxLenWithin(shards[..|shards| - 1], hi); }
  }

  lemma StreamFragment(ds: seq<seq<byte>>, k: nat)
    requires k < |Stream(ds)| && |ds| < U64_LIMIT
    ensures FragmentOf(ds, Stream(ds)[k]) && Encodable(Stream(ds)[k]) && |ShardBytes(Stream(ds)[k])| <= SHARD
  {
    StreamMembers(ds, Stream(ds)[k]);
    FragmentShape(ds, Stream(ds)[k]);
  }

  function Padding(shards: seq<seq<byte>>, parity: nat, j: nat): nat
    requires j < |shards|
  {
    if parity == 0 then 0 else MaxLen(shards) - |shards[j]|
  }

  lemma PaddedAt(shards: seq<seq<byte>>, parity: nat, j: nat)
    requires j < |shards|
    ensures DataPayloads(shards, parity)[j] == shards[j] + Zeros(Padding(shards, parity, j))
  {
    assert shards[j] + Zeros(0) == shards[j];
  }

  lemma StreamShort(ds: seq<seq<byte>>)
    requires |ds| < U64_LIMIT
    ensures Short(Stream(ds))
  {
    forall k | 0 <= k < |Stream(ds)| ensures |Stream(ds)[k].chunk| <= CHUNK {
      StreamFragment(ds, k);
    }
  }

  lemma BlockShards(stream: seq<Fragment>, b: Block)
    requires Short(stream) && b.first + b.data <= |stream|
    ensures
      var shards := ShardsOf(stream[b.first..b.first + b.data]);
      && (forall i :: 0 <= i < b.data ==> shards[i] == ShardBytes(stream[b.first + i]))
      && MaxLen(shards) <= SHARD
  {
    var slice := stream[b.first..b.first + b.data];
    assert forall i :: 0 <= i < b.data ==> slice[i] == stream[b.first + i];
    MaxLenWithin(ShardsOf(slice), SHARD);
  }

  /** Data shard `j` of a block is its fragment's bytes, perhaps followed by zeros. */
  lemma DataShardIs(code: Code, stream: seq<Fragment>, b: Block, j: nat) returns (padding: nat)
    requires Short(stream) && b.first + b.data <= |stream| && j < b.data
    ensures BlockWord(code, stream, b)[j] == ShardBytes(stream[b.first + j]) + Zeros(padding)
    ensures |ShardBytes(stream[b.first + j])| + padding <= SHARD
  {
    hide MaxLen, ShardsOf, ShardBytes;
    var shards := ShardsOf(stream[b.first..b.first + b.data]);
    BlockShards(stream, b);
    PaddedAt(shards, b.parity, j);
    padding := Padding(shards, b.parity, j);
    assert |stream[b.first + j].chunk| <= CHUNK;
  }

  lemma DataShardParses(code: Code, ds: seq<seq<byte>>, b: Block, j: nat)
    requires |ds| < U64_LIMIT && b.first + b.data <= |Stream(ds)| && j < b.data
    ensures
      var f, s := Stream(ds)[b.first + j], WordOf(code, ds, b)[j];
      && FragmentOf(ds, f)
      && FRAGMENT_HEADER <= |s| <= SHARD
      && ParseShard(s) == if f.count <= MAX_FRAGMENTS then Some(f) else None
  {
    StreamFragment(ds, b.first + j);
    StreamShort(ds);
    var padding := DataShardIs(code, Stream(ds), b, j);
    PaddedShardParses(Stream(ds)[b.first + j], padding);
  }

  lemma ParityWordGood(code: Code, shards: seq<seq<byte>>, parity: nat)
    requires Corrects(code, |shards|, parity) && parity > 0 && |shards| > 0
    ensures
      var word := GroupPayloads(code, shards, parity);
      && (forall i :: 0 <= i < |word| ==> |word[i]| == |word[0]|)
      && forall view :: Agrees(view, word) && |Present(view)| >= |shards| ==>
           code.reconstruct(|shards|, parity, view) == Some(word)
  {
    hide Present, Agrees, MaxLen;
    var sources := DataPayloads(shards, parity);
    assert EqualLengths(sources);
    assert Recoverable(code, parity, sources);
    assert GroupPayloads(code, shards, parity) == Word(code, parity, sources);
  }

  lemma BlockWordGood(code: Code, ds: seq<seq<byte>>, b: Block)
    requires HonestCode(code) && |ds| < U64_LIMIT && BlockBounds(b) && b.first + b.data <= |Stream(ds)|
    ensures GoodWord(code, WordOf(code, ds, b), b.data, b.parity)
  {
    hide Present, Agrees, GroupPayloads, Stream, FragmentOf, ParseShard, Corrects;
    var word := WordOf(code, ds, b);
    forall j | 0 <= j < b.data ensures FRAGMENT_HEADER <= |word[j]| <= SHARD {
      DataShardParses(code, ds, b, j);
    }
    if b.parity > 0 {
      ParityWordGood(code, ShardsOf(Stream(ds)[b.first..b.first + b.data]), b.parity);
    }
  }

  ghost predicate HonestFrame(code: Code, ds: seq<seq<byte>>, blocks: seq<Block>, session: nat, f: Frame) {
    f.session == session && (IsReport(f) || Carries(code, Stream(ds), blocks, f))
  }

  lemma HonestDimensions(code: Code, ds: seq<seq<byte>>, blocks: seq<Block>, session: nat, f: Frame)
    requires Sender(code, ds, blocks) && HonestFrame(code, ds, blocks, session, f)
    ensures CarriesShard(f) <==> !IsReport(f)
    ensures CarriesShard(f) ==>
      && DimensionsOk(f)
      && var b := blocks[f.group - 1];
         f.payload == WordOf(code, ds, b)[f.index] && GoodWord(code, WordOf(code, ds, b), b.data, b.parity)
  {
    if !IsReport(f) { BlockWordGood(code, ds, blocks[f.group - 1]); }
  }

  /**
   * A loss report reaches the other side's controller: its sample is at most 1,000,000, so
   * never the idle value, and the report frame's payload reads back as the sample.
   */
  lemma SampleTravels(w: SW.Window, st: EncoderState)
    requires SW.Report(w).1.Some?
    ensures SW.Report(w).1.value.gapPpm <= SW.MILLION < AC.LOSS_SAMPLE_UNAVAILABLE
    ensures Val(ReportStep(st, SW.Report(w).1.value.gapPpm).1.payload) == SW.Report(w).1.value.gapPpm
  {
    var sample := SW.Report(w).1.value.gapPpm;
    Widths();
    ValBE(sample, 4);
  }

  // ----- A run of the decoder -----

  /** A frame arrives, a loss report is taken, or any groups and reassemblies are forgotten. */
  datatype Happening = Get(f: Frame, at: Readings) | Count | Forget

  /** Some groups and reassemblies are gone, everything else is as it was. */
  ghost predicate Shrunk(st: DecoderState, st': DecoderState) {
    && st' == st.(groups := st'.groups, packets := st'.packets)
    && SubMap(st'.groups, st.groups) && SubMap(st'.packets, st.packets)
  }

  ghost predicate May(code: Code, st: DecoderState, h: Happening, st': DecoderState, out: seq<seq<byte>>) {
    match h
    case Count => st' == st.(window := SW.Report(st.window).0) && out == []
    case Forget => Shrunk(st, st') && out == []
    case Get(f, at) =>
      WfGroups(st.groups) && exists r :: FrameMay(code, st, f, at, st', r) && out == (if r.Ok? then r.value else [])
  }

  /** The decoder as it is, prunes included: `states[i]` is before and `outs[i]` the outputs of happening `i`. */
  ghost predicate RunOf(code: Code, session: nat, hs: seq<Happening>, states: seq<DecoderState>,
                        outs: seq<seq<seq<byte>>>)
  {
    && |states| == |hs| + 1 && |outs| == |hs| && states[0] == InitialDecoder(session)
    && forall i :: 0 <= i < |hs| ==> May(code, states[i], hs[i], states[i + 1], outs[i])
  }

  ghost predicate HonestRun(code: Code, ds: seq<seq<byte>>, blocks: seq<Block>, session: nat, hs: seq<Happening>) {
    forall i :: 0 <= i < |hs| && hs[i].Get? ==> HonestFrame(code, ds, blocks, session, hs[i].f)
  }

  /** A shard frame whose sequence number is new. */
  ghost predicate IsAccepted(st: DecoderState, f: Frame) {
    st.session == f.session && SW.Observe(st.window, f.sequence).1 && CarriesShard(f)
  }

  // ----- Which fragments get through -----

  datatype Slot = Slot(group: nat, index: nat)

  ghost function Indexes(accepted: set<Slot>, group: nat): set<nat> {
    set s | s in accepted && s.group == group :: s.index
  }

  ghost predicate InBlock(blocks: seq<Block>, b: int, k: nat) {
    0 <= b < |blocks| && blocks[b].first <= k < blocks[b].first + blocks[b].data
  }

  /**
   * Fragment `k` of the stream gets through if its own frame was accepted, or at least as
   * many distinct frames of its group as the group has data shards.
   */
  ghost predicate Recovered(blocks: seq<Block>, accepted: set<Slot>, k: nat) {
    exists b :: InBlock(blocks, b, k) && Out(Indexes(accepted, b + 1), blocks[b].data, k - blocks[b].first)
  }

  lemma {:induction false} BlocksApart(blocks: seq<Block>, b: nat, c: nat)
    requires Tiled(blocks) && b < c < |blocks|
    ensures blocks[b].first + blocks[b].data <= blocks[c].first
  {
    assert blocks[c].first == BlocksEnd(blocks[..c]);
    assert blocks[..c][c - 1] == blocks[c - 1];
    if b < c - 1 { BlocksApart(blocks, b, c - 1); }
  }

  lemma IndexesSnoc(accepted: set<Slot>, group: nat, index: nat, g: nat)
    ensures Indexes(accepted + {Slot(group, index)}, g) ==
      if g == group then Indexes(accepted, g) + {index} else Indexes(accepted, g)
  {
    var more := accepted + {Slot(group, index)};
    assert Slot(group, index) in more;
    assert forall s :: s in accepted ==> s in more;
  }

  lemma OnlyBlock(blocks: seq<Block>, b: nat, c: nat, k: nat)
    requires Tiled(blocks) && InBlock(blocks, b, k) && InBlock(blocks, c, k)
    ensures b == c
  {
    if b < c { BlocksApart(blocks, b, c); }
    if c < b { BlocksApart(blocks, c, b); }
  }

  /** A fragment of block `b` gets through as that block's frames decide. */
  lemma RecoveredInBlock(blocks: seq<Block>, accepted: set<Slot>, b: nat, k: nat)
    requires Tiled(blocks) && InBlock(blocks, b, k)
    ensures Recovered(blocks, accepted, k) <==> Out(Indexes(accepted, b + 1), blocks[b].data, k - blocks[b].first)
  {
    hide Tiled, Out, Indexes;
    if Recovered(blocks, accepted, k) {
      var c :| InBlock(blocks, c, k) && Out(Indexes(accepted, c + 1), blocks[c].data, k - blocks[c].first);
      OnlyBlock(blocks, b, c, k);
    }
  }

  /** A frame of another group changes nothing for a fragment. */
  lemma RecoveredElsewhere(blocks: seq<Block>, accepted: set<Slot>, group: nat, index: nat, k: nat)
    requires 1 <= group <= |blocks| && !InBlock(blocks, group - 1, k)
    ensures Recovered(blocks, accepted + {Slot(group, index)}, k) <==> Recovered(blocks, accepted, k)
  {
    hide Out, Indexes;
    var more := accepted + {Slot(group, index)};
    forall c | InBlock(blocks, c, k) ensures Indexes(more, c + 1) == Indexes(accepted, c + 1) {
      IndexesSnoc(accepted, group, index, c + 1);
    }
  }

  /** The fragments that get through after one more frame: those before, and its block's releases. */
  lemma RecoveredAfter(blocks: seq<Block>, accepted: set<Slot>, group: nat, index: nat, k: nat)
    requires Tiled(blocks) && 1 <= group <= |blocks|
    ensures
      var b := blocks[group - 1];
      var got := Indexes(accepted, group);
      Recovered(blocks, accepted + {Slot(group, index)}, k) <==>
        Recovered(blocks, accepted, k) ||
        (InBlock(blocks, group - 1, k) && Out(got + {index}, b.data, k - b.first) && !Out(got, b.data, k - b.first))
  {
    hide Tiled, Out, Indexes, Recovered;
    var more := accepted + {Slot(group, index)};
    if InBlock(blocks, group - 1, k) {
      RecoveredInBlock(blocks, accepted, group - 1, k);
      RecoveredInBlock(blocks, more, group - 1, k);
      IndexesSnoc(accepted, group, index, group);
      OutGrows(Indexes(accepted, group), index, blocks[group - 1].data, k - blocks[group - 1].first);
    } else {
      RecoveredElsewhere(blocks, accepted, group, index, k);
    }
  }

  lemma OutGrows(got: set<nat>, index: nat, data: nat, j: nat)
    ensures Out(got, data, j) ==> Out(got + {index}, data, j)
  {
    if index in got { assert got + {index} == got; }
  }

  // ----- The data shards a frame releases -----

  ghost predicate Below(js: seq<nat>, n: nat) {
    forall i :: 0 <= i < |js| ==> js[i] < n
  }

  lemma PickSnoc(word: seq<seq<byte>>, js: seq<nat>, j: nat)
    requires j < |word| && forall i :: 0 <= i < |js| ==> js[i] < |word|
    ensures Pick(word, js + [j]) == Pick(word, js) + [word[j]]
  {
  }

  lemma Snoc<T>(s: seq<T>)
    requires s != []
    ensures s == s[..|s| - 1] + [s[|s| - 1]]
  {
  }

  lemma FragmentAllSnoc(packets: Reassembly.Table, shards: seq<seq<byte>>, last: seq<byte>, place: nat -> nat)
    ensures
      var (p1, out1) := FragmentAll(packets, shards, place);
      var (p2, out2) := FragmentStep(p1, last, place(|shards|));
      FragmentAll(packets, shards + [last], place) == (p2, out1 + out2)
  {
    assert (shards + [last])[..|shards|] == shards;
  }

  ghost predicate Carry(ds: seq<seq<byte>>, shard: seq<byte>, k: nat)
    requires k < |Stream(ds)|
  {
    var f := Stream(ds)[k];
    FragmentOf(ds, f) && ParseShard(shard) == if f.count <= MAX_FRAGMENTS then Some(f) else None
  }

  /** The data shards of `word` carry the fragments of block `b`. */
  ghost predicate ShardsCarry(ds: seq<seq<byte>>, word: seq<seq<byte>>, b: Block) {
    && b.data <= |word| && b.first + b.data <= |Stream(ds)|
    && forall j :: 0 <= j < b.data ==> Carry(ds, word[j], b.first + j)
  }

  lemma WordLength(code: Code, ds: seq<seq<byte>>, b: Block)
    requires b.first + b.data <= |Stream(ds)|
    ensures |WordOf(code, ds, b)| == b.data + b.parity
  {
  }

  lemma WordCarries(code: Code, ds: seq<seq<byte>>, b: Block)
    requires |ds| < U64_LIMIT && b.first + b.data <= |Stream(ds)|
    ensures ShardsCarry(ds, WordOf(code, ds, b), b)
  {
    hide Stream, FragmentOf, ParseShard, BlockWord;
    WordLength(code, ds, b);
    forall j | 0 <= j < b.data ensures Carry(ds, WordOf(code, ds, b)[j], b.first + j) {
      DataShardParses(code, ds, b, j);
    }
  }

  /** The group a frame meets: the one in the table, or a new one. */
  ghost function Met(groups: map<nat, Group>, f: Frame, now: nat): Group {
    if f.group in groups then groups[f.group] else NewGroup(f.data, f.parity, now)
  }

  /** There is a place for the frame's group. */
  ghost predicate Room(groups: map<nat, Group>, f: Frame) {
    f.group in groups || |groups| < MAX_GROUPS
  }

  lemma SenderFrom(code: Code, session: nat, version: nat, keyId: nat, force: Option<nat>, sent: seq<Event>)
    requires HonestCode(code) && |Datagrams(sent)| < U64_LIMIT
    ensures
      var t := RunT(code, InitialEncoder(session, version, keyId, force), sent);
      && Sender(code, Datagrams(sent), t.blocks)
      && forall i :: 0 <= i < |t.frames| ==> HonestFrame(code, Datagrams(sent), t.blocks, session, t.frames[i])
  {
    StreamLaw(code, session, version, keyId, force, sent);
    var t := RunT(code, InitialEncoder(session, version, keyId, force), sent);
    forall i | 0 <= i < |t.frames| ensures HonestFrame(code, Datagrams(sent), t.blocks, session, t.frames[i]) {
      assert Placed(code, session, t.stream, t.frames, t.blocks, i);
    }
  }
}
