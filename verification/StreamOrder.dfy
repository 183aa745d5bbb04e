/** The encoder's data frames, with their padding removed, are the fragment stream in order. */
module StreamOrder {
  import opened Bytes
  import opened Fragments
  import opened Erasure
  import opened Frames
  import opened FecEncoder
  import opened EncoderHistory

  /** A shard without its padding: the header says how long the chunk is. */
  function Unpad(shard: seq<byte>): seq<byte> {
    if |shard| < FRAGMENT_HEADER || FRAGMENT_HEADER + Val(shard[12..14]) > |shard| then shard
    else shard[..FRAGMENT_HEADER + Val(shard[12..14])]
  }

  /** The unpadded payloads of the data frames, in order of sending. */
  ghost function DataShards(frames: seq<Frame>): seq<seq<byte>> {
    if frames == [] then []
    else
      var last := frames[|frames| - 1];
      DataShards(frames[..|frames| - 1]) + (if last.kind == KIND_DATA then [Unpad(last.payload)] else [])
  }

  lemma UnpadShard(f: Fragment, padding: nat)
    requires |f.chunk| <= CHUNK
    ensures Unpad(ShardBytes(f) + Zeros(padding)) == ShardBytes(f)
  {
    var s := ShardBytes(f) + Zeros(padding);
    assert s[12..14] == BE(|f.chunk|, 2);
    ValBE16(|f.chunk|);
    assert s[..FRAGMENT_HEADER + |f.chunk|] == ShardBytes(f);
  }

  lemma {:induction false} DataShardsAppend(a: seq<Frame>, b: seq<Frame>)
    ensures DataShards(a + b) == DataShards(a) + DataShards(b)
  {
    hide Unpad;
    if b == [] {
      assert a + b == a;
    } else {
      var n := |b| - 1;
      DataShardsAppend(a, b[..n]);
      assert (a + b)[..|a| + n] == a + b[..n];
    }
  }

  lemma DataPayloadUnpads(fs: seq<Fragment>, parity: nat, i: nat)
    requires Short(fs) && i < |fs|
    ensures Unpad(DataPayloads(ShardsOf(fs), parity)[i]) == ShardBytes(fs[i])
  {
    hide Unpad, ShardBytes;
    var shards := ShardsOf(fs);
    if parity == 0 {
      UnpadShard(fs[i], 0);
      assert ShardBytes(fs[i]) + Zeros(0) == ShardBytes(fs[i]);
    } else {
      UnpadShard(fs[i], MaxLen(shards) - |shards[i]|);
    }
  }

  /** The data frames of one group, unpadded, are its shards. */
  lemma {:induction false} GroupDataShards(code: Code, st: EncoderState, parity: nat, fs: seq<Fragment>, n: nat)
    requires Short(fs) && st.shards == ShardsOf(fs) && n <= |fs| + parity
    ensures DataShards(GroupFrames(code, st, parity)[..n]) == st.shards[..Min(n, |fs|)]
  {
    hide Unpad, ShardBytes, DataPayloads;
    if n > 0 {
      GroupDataShards(code, st, parity, fs, n - 1);
      var frames := GroupFrames(code, st, parity)[..n];
      assert frames[..n - 1] == GroupFrames(code, st, parity)[..n - 1];
      if n <= |fs| {
        DataPayloadUnpads(fs, parity, n - 1);
        assert st.shards[..n] == st.shards[..n - 1] + [ShardBytes(fs[n - 1])];
      }
    }
  }

  ghost predicate InOrder(t: Transcript) {
    Short(t.stream) && DataShards(t.frames) + t.st.shards == ShardsOf(t.stream)
  }

  lemma FlushOrdered(code: Code, t: Transcript)
    requires Recorded(code, t) && InOrder(t)
    ensures InOrder(FlushT(code, t))
  {
    hide DataShards, GroupFrames, Laid;
    if t.st.shards != [] {
      var frames := GroupFrames(code, t.st, ParityNow(t.st));
      GroupDataShards(code, t.st, ParityNow(t.st), t.stream[BlocksEnd(t.blocks)..], |frames|);
      assert frames[..|frames|] == frames && t.st.shards[..|t.st.shards|] == t.st.shards;
      DataShardsAppend(t.frames, frames);
      assert DataShards(t.frames) + t.st.shards + [] == ShardsOf(t.stream);
    }
  }

  lemma PushOrdered(code: Code, t: Transcript, f: Fragment)
    requires Recorded(code, t) && |t.st.shards| < DATA_SHARDS && InOrder(t) && |f.chunk| <= CHUNK
    ensures InOrder(PushT(code, t, f))
  {
    hide DataShards, FlushT, Recorded, ShardBytes;
    var t1 := QueueT(t, f);
    assert ShardsOf(t1.stream) == ShardsOf(t.stream) + [ShardBytes(f)];
    assert InOrder(t1);
    QueueKeeps(code, t, f);
    FlushOrdered(code, t1);
  }

  lemma {:induction false} PushAllOrdered(code: Code, t: Transcript, fs: seq<Fragment>)
    requires Recorded(code, t) && |t.st.shards| < DATA_SHARDS && InOrder(t) && Short(fs)
    ensures InOrder(PushAllT(code, t, fs))
  {
    hide InOrder, PushT, Recorded;
    if fs != [] {
      PushAllOrdered(code, t, fs[..|fs| - 1]);
      PushAllKeeps(code, t, fs[..|fs| - 1]);
      PushOrdered(code, PushAllT(code, t, fs[..|fs| - 1]), fs[|fs| - 1]);
    }
  }

  /**
   * Over any run: the unpadded data frames in order of sending, then the pending shards, are
   * the bytes of all fragments of all datagrams, in order.
   */
  lemma {:induction false} DataFramesInOrder(code: Code, session: nat, version: nat, keyId: nat, force: Option<nat>,
                                             events: seq<Event>)
    ensures
      var t := RunT(code, InitialEncoder(session, version, keyId, force), events);
      DataShards(t.frames) + t.st.shards == ShardsOf(Stream(Datagrams(events)))
    ensures InOrder(RunT(code, InitialEncoder(session, version, keyId, force), events))
  {
    hide Recorded, FlushT, PushAllT;
    StreamLaw(code, session, version, keyId, force, events);
    if events != [] {
      var prefix, e := events[..|events| - 1], events[|events| - 1];
      DataFramesInOrder(code, session, version, keyId, force, prefix);
      StreamLaw(code, session, version, keyId, force, prefix);
      StepOrdered(code, RunT(code, InitialEncoder(session, version, keyId, force), prefix), e);
    }
  }

  lemma StepOrdered(code: Code, t: Transcript, e: Event)
    requires Recorded(code, t) && |t.st.shards| < DATA_SHARDS && InOrder(t)
    ensures InOrder(StepT(code, t, e))
  {
    hide Laid, FlushT, PushAllT, Chunks;
    match e
    case Datagram(payload) =>
      ChunksShape(payload);
      PushAllOrdered(code, t.(st := t.st.(packet := t.st.packet + 1)), FragmentsOf(t.st.packet, payload));
    case Flush => FlushOrdered(code, t);
    case Report(loss) => DataShardsAppend(t.frames, [ReportStep(t.st, loss).1]);
    case Feedback(sample) =>
  }
}
