/**
 * The FEC encoder (src/main.rs, `Encoder`): fragments are queued as shards, and every ten
 * shards, or a flush, close a group that is padded, given parity and numbered.
 */
module FecEncoder {
  import opened Bytes
  import opened Fragments
  import opened Erasure
  import opened Frames
  import opened AdaptiveControl

  const DATA_SHARDS: nat := 10

  datatype EncoderState = EncoderState(
    version: nat, keyId: nat, session: nat, sequence: nat, packet: nat, group: nat,
    shards: seq<seq<byte>>, control: Control, force: Option<nat>)

  datatype EncodeError = DatagramTooLarge

  function InitialEncoder(session: nat, version: nat, keyId: nat, force: Option<nat>): EncoderState {
    EncoderState(version, keyId, session, 1, 1, 1, [], DEFAULT_CONTROL, force)
  }

  /** The number of parity shards `flush` gives a group of `data` shards. */
  function ChooseParity(control: nat, force: Option<nat>, data: nat): (p: nat)
    ensures control <= MAX_PARITY ==> p <= MAX_PARITY && p <= data
  {
    Min(
      if force.Some? then Min(force.value, data)
      else if control == 0 then 0
      else if data < DATA_SHARDS then Min(control, data)
      else (data * control + 9) / 10,
      MAX_PARITY)
  }

  /** Left to itself, the encoder gives a group the controller's level, or one parity shard per data shard if fewer. */
  lemma ParityIsLevel(control: nat, data: nat)
    requires control <= MAX_PARITY && 1 <= data <= DATA_SHARDS
    ensures ChooseParity(control, None, data) == Min(control, data)
  {
  }

  function MaxLen(shards: seq<seq<byte>>): (n: nat)
    ensures forall i :: 0 <= i < |shards| ==> |shards[i]| <= n
  {
    if shards == [] then 0
    else
      assert forall i :: 0 <= i < |shards| - 1 ==> shards[i] == shards[..|shards| - 1][i];
      Max(MaxLen(shards[..|shards| - 1]), |shards[|shards| - 1]|)
  }

  /** `shard.resize(n, 0)` for a shard no longer than `n`. */
  function Pad(shard: seq<byte>, n: nat): (s: seq<byte>)
    requires |shard| <= n
    ensures |s| == n
  {
    shard + Zeros(n - |shard|)
  }

  /** Data payloads are padded to one length only when parity is generated. */
  function DataPayloads(shards: seq<seq<byte>>, parity: nat): (s: seq<seq<byte>>)
    ensures |s| == |shards|
  {
    if parity == 0 then shards
    else seq(|shards|, i requires 0 <= i < |shards| => Pad(shards[i], MaxLen(shards)))
  }

  function GroupPayloads(code: Code, shards: seq<seq<byte>>, parity: nat): (s: seq<seq<byte>>)
    ensures |s| == |shards| + parity
  {
    var sources := DataPayloads(shards, parity);
    if parity == 0 then sources else sources + code.encode(|shards|, parity, sources)
  }

  function GroupFrame(st: EncoderState, data: nat, parity: nat, index: nat, payload: seq<byte>): Frame {
    Frame(st.version, st.keyId, if index < data then KIND_DATA else KIND_PARITY, st.session,
          st.sequence + index, st.group, index, data, parity, payload)
  }

  function GroupFrames(code: Code, st: EncoderState, parity: nat): (fs: seq<Frame>)
    ensures |fs| == |st.shards| + parity
  {
    var payloads := GroupPayloads(code, st.shards, parity);
    seq(|payloads|, i requires 0 <= i < |payloads| => GroupFrame(st, |st.shards|, parity, i, payloads[i]))
  }

  function ParityNow(st: EncoderState): nat {
    ChooseParity(st.control.parity, st.force, |st.shards|)
  }

  /** `flush`. */
  function FlushStep(code: Code, st: EncoderState): (EncoderState, seq<Frame>) {
    if st.shards == [] then (st, [])
    else
      var frames := GroupFrames(code, st, ParityNow(st));
      (st.(shards := [], group := st.group + 1, sequence := st.sequence + |frames|), frames)
  }

  function PushStep(code: Code, st: EncoderState, shard: seq<byte>): (EncoderState, seq<Frame>) {
    var st1 := st.(shards := st.shards + [shard]);
    if |st1.shards| == DATA_SHARDS then FlushStep(code, st1) else (st1, [])
  }

  function PushAll(code: Code, st: EncoderState, shards: seq<seq<byte>>): (EncoderState, seq<Frame>) {
    if shards == [] then (st, [])
    else
      var (st1, fs) := PushAll(code, st, shards[..|shards| - 1]);
      var (st2, more) := PushStep(code, st1, shards[|shards| - 1]);
      (st2, fs + more)
  }

  function ShardsOf(fs: seq<Fragment>): (s: seq<seq<byte>>)
    ensures |s| == |fs|
  {
    seq(|fs|, i requires 0 <= i < |fs| => ShardBytes(fs[i]))
  }

  /** `encode_datagram`; the packet number is spent even when the datagram is refused. */
  function DatagramStep(code: Code, st: EncoderState, payload: seq<byte>)
    : (EncoderState, Result<seq<Frame>, EncodeError>)
  {
    var st1 := st.(packet := st.packet + 1);
    if FragmentCount(payload) >= U16_LIMIT then (st1, Err(DatagramTooLarge))
    else
      var (st2, fs) := PushAll(code, st1, ShardsOf(FragmentsOf(st.packet, payload)));
      (st2, Ok(fs))
  }

  function ReportStep(st: EncoderState, loss: u32): (EncoderState, Frame) {
    (st.(sequence := st.sequence + 1),
     Frame(st.version, st.keyId, KIND_REPORT, st.session, st.sequence, 0, 0, 0, 0, BE(loss, 4)))
  }

  class Encoder {
    const code: Code
    const version: nat
    const keyId: nat
    const session: nat
    const forceParity: Option<nat>
    var sequence: nat
    var packet: nat
    var group: nat
    var shards: seq<seq<byte>>
    const adaptive: Adaptive

    ghost function State(): EncoderState
      reads this, adaptive
    {
      EncoderState(version, keyId, session, sequence, packet, group, shards, adaptive.State(), forceParity)
    }

    constructor (code: Code, session: nat, version: nat, keyId: nat, force: Option<nat>)
      ensures State() == InitialEncoder(session, version, keyId, force)
      ensures fresh(adaptive) && this.code == code
    {
      this.code, this.session, this.version, this.keyId, forceParity := code, session, version, keyId, force;
      sequence, packet, group, shards := 1, 1, 1, [];
      adaptive := new Adaptive();
    }

    method ReportFrame(loss: u32) returns (f: Frame)
      modifies this`sequence
      ensures (State(), f) == ReportStep(old(State()), loss)
    {
      f := Frame(version, keyId, KIND_REPORT, session, sequence, 0, 0, 0, 0, BE(loss, 4));
      sequence := sequence + 1;
    }

    method Flush() returns (frames: seq<Frame>)
      modifies this`sequence, this`group, this`shards
      ensures (State(), frames) == FlushStep(code, old(State()))
    {
      hide ChooseParity, DataPayloads;
      ghost var st := State();
      frames := [];
      if shards == [] { return; }
      var data := |shards|;
      var parity := ChooseParity(adaptive.parity, forceParity, data);
      var sources := DataPayloads(shards, parity);
      ghost var all := GroupFrames(code, st, parity);
      for index := 0 to data
        invariant sequence == st.sequence + index && group == st.group && shards == st.shards
        invariant frames == all[..index]
      {
        frames := frames +
          [Frame(version, keyId, KIND_DATA, session, sequence, group, index, data, parity, sources[index])];
        sequence := sequence + 1;
      }
      if parity > 0 {
        var extra := code.encode(data, parity, sources);
        for p := 0 to parity
          invariant sequence == st.sequence + data + p && group == st.group && shards == st.shards
          invariant frames == all[..data + p]
        {
          frames := frames +
            [Frame(version, keyId, KIND_PARITY, session, sequence, group, data + p, data, parity, extra[p])];
          sequence := sequence + 1;
        }
      }
      assert frames == all;
      shards := [];
      group := group + 1;
    }

    method Push(shard: seq<byte>) returns (frames: seq<Frame>)
      modifies this`sequence, this`group, this`shards
      ensures (State(), frames) == PushStep(code, old(State()), shard)
    {
      frames := [];
      shards := shards + [shard];
      if |shards| == DATA_SHARDS {
        frames := Flush();
      }
    }

    method EncodeDatagram(payload: seq<byte>) returns (r: Result<seq<Frame>, EncodeError>)
      modifies this`sequence, this`group, this`shards, this`packet
      ensures (State(), r) == DatagramStep(code, old(State()), payload)
    {
      ghost var st := State().(packet := packet + 1);
      var packetId := packet;
      packet := packet + 1;
      var count := DivCeilCount(payload);
      ChunksShape(payload);
      if count >= U16_LIMIT { return Err(DatagramTooLarge); }
      var chunks := Chunks(payload);
      ghost var all := ShardsOf(FragmentsOf(packetId, payload));
      var frames := [];
      for idx := 0 to |chunks|
        invariant (State(), frames) == PushAll(code, st, all[..idx])
      {
        var shard := BE(packetId, 8) + BE(idx, 2) + BE(count, 2) + BE(|chunks[idx]|, 2) + chunks[idx];
        assert shard == all[idx];
        assert all[..idx + 1][..idx] == all[..idx] && all[..idx + 1][idx] == shard;
        var more := Push(shard);
        frames := frames + more;
      }
      assert all[..|chunks|] == all;
      r := Ok(frames);
    }
  }
}
