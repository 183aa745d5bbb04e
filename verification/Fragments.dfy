/**
 * Cutting a datagram into fragments and reading a fragment back from a shard
 * (src/main.rs, `Encoder::encode_datagram` and the header checks of `Decoder::fragment`).
 */
module Fragments {
  import opened Bytes

  const SHARD: nat := 1340
  const FRAGMENT_HEADER: nat := 14
  const CHUNK: nat := SHARD - FRAGMENT_HEADER
  /** The most fragments per datagram the decoder accepts. */
  const MAX_FRAGMENTS: nat := 64

  datatype Fragment = Fragment(packet: nat, index: nat, count: nat, chunk: seq<byte>)

  /** `payload.chunks(CHUNK)`, with one empty chunk for the empty datagram. */
  function Chunks(payload: seq<byte>): seq<seq<byte>>
    decreases |payload|
  {
    if |payload| <= CHUNK then [payload] else [payload[..CHUNK]] + Chunks(payload[CHUNK..])
  }

  function FragmentCount(payload: seq<byte>): nat { |Chunks(payload)| }

  /** `payload.len().max(1).div_ceil(CHUNK)`, with `CHUNK == 1326` written out. */
  function DivCeilCount(payload: seq<byte>): nat {
    (Max(|payload|, 1) + 1325) / 1326
  }

  /** The fragments one call emits: none when the count does not fit its two-byte field. */
  function FragmentsOf(packet: nat, payload: seq<byte>): seq<Fragment> {
    if FragmentCount(payload) >= U16_LIMIT then []
    else
      var cs := Chunks(payload);
      seq(|cs|, i requires 0 <= i < |cs| => Fragment(packet, i, |cs|, cs[i]))
  }

  lemma {:induction false} ChunksShape(payload: seq<byte>)
    ensures FragmentCount(payload) == DivCeilCount(payload) >= 1
    ensures forall i :: 0 <= i < |Chunks(payload)| ==> |Chunks(payload)[i]| <= CHUNK
    decreases |payload|
  {
    if |payload| > CHUNK {
      var rest := payload[CHUNK..];
      ChunksShape(rest);
      assert |rest| == |payload| - CHUNK >= 1;
    }
  }

  /** Nothing is lost by cutting: the chunks in order are the datagram. */
  lemma {:induction false} ChunksRejoin(payload: seq<byte>)
    ensures Concat(Chunks(payload)) == payload
    decreases |payload|
  {
    if |payload| <= CHUNK {
      assert Chunks(payload)[1..] == [];
    } else {
      var cs := Chunks(payload);
      assert cs[1..] == Chunks(payload[CHUNK..]);
      ChunksRejoin(payload[CHUNK..]);
      assert payload == payload[..CHUNK] + payload[CHUNK..];
    }
  }

  /** The bytes of one unpadded shard: a 14-byte header, then the chunk. */
  function ShardBytes(f: Fragment): (s: seq<byte>)
    ensures |s| == FRAGMENT_HEADER + |f.chunk|
  {
    BE(f.packet, 8) + BE(f.index, 2) + BE(f.count, 2) + BE(|f.chunk|, 2) + f.chunk
  }

  /** The checks `Decoder::fragment` makes before it touches its table. */
  function ParseShard(shard: seq<byte>): Option<Fragment> {
    if |shard| < FRAGMENT_HEADER || |shard| > SHARD then None
    else
      var packet := Val(shard[0..8]);
      var index := Val(shard[8..10]);
      var count := Val(shard[10..12]);
      var len := Val(shard[12..14]);
      if count == 0 || count > MAX_FRAGMENTS || index >= count || len > CHUNK || FRAGMENT_HEADER + len > |shard|
      then None
      else Some(Fragment(packet, index, count, shard[14..14 + len]))
  }

  ghost predicate Encodable(f: Fragment) {
    f.packet < U64_LIMIT && f.index < f.count < U16_LIMIT && |f.chunk| <= CHUNK
  }

  /** Padding is invisible: a shard followed by zeros parses to the fragment it was made from. */
  lemma PaddedShardParses(f: Fragment, padding: nat)
    requires Encodable(f) && FRAGMENT_HEADER + |f.chunk| + padding <= SHARD
    ensures ParseShard(ShardBytes(f) + Zeros(padding)) == if f.count <= MAX_FRAGMENTS then Some(f) else None
  {
    var s := ShardBytes(f) + Zeros(padding);
    assert s[0..8] == BE(f.packet, 8);
    assert s[8..10] == BE(f.index, 2);
    assert s[10..12] == BE(f.count, 2);
    assert s[12..14] == BE(|f.chunk|, 2);
    assert s[14..14 + |f.chunk|] == f.chunk;
    ValBE64(f.packet);
    ValBE16(f.index);
    ValBE16(f.count);
    ValBE16(|f.chunk|);
  }
}
