/**
 * Exact delivery by the decoder as it is, prunes included: which datagrams come out of the
 * tunnel, and how often, for any loss, order and duplication and runs of any length.
 */
module Delivery {
  import opened Bytes
  import opened Fragments
  import Erasure
  import opened Ledger
  import opened Reassembly
  import FecEncoder
  import opened EncoderHistory
  import opened FecDecoder
  import opened DecoderReassembly
  import opened GroupRecovery
  import opened Tunnel
  import opened Integrity
  import opened Reception

  // ----- The fragments of one frame -----

  /** `js` are data shards of block `b`. */
  ghost predicate Inside(ds: seq<seq<byte>>, b: Block, js: seq<nat>) {
    b.first + b.data <= |Stream(ds)| && Below(js, b.data)
  }

  /** The marks the data shards `js` of a block leave in the ledger; long datagrams leave none. */
  ghost function Puts(ds: seq<seq<byte>>, b: Block, js: seq<nat>, place: nat -> nat): seq<Mark>
    requires Inside(ds, b, js)
  {
    if js == [] then []
    else
      var n := |js| - 1;
      var f := Stream(ds)[b.first + js[n]];
      Puts(ds, b, js[..n], place) +
      (if f.count <= MAX_FRAGMENTS then [Put(Part(f.packet, f.index), place(n))] else [])
  }

  lemma ShardKept(ds: seq<seq<byte>>, shard: seq<byte>, k: nat, packets: Table, log: seq<Mark>, now: nat)
    requires k < |Stream(ds)| && Carry(ds, shard, k) && PacketsKept(ds, packets, log)
    ensures
      var f := Stream(ds)[k];
      var log' := log + (if f.count <= MAX_FRAGMENTS then [Put(Part(f.packet, f.index), now)] else []);
      var (packets', out) := FragmentStep(packets, shard, now);
      && PacketsKept(ds, packets', log')
      && Payloads(ds, Completed(ds, log')) == Payloads(ds, Completed(ds, log)) + out
  {
    hide PacketsKept, Stream, PlaceFragment, ParseShard, Completed, FragmentOf, Payloads;
    var f := Stream(ds)[k];
    FragmentShape(ds, f);
    if f.count <= MAX_FRAGMENTS {
      PlaceExact(ds, packets, log, f, now);
    } else {
      assert log + [] == log;
    }
  }

  /** Releasing the data shards `js` of a block moves the ledger on by the fragments they carry. */
  lemma {:induction false} FragmentsKept(ds: seq<seq<byte>>, word: seq<seq<byte>>, b: Block, packets: Table,
                                         log: seq<Mark>, js: seq<nat>, place: nat -> nat)
    requires ShardsCarry(ds, word, b) && Inside(ds, b, js) && PacketsKept(ds, packets, log)
    ensures
      var (packets', out) := FragmentAll(packets, Pick(word, js), place);
      var log' := log + Puts(ds, b, js, place);
      && PacketsKept(ds, packets', log')
      && Payloads(ds, Completed(ds, log')) == Payloads(ds, Completed(ds, log)) + out
  {
    hide Stream, PacketsKept, FragmentStep, Carry, Pick, Completed, Payloads;
    if js == [] {
      assert Pick(word, js) == [] && log + [] == log;
    } else {
      var init, j := js[..|js| - 1], js[|js| - 1];
      FragmentsKept(ds, word, b, packets, log, init, place);
      Snoc(js);
      PickSnoc(word, init, j);
      FragmentAllSnoc(packets, Pick(word, init), word[j], place);
      var (p1, out) := FragmentAll(packets, Pick(word, init), place);
      var log1 := log + Puts(ds, b, init, place);
      ShardKept(ds, word[j], b.first + j, p1, log1, place(|init|));
      PutsSnoc(ds, b, js, place, log);
    }
  }

  lemma PutsSnoc(ds: seq<seq<byte>>, b: Block, js: seq<nat>, place: nat -> nat, log: seq<Mark>)
    requires js != [] && Inside(ds, b, js)
    ensures
      var n := |js| - 1;
      var f := Stream(ds)[b.first + js[n]];
      log + Puts(ds, b, js, place) ==
        log + Puts(ds, b, js[..n], place) +
        (if f.count <= MAX_FRAGMENTS then [Put(Part(f.packet, f.index), place(n))] else [])
  {
    hide Stream;
  }

  lemma SamePlace(ds: seq<seq<byte>>, j: nat, k: nat)
    requires j < |Stream(ds)| && k < |Stream(ds)| && |ds| < U64_LIMIT
    requires Stream(ds)[j].packet == Stream(ds)[k].packet && Stream(ds)[j].index == Stream(ds)[k].index
    ensures j == k
  {
    hide Stream, FragmentsOf;
    StreamFragment(ds, j);
    StreamFragment(ds, k);
    if j < k { StreamDistinct(ds, j, k); }
    if k < j { StreamDistinct(ds, k, j); }
  }

  /** Fragment `k` belongs to datagram `id`, which is not too long for the decoder. */
  ghost predicate Usable(ds: seq<seq<byte>>, k: nat, id: nat) {
    PartOf(ds, k, id) && Stream(ds)[k].count <= MAX_FRAGMENTS
  }

  /** The parts of `id` among the data shards `js` of a block. */
  ghost function PartsIn(ds: seq<seq<byte>>, b: Block, js: seq<nat>, id: nat): set<nat>
    requires Inside(ds, b, js)
  {
    set i | 0 <= i < |js| && Usable(ds, b.first + js[i], id)
      :: Stream(ds)[b.first + js[i]].index
  }

  lemma PartsInSnoc(ds: seq<seq<byte>>, b: Block, js: seq<nat>, id: nat)
    requires js != [] && Inside(ds, b, js)
    ensures
      var n := |js| - 1;
      var k := b.first + js[n];
      PartsIn(ds, b, js, id) == PartsIn(ds, b, js[..n], id) +
        (if Usable(ds, k, id) then {Stream(ds)[k].index} else {})
  {
    hide Stream, Usable;
    var n := |js| - 1;
    forall x ensures x in PartsIn(ds, b, js, id) <==>
      x in PartsIn(ds, b, js[..n], id) ||
      (Usable(ds, b.first + js[n], id) && x == Stream(ds)[b.first + js[n]].index)
    {
      if x in PartsIn(ds, b, js[..n], id) {
        var i :| 0 <= i < n && Usable(ds, b.first + js[..n][i], id)
          && x == Stream(ds)[b.first + js[..n][i]].index;
        assert js[i] == js[..n][i];
      }
      if x in PartsIn(ds, b, js, id) {
        var i :| 0 <= i < |js| && Usable(ds, b.first + js[i], id)
          && x == Stream(ds)[b.first + js[i]].index;
        if i < n { assert js[i] == js[..n][i]; }
      }
    }
  }

  // ----- Prompt datagrams -----

  /** The parts of `id` that get through. */
  ghost function Landed(ds: seq<seq<byte>>, blocks: seq<Block>, accepted: set<Slot>, id: nat): set<nat> {
    set k | 0 <= k < |Stream(ds)| && Usable(ds, k, id) && Recovered(blocks, accepted, k) :: Stream(ds)[k].index
  }

  ghost function SizeOf(ds: seq<seq<byte>>, id: nat): nat {
    Sizes(ChunksOf(ds))(id)
  }

  /** What is held of `id` is no older than `since`. */
  ghost predicate NoOlder(ds: seq<seq<byte>>, log: seq<Mark>, id: nat, since: Option<nat>) {
    var h := Account(log, id, SizeOf(ds, id), REASSEMBLY_TTL);
    h.Holding? ==> since.Some? && h.since >= since.value
  }

  ghost predicate CleanFor(ds: seq<seq<byte>>, log: seq<Mark>, id: nat) {
    Clean(log, id, SizeOf(ds, id), REASSEMBLY_TTL) && InRange(log, Sizes(ChunksOf(ds)))
  }

  ghost predicate LapsedFor(ds: seq<seq<byte>>, log: seq<Mark>, id: nat) {
    Lapsed(log, id, SizeOf(ds, id), REASSEMBLY_TTL)
  }

  lemma StreamSize(ds: seq<seq<byte>>, k: nat)
    requires k < |Stream(ds)| && |ds| < U64_LIMIT
    ensures
      var f := Stream(ds)[k];
      FragmentOf(ds, f) && f.index < f.count == SizeOf(ds, f.packet)
  {
    hide Stream, Chunks, FragmentsOf;
    StreamFragment(ds, k);
    FragmentShape(ds, Stream(ds)[k]);
  }

  /** One more fragment of the stream, of a datagram none of whose parts is repeated or lapsed. */
  lemma PutClean(ds: seq<seq<byte>>, log: seq<Mark>, id: nat, k: nat, now: nat, since: Option<nat>)
    requires CleanFor(ds, log, id) && NoOlder(ds, log, id, since) && |ds| < U64_LIMIT
    requires k < |Stream(ds)| && Stream(ds)[k].count <= MAX_FRAGMENTS
    requires Usable(ds, k, id) ==> since.Some? && since.value <= now
    requires Usable(ds, k, id) ==> !LapsedFor(ds, log, id) && Stream(ds)[k].index !in Indices(log, id)
    ensures
      var log' := log + [Put(Part(Stream(ds)[k].packet, Stream(ds)[k].index), now)];
      && CleanFor(ds, log', id) && NoOlder(ds, log', id, since)
      && (LapsedFor(ds, log', id) <==> LapsedFor(ds, log, id))
      && Indices(log', id) == Indices(log, id) + (if Usable(ds, k, id) then {Stream(ds)[k].index} else {})
  {
    hide Stream, Account, Clean, Lapsed, Indices, Sizes, ChunksOf, InRange;
    var f := Stream(ds)[k];
    StreamSize(ds, k);
    CleanPut(log, Part(f.packet, f.index), now, id, Sizes(ChunksOf(ds)), REASSEMBLY_TTL);
  }

  /** The fragments of one frame, each new to the ledger. */
  lemma {:induction false} PutsClean(ds: seq<seq<byte>>, b: Block, js: seq<nat>, place: nat -> nat,
                                     log: seq<Mark>, id: nat, since: Option<nat>)
    requires CleanFor(ds, log, id) && NoOlder(ds, log, id, since) && |ds| < U64_LIMIT
    requires Inside(ds, b, js) && Distinct(js)
    requires PartsIn(ds, b, js, id) !! Indices(log, id)
    requires PartsIn(ds, b, js, id) != {} ==>
      !LapsedFor(ds, log, id) && since.Some? && forall i :: since.value <= place(i)
    ensures
      var log' := log + Puts(ds, b, js, place);
      && CleanFor(ds, log', id) && NoOlder(ds, log', id, since)
      && (LapsedFor(ds, log', id) <==> LapsedFor(ds, log, id))
      && Indices(log', id) == Indices(log, id) + PartsIn(ds, b, js, id)
  {
    hide Stream, CleanFor, NoOlder, LapsedFor, Indices, Usable;
    if js == [] {
      assert log + [] == log && PartsIn(ds, b, js, id) == {};
    } else {
      var n, k := |js| - 1, b.first + js[|js| - 1];
      PartsInSnoc(ds, b, js, id);
      PutsClean(ds, b, js[..n], place, log, id, since);
      PutsSnoc(ds, b, js, place, log);
      if Usable(ds, k, id) { NotAmong(ds, b, js, id); }
      var log1 := log + Puts(ds, b, js[..n], place);
      if Stream(ds)[k].count <= MAX_FRAGMENTS {
        PutClean(ds, log1, id, k, place(n), since);
      } else {
        assert !Usable(ds, k, id) && log1 + [] == log1 by { TooLong(ds, k, id); }
      }
    }
  }

  lemma TooLong(ds: seq<seq<byte>>, k: nat, id: nat)
    requires k < |Stream(ds)| && Stream(ds)[k].count > MAX_FRAGMENTS
    ensures !Usable(ds, k, id)
  {
  }

  /** Distinct shards carry distinct parts. */
  lemma NotAmong(ds: seq<seq<byte>>, b: Block, js: seq<nat>, id: nat)
    requires |ds| < U64_LIMIT && js != [] && Inside(ds, b, js) && Distinct(js)
    requires Usable(ds, b.first + js[|js| - 1], id)
    ensures Stream(ds)[b.first + js[|js| - 1]].index !in PartsIn(ds, b, js[..|js| - 1], id)
  {
    hide Stream;
    var n, init := |js| - 1, js[..|js| - 1];
    forall i | 0 <= i < |init| && Usable(ds, b.first + init[i], id)
      ensures Stream(ds)[b.first + init[i]].index != Stream(ds)[b.first + js[n]].index
    {
      if Stream(ds)[b.first + init[i]].index == Stream(ds)[b.first + js[n]].index {
        SamePlace(ds, b.first + init[i], b.first + js[n]);
      }
    }
  }

  /** The data shards that an accepted frame makes the decoder release. */
  ghost predicate ReleasesShards(t: Trace, n: nat, js: seq<nat>)
    requires n < |t.hs| && t.hs[n].Get?
  {
    var f := t.hs[n].f;
    1 <= f.group <= |t.blocks| &&
    var b := t.blocks[f.group - 1];
    && Inside(t.ds, b, js) && Distinct(js)
    && (PromptGroup(t, f.group) ==> NewlyOut(js, Indexes(AcceptedBy(t, n), f.group), b.data, f.index))
  }

  ghost predicate Among(first: nat, js: seq<nat>, k: nat) {
    exists i :: 0 <= i < |js| && first + js[i] == k
  }

  lemma AmongIs(first: nat, js: seq<nat>, k: nat)
    ensures Among(first, js, k) <==> k >= first && k - first in js
  {
    if k >= first && k - first in js {
      var i :| 0 <= i < |js| && js[i] == k - first;
    }
  }

  /** A fragment of a prompt datagram is let out by a frame iff it is among the shards released. */
  lemma RecoveredNext(t: Trace, n: nat, js: seq<nat>, id: nat, k: nat)
    requires Tiled(t.blocks) && Accepts(t, n) && ReleasesShards(t, n, js)
    requires PromptDatagram(t, id) && PartOf(t.ds, k, id)
    ensures
      var among := Among(t.blocks[t.hs[n].f.group - 1].first, js, k);
      && (Recovered(t.blocks, AcceptedBy(t, n + 1), k) <==> Recovered(t.blocks, AcceptedBy(t, n), k) || among)
      && (among ==> !Recovered(t.blocks, AcceptedBy(t, n), k))
  {
    hide Tiled, Recovered, Out, Indexes, Stream, PromptGroup, Releases, BegunAt, IsAccepted, Among;
    var f := t.hs[n].f;
    var b := t.blocks[f.group - 1];
    AmongIs(b.first, js, k);
    if InBlock(t.blocks, f.group - 1, k) {
      assert PromptGroup(t, f.group);
      RecoveredAfter(t.blocks, AcceptedBy(t, n), f.group, f.index, k);
      RecoveredInBlock(t.blocks, AcceptedBy(t, n), f.group - 1, k);
    } else {
      RecoveredElsewhere(t.blocks, AcceptedBy(t, n), f.group, f.index, k);
    }
  }

  lemma UsableIsPart(ds: seq<seq<byte>>, k: nat, id: nat)
    requires Usable(ds, k, id)
    ensures PartOf(ds, k, id)
  {
  }

  /** The parts of a prompt datagram that get through grow by those a frame releases. */
  lemma LandedGrows(t: Trace, n: nat, js: seq<nat>, id: nat)
    requires Tiled(t.blocks) && Accepts(t, n) && ReleasesShards(t, n, js) && PromptDatagram(t, id)
    ensures
      var b := t.blocks[t.hs[n].f.group - 1];
      Landed(t.ds, t.blocks, AcceptedBy(t, n + 1), id) ==
      Landed(t.ds, t.blocks, AcceptedBy(t, n), id) + PartsIn(t.ds, b, js, id)
  {
    hide Tiled, Recovered, Stream, Usable, PromptDatagram, IsAccepted, AcceptedBy, PromptGroup, PartOf;
    var b, ds := t.blocks[t.hs[n].f.group - 1], t.ds;
    var before, after := AcceptedBy(t, n), AcceptedBy(t, n + 1);
    forall k: nat | k < |Stream(ds)| && Usable(ds, k, id)
      ensures Recovered(t.blocks, after, k) <==> Recovered(t.blocks, before, k) || Among(b.first, js, k)
    {
      UsableIsPart(ds, k, id);
      RecoveredNext(t, n, js, id, k);
    }
    var grown := Landed(ds, t.blocks, before, id) + PartsIn(ds, b, js, id);
    forall x | x in Landed(ds, t.blocks, after, id) ensures x in grown {
      var k :| 0 <= k < |Stream(ds)| && Usable(ds, k, id) && Recovered(t.blocks, after, k) && x == Stream(ds)[k].index;
      if !Recovered(t.blocks, before, k) {
        var i :| 0 <= i < |js| && b.first + js[i] == k;
        assert x in PartsIn(ds, b, js, id);
      }
    }
    forall x | x in PartsIn(ds, b, js, id) ensures x in Landed(ds, t.blocks, after, id) {
      var i :| 0 <= i < |js| && Usable(ds, b.first + js[i], id) && x == Stream(ds)[b.first + js[i]].index;
      assert Among(b.first, js, b.first + js[i]);
    }
  }

  /** The parts a frame releases were not let out before. */
  lemma ReleasedAreNew(t: Trace, n: nat, js: seq<nat>, id: nat)
    requires Tiled(t.blocks) && Accepts(t, n) && ReleasesShards(t, n, js) && PromptDatagram(t, id) && |t.ds| < U64_LIMIT
    ensures
      var b := t.blocks[t.hs[n].f.group - 1];
      && PartsIn(t.ds, b, js, id) !! Landed(t.ds, t.blocks, AcceptedBy(t, n), id)
      && (PartsIn(t.ds, b, js, id) != {} ==> Releases(t, n, id))
  {
    hide Tiled, Recovered, Stream, PromptDatagram, IsAccepted, AcceptedBy, PromptGroup;
    var b, ds := t.blocks[t.hs[n].f.group - 1], t.ds;
    forall i | 0 <= i < |js| && Usable(ds, b.first + js[i], id)
      ensures LetsOut(t, n, b.first + js[i])
      ensures Stream(ds)[b.first + js[i]].index !in Landed(ds, t.blocks, AcceptedBy(t, n), id)
    {
      var k := b.first + js[i];
      assert Among(b.first, js, k);
      RecoveredNext(t, n, js, id, k);
      forall l: nat | l < |Stream(ds)| && Usable(ds, l, id) && Recovered(t.blocks, AcceptedBy(t, n), l)
        ensures Stream(ds)[l].index != Stream(ds)[k].index
      {
        if Stream(ds)[l].index == Stream(ds)[k].index { SamePlace(ds, k, l); }
      }
    }
  }

  /** Where a prompt datagram stands: nothing of it was repeated, and a lapse is behind its last part. */
  ghost predicate PacketStanding(t: Trace, n: nat, log: seq<Mark>, id: nat)
    requires n <= |t.hs|
  {
    && CleanFor(t.ds, log, id) && Indices(log, id) == Landed(t.ds, t.blocks, AcceptedBy(t, n), id)
    && NoOlder(t.ds, log, id, BegunAt(t, n, id))
    && (LapsedFor(t.ds, log, id) ==>
          BegunAt(t, n, id).Some? && Clock(t.hs, n) >= BegunAt(t, n, id).value + REASSEMBLY_TTL)
  }

  lemma PacketIdle(t: Trace, n: nat, log: seq<Mark>, id: nat)
    requires n < |t.hs| && Steady(t.hs) && !Accepts(t, n) && PacketStanding(t, n, log, id)
    ensures PacketStanding(t, n + 1, log, id)
  {
    hide CleanFor, NoOlder, LapsedFor, Landed, Indices, Steady;
    ClockNext(t, n);
  }

  /** A sweep keeps a datagram clean; it lapses only once past its time. */
  lemma SweepClean(ds: seq<seq<byte>>, log: seq<Mark>, id: nat, now: nat, since: Option<nat>)
    requires CleanFor(ds, log, id) && NoOlder(ds, log, id, since)
    ensures
      var log' := log + [Sweep(now)];
      && CleanFor(ds, log', id) && NoOlder(ds, log', id, since) && Indices(log', id) == Indices(log, id)
      && (LapsedFor(ds, log', id) && !LapsedFor(ds, log, id) ==>
            since.Some? && now >= since.value + REASSEMBLY_TTL)
  {
    hide Account, Clean, Lapsed, Indices, Sizes, ChunksOf;
    CleanSnoc(log, Sweep(now), id, SizeOf(ds, id), REASSEMBLY_TTL);
    AccountSnoc(log, Sweep(now), id, SizeOf(ds, id), REASSEMBLY_TTL);
    IndicesSnoc(log, Sweep(now), id);
  }

  /** The log after one accepted frame that releases the data shards `js` of block `b`. */
  ghost function CallLog(ds: seq<seq<byte>>, b: Block, js: seq<nat>, at: Readings, log: seq<Mark>): seq<Mark>
    requires Inside(ds, b, js)
  {
    log + [Sweep(at.sweep)] + Puts(ds, b, js, at.place) + [Sweep(at.close)]
  }

  lemma PacketNext(t: Trace, n: nat, log: seq<Mark>, js: seq<nat>, id: nat)
    requires n < |t.hs| && Steady(t.hs) && Accepts(t, n) && ReleasesShards(t, n, js)
    requires Tiled(t.blocks) && |t.ds| < U64_LIMIT
    requires PromptDatagram(t, id) && PacketStanding(t, n, log, id)
    ensures PacketStanding(t, n + 1, CallLog(t.ds, t.blocks[t.hs[n].f.group - 1], js, t.hs[n].at, log), id)
  {
    hide CleanFor, NoOlder, LapsedFor, Landed, Indices, AcceptedBy, Inside, Distinct, Releases, PromptGroup, Tiled,
      PartsIn, Puts, IsAccepted, NewlyOut;
    var at, b := t.hs[n].at, t.blocks[t.hs[n].f.group - 1];
    var since := BegunAt(t, n + 1, id);
    assert Ordered(at);
    ClockNext(t, n);
    ClockBehind(t.hs, n, n);
    LandedGrows(t, n, js, id);
    ReleasedAreNew(t, n, js, id);
    NoOlderLater(t, n, log, id);
    BegunBehind(t, n, n, id);
    SweepClean(t.ds, log, id, at.sweep, since);
    var log1 := log + [Sweep(at.sweep)];
    PutsClean(t.ds, b, js, at.place, log1, id, since);
    var log2 := log1 + Puts(t.ds, b, js, at.place);
    SweepClean(t.ds, log2, id, at.close, since);
  }

  lemma {:induction false} BegunBehind(t: Trace, n: nat, m: nat, id: nat)
    requires Steady(t.hs) && n <= m < |t.hs| && t.hs[m].Get?
    ensures BegunAt(t, n, id).Some? ==> BegunAt(t, n, id).value <= t.hs[m].at.sweep
  {
    hide IsAccepted, LetsOut, PartOf;
    if n > 0 {
      BegunBehind(t, n - 1, m, id);
      if t.hs[n - 1].Get? { assert Ordered(t.hs[n - 1].at); }
    }
  }

  lemma NoOlderLater(t: Trace, n: nat, log: seq<Mark>, id: nat)
    requires NoOlder(t.ds, log, id, BegunAt(t, n, id))
    ensures NoOlder(t.ds, log, id, BegunAt(t, n + 1, id))
  {
    hide Account, Releases, SizeOf;
  }

  // ----- Every run -----

  /** The outputs of all happenings, in order. */
  ghost function Joined(outs: seq<seq<seq<byte>>>): seq<seq<byte>> {
    if outs == [] then [] else Joined(outs[..|outs| - 1]) + outs[|outs| - 1]
  }

  ghost predicate OutputIs(t: Trace, n: nat, log: seq<Mark>)
    requires n < |t.states| && n <= |t.outs|
  {
    PacketsKept(t.ds, t.states[n].packets, log) && Joined(t.outs[..n]) == Payloads(t.ds, Completed(t.ds, log))
  }

  ghost predicate GroupsStanding(t: Trace, n: nat)
    requires n < |t.states| && n <= |t.hs|
  {
    forall g: nat :: PromptGroup(t, g) ==> GroupStanding(t, n, g)
  }

  ghost predicate PacketsStanding(t: Trace, n: nat, log: seq<Mark>)
    requires n <= |t.hs|
  {
    forall id: nat :: PromptDatagram(t, id) ==> PacketStanding(t, n, log, id)
  }

  lemma JoinedNext(t: Trace, n: nat)
    requires n < |t.outs|
    ensures Joined(t.outs[..n + 1]) == Joined(t.outs[..n]) + t.outs[n]
  {
    assert t.outs[..n + 1][..n] == t.outs[..n];
  }

  lemma SweptKept(ds: seq<seq<byte>>, packets: Table, log: seq<Mark>, now: nat)
    requires PacketsKept(ds, packets, log)
    ensures PacketsKept(ds, Young(packets, now, REASSEMBLY_TTL), log + [Sweep(now)])
    ensures Completed(ds, log + [Sweep(now)]) == Completed(ds, log)
  {
    hide AllKept, Done, Young, Sizes, ChunksOf;
    SweepKept(ChunksOf(ds), packets, log, REASSEMBLY_TTL, now);
    DoneSnoc(log, Sweep(now), Sizes(ChunksOf(ds)), REASSEMBLY_TTL);
  }

  /** An accepted frame in full: its group, the shards it releases, and the tables after it. */
  lemma AcceptedStep(t: Trace, n: nat) returns (js: seq<nat>)
    requires Honest(t) && n < |t.hs| && n + 1 < |t.states| && n < |t.outs| && Accepts(t, n) && StepsOn(t, n)
    requires Sound(t.code, t.ds, t.blocks, t.session, t.states[n]) && Steady(t.hs)
    requires PromptGroup(t, t.hs[n].f.group) ==> GroupStanding(t, n, t.hs[n].f.group)
    ensures AbsorbsInto(t, n) && ReleasesShards(t, n, js)
    ensures Carries(t.code, Stream(t.ds), t.blocks, t.hs[n].f)
    ensures GroupsSound(t.code, t.ds, t.blocks, Swept(Heard(t.states[n], t.hs[n].f), t.hs[n].at.sweep).groups)
    ensures
      var b, at := t.blocks[t.hs[n].f.group - 1], t.hs[n].at;
      var young := Young(t.states[n].packets, at.sweep, REASSEMBLY_TTL);
      var word := WordOf(t.code, t.ds, b);
      ShardsCarry(t.ds, word, b) &&
      var (packets, out) := FragmentAll(young, Pick(word, js), at.place);
      t.states[n + 1].packets == Young(packets, at.close, REASSEMBLY_TTL) && t.outs[n] == out
  {
    hide RunOf, HonestRun, Sender, GroupsSound, PacketsSound, GroupSound, GroupExact, Absorb, Deliver, FragmentAll,
      Stream, GoodWord, Released, Indexes, AcceptedBy, PromptGroup, GroupStanding, NewlyOut, WordOf, Young, FreshGroups,
      Distinct, Steady;
    var f, at := t.hs[n].f, t.hs[n].at;
    assert Sender(t.code, t.ds, t.blocks);
    FrameIsHonest(t, n);
    AcceptedCarries(t, n);
    SweptSound(t.code, t.ds, t.blocks, t.session, Heard(t.states[n], f), at.sweep);
    var st1 := Swept(Heard(t.states[n], f), at.sweep);
    var b, met := t.blocks[f.group - 1], Met(st1.groups, f, at.open);
    AbsorbIs(t.code, t.ds, t.blocks, st1, f, at);
    WordFits(t.code, t.ds, t.blocks, f.group - 1);
    js := Released(met, f.index, f.payload);
    ReleasedDistinct(met, f.index, f.payload);
    if PromptGroup(t, f.group) {
      MetInTime(t, n, f.group);
      MetSound(t.code, t.ds, t.blocks, st1.groups, f, at.open);
      MetExact(t, f, met, Indexes(AcceptedBy(t, n), f.group));
    }
  }

  lemma AcceptedCarries(t: Trace, n: nat)
    requires Honest(t) && n < |t.hs| && n < |t.states| && Accepts(t, n)
    ensures Carries(t.code, Stream(t.ds), t.blocks, t.hs[n].f)
  {
    hide RunOf, Sender, Carries, GoodWord;
    assert Sender(t.code, t.ds, t.blocks);
    FrameIsHonest(t, n);
    HonestDimensions(t.code, t.ds, t.blocks, t.session, t.hs[n].f);
  }

  lemma WordFits(code: Erasure.Code, ds: seq<seq<byte>>, blocks: seq<Block>, b: nat)
    requires Sender(code, ds, blocks) && b < |blocks|
    ensures blocks[b].first + blocks[b].data <= |Stream(ds)| && ShardsCarry(ds, WordOf(code, ds, blocks[b]), blocks[b])
  {
    hide Stream, WordOf, HonestCode, ShardsCarry;
    WordCarries(code, ds, blocks[b]);
  }

  /** Everything known after `n` happenings, with `log` the ledger so far. */
  ghost predicate Tracks(t: Trace, n: nat, log: seq<Mark>)
    requires Sender(t.code, t.ds, t.blocks) && n < |t.states| && n <= |t.hs| && n <= |t.outs|
  {
    && Sound(t.code, t.ds, t.blocks, t.session, t.states[n]) && |t.states[n].packets| <= MAX_REASSEMBLIES
    && GroupsStanding(t, n) && OutputIs(t, n, log) && PacketsStanding(t, n, log)
  }

  lemma GroupsNext(t: Trace, n: nat)
    requires Honest(t) && n < |t.hs| && n + 1 < |t.states| && n < |t.outs| && Steady(t.hs) && GroupsStanding(t, n)
    requires if Accepts(t, n) then StepsOn(t, n) && AbsorbsInto(t, n) else Idles(t, n)
    requires Accepts(t, n) ==>
      && Carries(t.code, Stream(t.ds), t.blocks, t.hs[n].f)
      && GroupsSound(t.code, t.ds, t.blocks, Swept(Heard(t.states[n], t.hs[n].f), t.hs[n].at.sweep).groups)
    ensures GroupsStanding(t, n + 1)
  {
    hide RunOf, HonestRun, Sender, StepsOn, AbsorbsInto, Carries, GroupsSound, GroupStanding, PromptGroup, Idles,
      IsAccepted, Steady, Swept, Stream;
    forall g: nat | PromptGroup(t, g) ensures GroupStanding(t, n + 1, g) {
      if Accepts(t, n) && t.hs[n].f.group == g {
        GroupNext(t, n, g);
      } else {
        GroupElsewhere(t, n, g);
      }
    }
  }

  /** The ledger after one accepted frame. */
  lemma OutputNext(t: Trace, n: nat, log: seq<Mark>, b: Block, word: seq<seq<byte>>, js: seq<nat>)
    requires n < |t.hs| && t.hs[n].Get? && n + 1 < |t.states| && n < |t.outs| && OutputIs(t, n, log)
    requires ShardsCarry(t.ds, word, b) && Inside(t.ds, b, js)
    requires
      var at := t.hs[n].at;
      var (packets, out) := FragmentAll(Young(t.states[n].packets, at.sweep, REASSEMBLY_TTL), Pick(word, js), at.place);
      t.states[n + 1].packets == Young(packets, at.close, REASSEMBLY_TTL) && t.outs[n] == out
    ensures OutputIs(t, n + 1, CallLog(t.ds, b, js, t.hs[n].at, log))
  {
    hide PacketsKept, FragmentAll, Young, Pick, Payloads, Completed, Carry, Puts, Stream, Joined;
    var at, young := t.hs[n].at, Young(t.states[n].packets, t.hs[n].at.sweep, REASSEMBLY_TTL);
    SweptKept(t.ds, t.states[n].packets, log, at.sweep);
    var log1 := log + [Sweep(at.sweep)];
    FragmentsKept(t.ds, word, b, young, log1, js, at.place);
    SweptKept(t.ds, FragmentAll(young, Pick(word, js), at.place).0, log1 + Puts(t.ds, b, js, at.place), at.close);
    JoinedNext(t, n);
  }

  lemma PacketsNext(t: Trace, n: nat, log: seq<Mark>, js: seq<nat>)
    requires n < |t.hs| && Steady(t.hs) && Accepts(t, n) && ReleasesShards(t, n, js)
    requires Tiled(t.blocks) && |t.ds| < U64_LIMIT && PacketsStanding(t, n, log)
    ensures PacketsStanding(t, n + 1, CallLog(t.ds, t.blocks[t.hs[n].f.group - 1], js, t.hs[n].at, log))
  {
    hide Steady, IsAccepted, PacketStanding, PromptDatagram, Tiled, CallLog, NewlyOut, PromptGroup;
    forall id: nat | PromptDatagram(t, id)
      ensures PacketStanding(t, n + 1, CallLog(t.ds, t.blocks[t.hs[n].f.group - 1], js, t.hs[n].at, log), id)
    {
      PacketNext(t, n, log, js, id);
    }
  }

  lemma PacketsIdle(t: Trace, n: nat, log: seq<Mark>)
    requires n < |t.hs| && n + 1 < |t.states| && n < |t.outs| && Steady(t.hs) && !Accepts(t, n) && Idles(t, n)
    requires PacketsStanding(t, n, log) && OutputIs(t, n, log)
    ensures PacketsStanding(t, n + 1, log) && OutputIs(t, n + 1, log)
  {
    hide Steady, IsAccepted, PacketStanding, PromptDatagram, PacketsKept, Payloads, Completed, Joined;
    forall id: nat | PromptDatagram(t, id) ensures PacketStanding(t, n + 1, log, id) {
      PacketIdle(t, n, log, id);
    }
    JoinedNext(t, n);
  }

  lemma StepSound(t: Trace, n: nat)
    requires Honest(t) && n < |t.hs| && n + 1 < |t.states| && Sound(t.code, t.ds, t.blocks, t.session, t.states[n])
    ensures Sound(t.code, t.ds, t.blocks, t.session, t.states[n + 1])
  {
    hide Sender, Sound, HonestFrame, May, AllFrom;
    assert May(t.code, t.states[n], t.hs[n], t.states[n + 1], t.outs[n]);
    MaySound(t.code, t.ds, t.blocks, t.session, t.states[n], t.hs[n], t.states[n + 1], t.outs[n]);
  }

  lemma TracksNext(t: Trace, n: nat, log: seq<Mark>) returns (log': seq<Mark>)
    requires Undisturbed(t) && n < |t.hs| && n + 1 < |t.states| && n < |t.outs| && Tracks(t, n, log)
    ensures Tracks(t, n + 1, log')
  {
    hide Sender, RunOf, HonestRun, Sound, StepsOn, AbsorbsInto, Carries, GroupsSound, GroupStanding, GroupsStanding,
      PromptGroup, Idles, IsAccepted, Steady, Swept, Stream, PacketsStanding, OutputIs, WithinLimits, FragmentAll,
      Young, Pick, ShardsCarry, WordOf, CallLog, NewlyOut;
    assert Honest(t) && Sender(t.code, t.ds, t.blocks);
    assert Tiled(t.blocks) && |t.ds| < U64_LIMIT by { SenderShape(t.code, t.ds, t.blocks); }
    StepIs(t, n);
    StepSound(t, n);
    if Accepts(t, n) {
      assert PromptGroup(t, t.hs[n].f.group) ==> GroupStanding(t, n, t.hs[n].f.group) by {
        StandingOf(t, n, t.hs[n].f.group);
      }
      var js := AcceptedStep(t, n);
      GroupsNext(t, n);
      var b := t.blocks[t.hs[n].f.group - 1];
      log' := CallLog(t.ds, b, js, t.hs[n].at, log);
      OutputNext(t, n, log, b, WordOf(t.code, t.ds, b), js);
      PacketsNext(t, n, log, js);
    } else {
      GroupsNext(t, n);
      PacketsIdle(t, n, log);
      log' := log;
    }
  }

  lemma StandingOf(t: Trace, n: nat, g: nat)
    requires n < |t.states| && n <= |t.hs| && GroupsStanding(t, n)
    ensures PromptGroup(t, g) ==> GroupStanding(t, n, g)
  {
  }

  lemma SenderShape(code: Erasure.Code, ds: seq<seq<byte>>, blocks: seq<Block>)
    requires Sender(code, ds, blocks)
    ensures Tiled(blocks) && |ds| < U64_LIMIT
  {
  }

  lemma NothingRecovered(blocks: seq<Block>, k: nat)
    requires forall b :: 0 <= b < |blocks| ==> BlockBounds(blocks[b])
    ensures !Recovered(blocks, {}, k)
  {
    forall b | InBlock(blocks, b, k) ensures !Out(Indexes({}, b + 1), blocks[b].data, k - blocks[b].first) {
      assert Indexes({}, b + 1) == {};
      assert BlockBounds(blocks[b]);
    }
  }

  lemma InitiallyTracks(t: Trace)
    requires Honest(t)
    ensures |t.states| >= 1 && Tracks(t, 0, [])
  {
    hide HonestRun, HonestCode, HonestFrame, May, Recovered, Stream, PromptGroup, PromptDatagram, Usable;
    forall g: nat ensures GroupStanding(t, 0, g) { assert Indexes({}, g) == {}; }
    forall id: nat ensures PacketStanding(t, 0, [], id) {
      forall k: nat ensures !Recovered(t.blocks, {}, k) { NothingRecovered(t.blocks, k); }
      assert Landed(t.ds, t.blocks, {}, id) == {};
      assert Indices([], id) == {};
    }
    NothingKept(ChunksOf(t.ds), REASSEMBLY_TTL);
  }

  lemma {:induction false} RunTracks(t: Trace, n: nat) returns (log: seq<Mark>)
    requires Undisturbed(t) && n <= |t.hs|
    ensures n < |t.states| && n <= |t.outs| && Tracks(t, n, log)
  {
    hide Sender, RunOf, HonestRun, Tracks, WithinLimits, Steady;
    assert Sender(t.code, t.ds, t.blocks);
    Shape(t);
    if n == 0 {
      InitiallyTracks(t);
      log := [];
    } else {
      log := RunTracks(t, n - 1);
      log := TracksNext(t, n - 1, log);
    }
  }

  // ----- From the ledger to datagrams -----

  /**
   * Datagram `id` gets through: it is at most 64 chunks long, and each of its fragments had
   * its own frame accepted or at least `data` distinct frames of its group.
   */
  ghost predicate GetsThrough(ds: seq<seq<byte>>, blocks: seq<Block>, accepted: set<Slot>, id: nat) {
    && 1 <= id <= |ds| && |ds[id - 1]| <= MAX_FRAGMENTS * CHUNK
    && forall k: nat :: PartOf(ds, k, id) ==> Recovered(blocks, accepted, k)
  }

  lemma CountLimit(payload: seq<byte>)
    ensures FragmentCount(payload) <= MAX_FRAGMENTS <==> |payload| <= MAX_FRAGMENTS * CHUNK
    ensures FragmentCount(payload) >= 1
  {
    ChunksShape(payload);
  }

  lemma FragmentAt(ds: seq<seq<byte>>, id: nat, x: nat) returns (k: nat)
    requires 1 <= id <= |ds| && x < FragmentCount(ds[id - 1]) < U16_LIMIT
    ensures PartOf(ds, k, id) && Stream(ds)[k].index == x && Stream(ds)[k].count == FragmentCount(ds[id - 1])
  {
    hide Stream, Chunks;
    var f := FragmentsOf(id, ds[id - 1])[x];
    StreamMembers(ds, f);
    k :| 0 <= k < |Stream(ds)| && Stream(ds)[k] == f;
  }

  lemma SizeIsCount(ds: seq<seq<byte>>, id: nat)
    requires 1 <= id <= |ds|
    ensures SizeOf(ds, id) == FragmentCount(ds[id - 1])
  {
  }

  lemma LandsWhole(ds: seq<seq<byte>>, blocks: seq<Block>, accepted: set<Slot>, id: nat, x: nat)
    requires |ds| < U64_LIMIT && GetsThrough(ds, blocks, accepted, id) && x < SizeOf(ds, id)
    ensures x in Landed(ds, blocks, accepted, id)
  {
    hide Stream, Recovered, SizeOf, FragmentCount;
    SizeIsCount(ds, id);
    CountLimit(ds[id - 1]);
    var k := FragmentAt(ds, id, x);
    assert Recovered(blocks, accepted, k);
  }

  lemma WholeLands(ds: seq<seq<byte>>, blocks: seq<Block>, accepted: set<Slot>, id: nat)
    requires |ds| < U64_LIMIT && 1 <= id <= |ds|
    requires forall x: nat :: x < SizeOf(ds, id) ==> x in Landed(ds, blocks, accepted, id)
    ensures GetsThrough(ds, blocks, accepted, id)
  {
    hide Stream, Recovered, SizeOf, FragmentCount, FragmentOf;
    SizeIsCount(ds, id);
    CountLimit(ds[id - 1]);
    assert 0 in Landed(ds, blocks, accepted, id);
    var k0 :| 0 <= k0 < |Stream(ds)| && Usable(ds, k0, id);
    StreamSize(ds, k0);
    forall k: nat | PartOf(ds, k, id) ensures Recovered(blocks, accepted, k) {
      StreamSize(ds, k);
      assert Stream(ds)[k].index in Landed(ds, blocks, accepted, id);
      var l :| 0 <= l < |Stream(ds)| && Usable(ds, l, id) && Recovered(blocks, accepted, l)
        && Stream(ds)[l].index == Stream(ds)[k].index;
      SamePlace(ds, k, l);
    }
  }

  /** All parts landed, in the ledger's words. */
  lemma FullIffThrough(ds: seq<seq<byte>>, blocks: seq<Block>, accepted: set<Slot>, log: seq<Mark>, id: nat)
    requires |ds| < U64_LIMIT && 1 <= id <= |ds| && InRange(log, Sizes(ChunksOf(ds)))
    requires Indices(log, id) == Landed(ds, blocks, accepted, id)
    ensures |Indices(log, id)| >= SizeOf(ds, id) <==> GetsThrough(ds, blocks, accepted, id)
    ensures SizeOf(ds, id) >= 1
  {
    hide Landed, Indices, InRange, GetsThrough, ChunksOf;
    SizeIsCount(ds, id);
    CountLimit(ds[id - 1]);
    IndicesInRange(log, id, Sizes(ChunksOf(ds)));
    if GetsThrough(ds, blocks, accepted, id) {
      forall x: nat | x in UpTo(SizeOf(ds, id)) ensures x in Indices(log, id) {
        LandsWhole(ds, blocks, accepted, id, x);
      }
      assert Indices(log, id) == UpTo(SizeOf(ds, id));
    }
    if Indices(log, id) == UpTo(SizeOf(ds, id)) {
      WholeLands(ds, blocks, accepted, id);
    }
  }

  lemma {:induction false} DoneInRange(log: seq<Mark>, sizes: nat -> nat, ttl: nat)
    requires InRange(log, sizes)
    ensures forall i :: 0 <= i < |Done(log, sizes, ttl)| ==> sizes(Done(log, sizes, ttl)[i]) >= 1
  {
    hide Account;
    if log != [] { DoneInRange(log[..|log| - 1], sizes, ttl); }
  }

  // ----- The theorem -----

  /** How often a prompt datagram comes out: once if it gets through, and otherwise never. */
  ghost function TimesDue(t: Trace, id: nat): nat {
    if GetsThrough(t.ds, t.blocks, AcceptedBy(t, |t.hs|), id) then 1 else 0
  }

  /** `ids` number the outputs, and a prompt datagram is among them once if it gets through, else never. */
  ghost predicate Delivers(t: Trace, ids: seq<nat>) {
    && Joined(t.outs) == Payloads(t.ds, ids)
    && (forall i :: 0 <= i < |ids| ==> 1 <= ids[i] <= |t.ds|)
    && forall id: nat :: 1 <= id <= |t.ds| && PromptDatagram(t, id) ==> multiset(ids)[id] == TimesDue(t, id)
  }

  lemma OnceIffThrough(t: Trace, log: seq<Mark>, id: nat)
    requires |t.ds| < U64_LIMIT && 1 <= id <= |t.ds| && PacketStanding(t, |t.hs|, log, id)
    ensures multiset(Completed(t.ds, log))[id] == TimesDue(t, id)
  {
    hide Landed, Indices, InRange, GetsThrough, ChunksOf, Clean, Lapsed, Account, Done, AcceptedBy, BegunAt, Sizes;
    FullIffThrough(t.ds, t.blocks, AcceptedBy(t, |t.hs|), log, id);
    CleanOnce(log, id, Sizes(ChunksOf(t.ds)), REASSEMBLY_TTL);
  }

  /** Exact delivery for any honest sender. */
  lemma DeliveredExactly(t: Trace) returns (ids: seq<nat>)
    requires Undisturbed(t)
    ensures Delivers(t, ids)
  {
    hide Sender, RunOf, HonestRun, WithinLimits, Steady, Sound, GroupsStanding, PacketStanding, PromptDatagram,
      GetsThrough, AcceptedBy, Payloads, Joined;
    assert Sender(t.code, t.ds, t.blocks);
    Shape(t);
    SenderShape(t.code, t.ds, t.blocks);
    var log := RunTracks(t, |t.hs|);
    assert t.outs[..|t.hs|] == t.outs;
    ids := Completed(t.ds, log);
    DoneInRange(log, Sizes(ChunksOf(t.ds)), REASSEMBLY_TTL);
    forall id: nat | 1 <= id <= |t.ds| && PromptDatagram(t, id) ensures multiset(ids)[id] == TimesDue(t, id) {
      OnceIffThrough(t, log, id);
    }
  }

  /** The frames of the run are those of an encoder given any datagrams, flushes, reports and feedback. */
  ghost predicate SentBy(t: Trace, version: nat, keyId: nat, force: Option<nat>, sent: seq<Event>) {
    var e := RunT(t.code, FecEncoder.InitialEncoder(t.session, version, keyId, force), sent);
    && t.ds == Datagrams(sent) && t.blocks == e.blocks
    && forall i :: 0 <= i < |t.hs| && t.hs[i].Get? ==> t.hs[i].f in e.frames
  }

  lemma SentIsHonest(t: Trace, version: nat, keyId: nat, force: Option<nat>, sent: seq<Event>)
    requires HonestCode(t.code) && |t.ds| < U64_LIMIT && SentBy(t, version, keyId, force, sent)
    requires RunOf(t.code, t.session, t.hs, t.states, t.outs)
    ensures Honest(t)
  {
    hide RunT, Datagrams, HonestCode, RunOf, HonestFrame, Sender;
    SenderFrom(t.code, t.session, version, keyId, force, sent);
  }

  /**
   * End to end: an encoder is given any datagrams, flushes, reports and feedback; the frames it
   * emits arrive in any order, any number of times or not at all, with loss reports taken in
   * between, at a decoder that prunes as it does and whose tables stay within their limits.
   * Then the outputs are the datagrams numbered `ids`, and a prompt datagram is among them
   * exactly once if it gets through and never otherwise, whatever became of the others.
   */
  lemma ExactDelivery(t: Trace, version: nat, keyId: nat, force: Option<nat>, sent: seq<Event>)
    returns (ids: seq<nat>)
    requires HonestCode(t.code) && |t.ds| < U64_LIMIT && SentBy(t, version, keyId, force, sent)
    requires RunOf(t.code, t.session, t.hs, t.states, t.outs) && NothingForgotten(t.hs)
    requires Steady(t.hs) && WithinLimits(t)
    ensures Delivers(t, ids)
  {
    hide RunOf, HonestCode, SentBy, WithinLimits, Steady, Delivers, Honest;
    SentIsHonest(t, version, keyId, force, sent);
    ids := DeliveredExactly(t);
  }
}
