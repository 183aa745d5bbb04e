/**
 * Reassembly in the FEC decoder: fragments of known datagrams, in any order, are joined
 * into exactly those datagrams, and the table holds exactly what the ledger says.
 */
module DecoderReassembly {
  import opened Bytes
  import opened Fragments
  import opened Erasure
  import opened Ledger
  import opened Reassembly
  import opened FecDecoder
  import opened EncoderHistory

  /** The chunks of datagram number `id`. */
  ghost function ChunksOf(ds: seq<seq<byte>>): Words {
    (id: nat) => if 1 <= id <= |ds| then Chunks(ds[id - 1]) else []
  }

  ghost function At(ds: seq<seq<byte>>, id: nat): seq<byte> {
    if 1 <= id <= |ds| then ds[id - 1] else []
  }

  ghost function Payloads(ds: seq<seq<byte>>, ids: seq<nat>): (s: seq<seq<byte>>)
    ensures |s| == |ids|
  {
    seq(|ids|, i requires 0 <= i < |ids| => At(ds, ids[i]))
  }

  // ----- Nothing but the datagram's own chunks is ever stored -----

  ghost predicate PartsSound(ds: seq<seq<byte>>, id: nat, parts: View) {
    && 1 <= id <= |ds| && |parts| == |Chunks(ds[id - 1])|
    && Agrees(parts, Chunks(ds[id - 1]))
  }

  ghost predicate PacketsSound(ds: seq<seq<byte>>, packets: Table) {
    forall id :: id in packets ==> PartsSound(ds, id, packets[id].parts)
  }

  /** One fragment keeps the table sound, and whatever it completes is its own datagram. */
  lemma PlaceSound(ds: seq<seq<byte>>, packets: Table, f: Fragment, now: nat)
    requires PacketsSound(ds, packets) && FragmentOf(ds, f)
    requires f.index < f.count
    ensures
      var (packets', out) := PlaceFragment(packets, f, now);
      PacketsSound(ds, packets') && (out == [] || out == [ds[f.packet - 1]])
  {
    var payload := ds[f.packet - 1];
    FragmentShape(ds, f);
    ChunksRejoin(payload);
    var parts := Opened(packets, f.packet, f.count, now).parts[f.index := Some(f.chunk)];
    assert PartsSound(ds, f.packet, parts);
    if AllPresent(parts) {
      JoinIsConcat(parts, Chunks(payload));
    }
  }

  // ----- The table is the ledger -----

  ghost predicate PacketsKept(ds: seq<seq<byte>>, packets: Table, log: seq<Mark>) {
    AllKept(ChunksOf(ds), packets, log, REASSEMBLY_TTL)
  }

  /** The datagrams completed so far. */
  ghost function Completed(ds: seq<seq<byte>>, log: seq<Mark>): seq<nat> {
    Done(log, Sizes(ChunksOf(ds)), REASSEMBLY_TTL)
  }

  lemma PayloadsSnoc(ds: seq<seq<byte>>, ids: seq<nat>, id: nat)
    ensures Payloads(ds, ids + [id]) == Payloads(ds, ids) + [At(ds, id)]
    ensures Payloads(ds, ids + []) == Payloads(ds, ids) + []
  {
    assert ids + [] == ids;
  }

  /** A fragment completes its datagram exactly when the ledger says so, and then yields it. */
  lemma PlaceExact(ds: seq<seq<byte>>, packets: Table, log: seq<Mark>, f: Fragment, now: nat)
    requires PacketsKept(ds, packets, log) && FragmentOf(ds, f)
    requires f.index < f.count
    ensures
      var log' := log + [Put(Part(f.packet, f.index), now)];
      var (packets', out) := PlaceFragment(packets, f, now);
      && PacketsKept(ds, packets', log')
      && Payloads(ds, Completed(ds, log')) == Payloads(ds, Completed(ds, log)) + out
  {
    hide AllKept, Chunks, FragmentOf, Join, AllPresent, Payloads, Done, Completes, Settled;
    FragmentShape(ds, f);
    FragmentRange(ds, f);
    ChunksRejoin(ds[f.packet - 1]);
    PutKept(ChunksOf(ds), packets, log, REASSEMBLY_TTL, f.packet, f.index, now);
    DoneSnoc(log, Put(Part(f.packet, f.index), now), Sizes(ChunksOf(ds)), REASSEMBLY_TTL);
    PayloadsSnoc(ds, Completed(ds, log), f.packet);
  }

  lemma FragmentRange(ds: seq<seq<byte>>, f: Fragment)
    requires FragmentOf(ds, f)
    ensures 1 <= f.packet <= |ds|
  {
  }
}
