/**
 * When the decoder's tables stay within their limits, told from the arrivals alone: few enough
 * groups and datagrams are on their way at any one time, however long the run.
 */
module Traffic {
  import opened Bytes
  import Ledger
  import opened Reassembly
  import opened EncoderHistory
  import opened FecDecoder
  import DecoderReassembly
  import opened GroupRecovery
  import opened Tunnel
  import opened Integrity
  import opened Reception
  import opened Delivery
  import Arrivals
  import Fragments
  import Erasure

  // ----- What is on its way -----

  /** The groups with an accepted frame within the lifetime before happening `i`, or at it. */
  ghost function BusyGroups(t: Trace, i: nat): set<nat>
    requires Accepts(t, i)
  {
    set k | 0 <= k <= i && Accepts(t, k) && t.hs[i].at.sweep < t.hs[k].at.close + GROUP_TTL :: t.hs[k].f.group
  }

  /** Fragment `x` belongs to the group of frame `k`, and to a datagram of more than one fragment. */
  ghost predicate Brings(t: Trace, k: int, x: nat) {
    && Accepts(t, k) && 1 <= t.hs[k].f.group && InBlock(t.blocks, t.hs[k].f.group - 1, x)
    && x < |Stream(t.ds)| && Stream(t.ds)[x].count >= 2
  }

  /**
   * The datagrams of more than one fragment, some of it in a group with an accepted frame
   * within the lifetime of a reassembly before happening `i`, or at it.
   */
  ghost function BusyDatagrams(t: Trace, i: nat): set<nat>
    requires Accepts(t, i)
  {
    set k, x | 0 <= k <= i && 0 <= x < |Stream(t.ds)| && Brings(t, k, x)
               && t.hs[i].at.close < t.hs[k].at.close + REASSEMBLY_TTL
      :: Stream(t.ds)[x].packet
  }

  ghost predicate LightTraffic(t: Trace) {
    forall i: nat :: Accepts(t, i) ==>
      |BusyGroups(t, i)| <= MAX_GROUPS && |BusyDatagrams(t, i)| <= MAX_REASSEMBLIES
  }

  // ----- Every table entry was made by an accepted frame -----

  ghost predicate GroupMade(t: Trace, n: nat, g: nat, created: nat) {
    exists k :: 0 <= k < n && Accepts(t, k) && t.hs[k].f.group == g && created <= t.hs[k].at.close
  }

  ghost predicate PacketMade(t: Trace, n: nat, id: nat, created: nat) {
    exists k, x: nat :: 0 <= k < n && Brings(t, k, x) && Stream(t.ds)[x].packet == id && created <= t.hs[k].at.close
  }

  ghost predicate GroupsMade(t: Trace, n: nat, groups: map<nat, Group>) {
    forall g :: g in groups ==> GroupMade(t, n, g, groups[g].created)
  }

  ghost predicate PacketsMade(t: Trace, n: nat, packets: Table) {
    forall id :: id in packets ==> PacketMade(t, n, id, packets[id].created)
  }

  lemma MadeLater(t: Trace, n: nat, groups: map<nat, Group>, packets: Table)
    requires GroupsMade(t, n, groups) && PacketsMade(t, n, packets)
    ensures GroupsMade(t, n + 1, groups) && PacketsMade(t, n + 1, packets)
  {
    hide Brings, Stream;
    forall g | g in groups ensures GroupMade(t, n + 1, g, groups[g].created) {
      assert GroupMade(t, n, g, groups[g].created);
    }
    forall id | id in packets ensures PacketMade(t, n + 1, id, packets[id].created) {
      assert PacketMade(t, n, id, packets[id].created);
    }
  }

  lemma MadeShrunk(t: Trace, n: nat, st: DecoderState, st': DecoderState)
    requires GroupsMade(t, n, st.groups) && PacketsMade(t, n, st.packets) && Shrunk(st, st')
    ensures GroupsMade(t, n, st'.groups) && PacketsMade(t, n, st'.packets)
  {
    hide GroupMade, PacketMade;
  }

  /** A placed fragment leaves entries that were there, or starts one for a datagram of more than one. */
  lemma PlaceStarts(packets: Table, f: Fragments.Fragment, now: nat, id: nat)
    requires f.index < f.count
    ensures
      var packets' := PlaceFragment(packets, f, now).0;
      id in packets' ==>
        if id in packets then packets'[id].created == packets[id].created
        else id == f.packet && f.count >= 2 && packets'[id].created == now
  {
    hide Join;
  }

  lemma ShardMade(t: Trace, n: nat, shard: seq<byte>, x: nat, packets: Table, now: nat)
    requires n < |t.hs| && Accepts(t, n) && 1 <= t.hs[n].f.group && InBlock(t.blocks, t.hs[n].f.group - 1, x)
    requires x < |Stream(t.ds)| && Carry(t.ds, shard, x) && now <= t.hs[n].at.close
    requires PacketsMade(t, n + 1, packets)
    ensures PacketsMade(t, n + 1, FragmentStep(packets, shard, now).0)
  {
    hide Stream, PlaceFragment, Fragments.ParseShard, FragmentOf, InBlock, IsAccepted;
    var f := Stream(t.ds)[x];
    FragmentShape(t.ds, f);
    var packets' := FragmentStep(packets, shard, now).0;
    if f.count <= Fragments.MAX_FRAGMENTS {
      forall id | id in packets' ensures PacketMade(t, n + 1, id, packets'[id].created) {
        PlaceStarts(packets, f, now, id);
        if id in packets {
          assert PacketMade(t, n + 1, id, packets[id].created);
        } else {
          assert Brings(t, n, x);
        }
      }
    }
  }

  lemma {:induction false} FragmentsMade(t: Trace, n: nat, word: seq<seq<byte>>, packets: Table, js: seq<nat>)
    requires n < |t.hs| && Accepts(t, n) && Ordered(t.hs[n].at) && 1 <= t.hs[n].f.group <= |t.blocks|
    requires
      var b := t.blocks[t.hs[n].f.group - 1];
      ShardsCarry(t.ds, word, b) && Below(js, b.data)
    requires PacketsMade(t, n + 1, packets)
    ensures PacketsMade(t, n + 1, FragmentAll(packets, Pick(word, js), t.hs[n].at.place).0)
  {
    hide Stream, PacketsMade, FragmentStep, Carry, Pick, IsAccepted;
    var b, at := t.blocks[t.hs[n].f.group - 1], t.hs[n].at;
    if js == [] {
      assert Pick(word, js) == [];
    } else {
      var init, j := js[..|js| - 1], js[|js| - 1];
      FragmentsMade(t, n, word, packets, init);
      Snoc(js);
      PickSnoc(word, init, j);
      FragmentAllSnoc(packets, Pick(word, init), word[j], at.place);
      var p1 := FragmentAll(packets, Pick(word, init), at.place).0;
      ShardMade(t, n, word[j], b.first + j, p1, at.place(|init|));
    }
  }

  /** Absorbing an accepted frame: its group and the datagrams it starts are made by it. */
  lemma AbsorbMade(t: Trace, n: nat, st: DecoderState)
    requires Honest(t) && Steady(t.hs) && n < |t.hs| && n < |t.states| && Accepts(t, n)
    requires WfGroups(st.groups) && DimensionsOk(t.hs[n].f) && Sound(t.code, t.ds, t.blocks, t.session, st)
    requires GroupsMade(t, n + 1, st.groups) && PacketsMade(t, n + 1, st.packets)
    ensures
      var st' := Absorb(t.code, st, t.hs[n].f, t.hs[n].at).0;
      GroupsMade(t, n + 1, st'.groups) && PacketsMade(t, n + 1, st'.packets)
  {
    hide RunOf, HonestRun, Sender, GroupsSound, DecoderReassembly.PacketsSound, GroupSound, Deliver, FragmentAll,
      Stream, GoodWord, Released, WordOf, HonestCode, IsAccepted, PacketsMade, Pick, ShardsCarry, Carries;
    var f, at := t.hs[n].f, t.hs[n].at;
    assert Ordered(at) && Sender(t.code, t.ds, t.blocks);
    AcceptedCarries(t, n);
    Arrivals.CarriedGroup(t.code, t.ds, t.blocks, f);
    if Room(st.groups, f) {
      var b, met := t.blocks[f.group - 1], Met(st.groups, f, at.open);
      SenderBlock(t.code, t.ds, t.blocks, f.group - 1);
      AbsorbIs(t.code, t.ds, t.blocks, st, f, at);
      WordCarries(t.code, t.ds, b);
      FragmentsMade(t, n, WordOf(t.code, t.ds, b), st.packets, Released(met, f.index, f.payload));
      GroupsMadeWith(t, n, st.groups, Deliver(t.code, met, f.index, f.payload).0);
    } else {
      assert Absorb(t.code, st, f, at).0 == st;
    }
  }

  lemma SenderBlock(code: Erasure.Code, ds: seq<seq<byte>>, blocks: seq<Block>, b: nat)
    requires Sender(code, ds, blocks) && b < |blocks|
    ensures blocks[b].first + blocks[b].data <= |Stream(ds)| && |ds| < U64_LIMIT
  {
  }

  lemma GroupsMadeWith(t: Trace, n: nat, groups: map<nat, Group>, g': Group)
    requires n < |t.hs| && Accepts(t, n) && Ordered(t.hs[n].at) && GroupsMade(t, n + 1, groups)
    requires g'.created == Met(groups, t.hs[n].f, t.hs[n].at.open).created
    ensures GroupsMade(t, n + 1, groups[t.hs[n].f.group := g'])
  {
    hide IsAccepted;
    var f := t.hs[n].f;
    if f.group in groups {
      assert GroupMade(t, n + 1, f.group, groups[f.group].created);
    } else {
      assert GroupMade(t, n + 1, f.group, t.hs[n].at.open);
    }
  }

  /** One happening keeps every entry accounted for, whatever it forgets. */
  lemma MadeNext(t: Trace, n: nat)
    requires Honest(t) && Steady(t.hs) && n < |t.hs| && n + 1 < |t.states|
    requires Sound(t.code, t.ds, t.blocks, t.session, t.states[n])
    requires GroupsMade(t, n, t.states[n].groups) && PacketsMade(t, n, t.states[n].packets)
    ensures GroupsMade(t, n + 1, t.states[n + 1].groups) && PacketsMade(t, n + 1, t.states[n + 1].packets)
  {
    hide Sender, HonestRun, Sound, GroupsMade, PacketsMade, Absorb, Steady, GoodWord, Carries;
    Shape(t);
    var st, st' := t.states[n], t.states[n + 1];
    assert May(t.code, st, t.hs[n], st', t.outs[n]);
    MadeLater(t, n, st.groups, st.packets);
    match t.hs[n]
    case Count =>
    case Forget => MadeShrunk(t, n + 1, st, st');
    case Get(f, at) =>
      var r :| FrameMay(t.code, st, f, at, st', r);
      FrameIsHonest(t, n);
      HonestDimensions(t.code, t.ds, t.blocks, t.session, f);
      if Accepts(t, n) { MadeByFrame(t, n, r); }
  }

  lemma MadeByFrame(t: Trace, n: nat, r: Result<seq<seq<byte>>, DecodeError>)
    requires Honest(t) && Steady(t.hs) && n < |t.hs| && n + 1 < |t.states| && Accepts(t, n)
    requires Sound(t.code, t.ds, t.blocks, t.session, t.states[n]) && WfGroups(t.states[n].groups)
    requires DimensionsOk(t.hs[n].f)
    requires FrameMay(t.code, t.states[n], t.hs[n].f, t.hs[n].at, t.states[n + 1], r)
    requires GroupsMade(t, n + 1, t.states[n].groups) && PacketsMade(t, n + 1, t.states[n].packets)
    ensures GroupsMade(t, n + 1, t.states[n + 1].groups) && PacketsMade(t, n + 1, t.states[n + 1].packets)
  {
    hide Sender, RunOf, HonestRun, GroupsSound, DecoderReassembly.PacketsSound, GroupsMade, PacketsMade, Absorb,
      Pruned, Steady, FrameMay, IsAccepted;
    var f, at, st' := t.hs[n].f, t.hs[n].at, t.states[n + 1];
    var st0 := Heard(t.states[n], f);
    var st1 := FirstPrune(t.code, t.states[n], f, at, st', r);
    PrunedShrinks(st0, at.sweep, st1);
    ShrunkSound(t.code, t.ds, t.blocks, t.session, st0, st1);
    MadeShrunk(t, n + 1, st0, st1);
    AbsorbMade(t, n, st1);
    if r.Ok? {
      var st2 := Absorb(t.code, st1, f, at).0;
      PrunedShrinks(st2, at.close, st');
      MadeShrunk(t, n + 1, st2, st');
    }
  }

  lemma {:induction false} RunMade(t: Trace, n: nat)
    requires Honest(t) && Steady(t.hs) && n < |t.states|
    ensures GroupsMade(t, n, t.states[n].groups) && PacketsMade(t, n, t.states[n].packets)
  {
    hide Sender, HonestRun, May, GroupMade, PacketMade, Steady, Sound;
    Shape(t);
    if n > 0 {
      hide RunOf, GroupsMade, PacketsMade;
      RunMade(t, n - 1);
      RunSound(t.code, t.ds, t.blocks, t.session, t.hs, t.states, t.outs, n - 1);
      MadeNext(t, n - 1);
    }
  }

  // ----- Light traffic -----

  lemma GroupIsBusy(t: Trace, i: nat, g: nat, created: nat)
    requires Accepts(t, i) && GroupMade(t, i + 1, g, created)
    requires SaturatingSub(t.hs[i].at.sweep, created) < GROUP_TTL
    ensures g in BusyGroups(t, i)
  {
    hide IsAccepted;
    var k :| 0 <= k < i + 1 && Accepts(t, k) && t.hs[k].f.group == g && created <= t.hs[k].at.close;
    assert t.hs[i].at.sweep < t.hs[k].at.close + GROUP_TTL;
  }

  lemma DatagramIsBusy(t: Trace, i: nat, id: nat, created: nat)
    requires Accepts(t, i) && PacketMade(t, i + 1, id, created)
    requires SaturatingSub(t.hs[i].at.close, created) < REASSEMBLY_TTL
    ensures id in BusyDatagrams(t, i)
  {
    hide IsAccepted, Stream, InBlock;
    var k, x: nat :| 0 <= k < i + 1 && Brings(t, k, x) && Stream(t.ds)[x].packet == id && created <= t.hs[k].at.close;
    assert Stream(t.ds)[x].packet in BusyDatagrams(t, i);
  }

  lemma RoomWhenLight(t: Trace, i: nat, st: DecoderState)
    requires Accepts(t, i) && Ordered(t.hs[i].at) && |BusyGroups(t, i)| <= MAX_GROUPS
    requires GroupsMade(t, i + 1, st.groups)
    ensures Room(Swept(st, t.hs[i].at.sweep).groups, t.hs[i].f)
  {
    hide IsAccepted, BusyGroups, GroupMade;
    var at, f, groups := t.hs[i].at, t.hs[i].f, Swept(st, t.hs[i].at.sweep).groups;
    forall g | g in groups ensures g in BusyGroups(t, i) { GroupIsBusy(t, i, g, groups[g].created); }
    assert GroupMade(t, i + 1, f.group, at.sweep) by { MadeHere(t, i); }
    GroupIsBusy(t, i, f.group, at.sweep);
    Ledger.SubsetSize(groups.Keys + {f.group}, BusyGroups(t, i));
    assert f.group !in groups ==> |groups.Keys + {f.group}| == |groups.Keys| + 1 && |groups.Keys| == |groups|;
  }

  lemma MadeHere(t: Trace, i: nat)
    requires Accepts(t, i) && Ordered(t.hs[i].at)
    ensures GroupMade(t, i + 1, t.hs[i].f.group, t.hs[i].at.sweep)
  {
    hide IsAccepted;
  }

  lemma KeptWhenLight(t: Trace, i: nat, st: DecoderState)
    requires Accepts(t, i) && |BusyDatagrams(t, i)| <= MAX_REASSEMBLIES && PacketsMade(t, i + 1, st.packets)
    ensures |Swept(st, t.hs[i].at.close).packets| <= MAX_REASSEMBLIES
  {
    hide IsAccepted, BusyDatagrams, PacketMade;
    var packets := Swept(st, t.hs[i].at.close).packets;
    forall id | id in packets ensures id in BusyDatagrams(t, i) { DatagramIsBusy(t, i, id, packets[id].created); }
    Ledger.SubsetSize(packets.Keys, BusyDatagrams(t, i));
    assert |packets.Keys| == |packets|;
  }

  lemma FitsWhenLight(t: Trace, i: nat)
    requires Honest(t) && Steady(t.hs) && Accepts(t, i) && WfGroups(t.states[i].groups) && DimensionsOk(t.hs[i].f)
    requires |BusyGroups(t, i)| <= MAX_GROUPS && |BusyDatagrams(t, i)| <= MAX_REASSEMBLIES
    ensures
      var f, at := t.hs[i].f, t.hs[i].at;
      var st1 := Swept(Heard(t.states[i], f), at.sweep);
      WfGroups(st1.groups) && Fits(t.code, st1, f, at)
  {
    hide Sender, RunOf, HonestRun, GroupsSound, DecoderReassembly.PacketsSound, GroupsMade, PacketsMade, Absorb,
      IsAccepted, Swept, Room, BusyGroups, BusyDatagrams;
    var f, at := t.hs[i].f, t.hs[i].at;
    assert Ordered(at);
    Shape(t);
    var st0 := Heard(t.states[i], f);
    var st1 := Swept(st0, at.sweep);
    RunSound(t.code, t.ds, t.blocks, t.session, t.hs, t.states, t.outs, i);
    RunMade(t, i);
    MadeLater(t, i, st0.groups, st0.packets);
    RoomWhenLight(t, i, st0);
    Arrivals.SweptWf(st0, at.sweep);
    SweptSound(t.code, t.ds, t.blocks, t.session, st0, at.sweep);
    SweptShrinks(st0, at.sweep);
    MadeShrunk(t, i + 1, st0, st1);
    AbsorbMade(t, i, st1);
    KeptWhenLight(t, i, Absorb(t.code, st1, f, at).0);
  }

  lemma SweptShrinks(st: DecoderState, now: nat)
    ensures Shrunk(st, Swept(st, now))
  {
  }

  /**
   * The limits from the arrivals, for runs of any length: if at each accepted frame at most
   * 2048 groups had one within a group's lifetime, and at most 4096 datagrams of more than one
   * fragment had one within the lifetime of a reassembly, no group is refused and no
   * reassembly evicted.
   */
  lemma LightTrafficFits(t: Trace)
    requires Honest(t) && Steady(t.hs) && LightTraffic(t)
    ensures WithinLimits(t)
  {
    hide Honest, Steady, BusyGroups, BusyDatagrams, IsAccepted, Fits;
    forall i: nat | Accepts(t, i) && WfGroups(t.states[i].groups) && DimensionsOk(t.hs[i].f)
      ensures
        var f, at := t.hs[i].f, t.hs[i].at;
        var st1 := Swept(Heard(t.states[i], f), at.sweep);
        WfGroups(st1.groups) && Fits(t.code, st1, f, at)
    {
      FitsWhenLight(t, i);
    }
  }

  /** Exact delivery with every condition but the clock's told from what was accepted and when. */
  lemma DeliveredInLightTraffic(t: Trace, version: nat, keyId: nat, force: Option<nat>, sent: seq<Event>)
    returns (ids: seq<nat>)
    requires HonestCode(t.code) && |t.ds| < U64_LIMIT && SentBy(t, version, keyId, force, sent)
    requires RunOf(t.code, t.session, t.hs, t.states, t.outs) && NothingForgotten(t.hs)
    requires Steady(t.hs) && LightTraffic(t)
    ensures Delivers(t, ids)
  {
    hide RunOf, HonestCode, SentBy, WithinLimits, Steady, Delivers, Honest, LightTraffic;
    SentIsHonest(t, version, keyId, force, sent);
    LightTrafficFits(t);
    ids := ExactDelivery(t, version, keyId, force, sent);
  }
}
