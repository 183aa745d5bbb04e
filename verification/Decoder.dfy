/**
 * The FEC decoder (src/main.rs, `Decoder`): frames are accepted by sequence number, data
 * shards are delivered at once, missing ones are rebuilt when enough shards of their group
 * are present, and fragments are joined into datagrams.
 */
module FecDecoder {
  import opened Bytes
  import opened Fragments
  import opened Erasure
  import opened Frames
  import opened SequenceWindow
  import opened Ledger
  import opened Reassembly

  const MAX_GROUPS: nat := 2048
  const MAX_REASSEMBLIES: nat := 4096
  /** In nanoseconds. */
  const GROUP_TTL: nat := 2_000_000_000
  const REASSEMBLY_TTL: nat := 3_000_000_000

  datatype Group = Group(created: nat, data: nat, parity: nat, shards: View, delivered: seq<bool>)

  datatype DecoderState = DecoderState(
    session: nat, window: Window, groups: map<nat, Group>, packets: Table)

  datatype DecodeError = SessionMismatch | InvalidFecFrame | TooManyGroups | GroupMismatch | ReconstructFailed

  function InitialDecoder(session: nat): DecoderState {
    DecoderState(session, EMPTY_WINDOW, map[], map[])
  }

  /**
   * The clock readings of one call: at the first prune, when the frame's group is made, when
   * fragment number `i` of the call starts a reassembly, and at the last prune.
   */
  datatype Readings = Readings(sweep: nat, open: nat, place: nat -> nat, close: nat)

  // ----- Reassembly -----

  function PlaceFragment(packets: Table, f: Fragment, now: nat): (Table, seq<seq<byte>>)
    requires f.index < f.count
  {
    var entry := Opened(packets, f.packet, f.count, now);
    if |entry.parts| != f.count then (packets, [])
    else
      var parts := entry.parts[f.index := Some(f.chunk)];
      (Settled(packets, f.packet, entry.(parts := parts)), if AllPresent(parts) then [Join(parts)] else [])
  }

  /** `fragment`. */
  function FragmentStep(packets: Table, shard: seq<byte>, now: nat): (Table, seq<seq<byte>>) {
    match ParseShard(shard)
    case None => (packets, [])
    case Some(f) => PlaceFragment(packets, f, now)
  }

  function FragmentAll(packets: Table, shards: seq<seq<byte>>, place: nat -> nat): (Table, seq<seq<byte>>) {
    if shards == [] then (packets, [])
    else
      var n := |shards| - 1;
      var (p1, out) := FragmentAll(packets, shards[..n], place);
      var (p2, more) := FragmentStep(p1, shards[n], place(n));
      (p2, out + more)
  }

  // ----- Groups -----

  predicate WfGroup(g: Group) {
    g.data >= 1 && |g.shards| == g.data + g.parity && |g.delivered| == g.data
  }

  function NewGroup(data: nat, parity: nat, now: nat): Group {
    Group(now, data, parity, Holes(data + parity), seq(data, i => false))
  }

  /** The payloads of `word` at positions not yet delivered, in order. */
  function Undelivered(word: seq<seq<byte>>, delivered: seq<bool>): seq<seq<byte>>
    requires |delivered| <= |word|
  {
    if delivered == [] then []
    else
      var n := |delivered| - 1;
      Undelivered(word, delivered[..n]) + (if delivered[n] then [] else [word[n]])
  }

  function Filled(word: seq<seq<byte>>): (v: View)
    ensures |v| == |word| && forall i :: 0 <= i < |v| ==> v[i] == Some(word[i])
  {
    seq(|word|, i requires 0 <= i < |word| => Some(word[i]))
  }

  /** The group after the shard itself is stored and, if it is data, delivered. */
  function Stored(g: Group, pos: nat, payload: seq<byte>): (g': Group)
    requires WfGroup(g) && pos < |g.shards|
    ensures WfGroup(g')
  {
    g.(shards := if g.shards[pos].None? then g.shards[pos := Some(payload)] else g.shards,
       delivered := if pos < g.data then g.delivered[pos := true] else g.delivered)
  }

  function Immediate(g: Group, pos: nat, payload: seq<byte>): seq<seq<byte>>
    requires WfGroup(g)
  {
    if pos < g.data && !g.delivered[pos] then [payload] else []
  }

  predicate ShouldRecover(g: Group) {
    g.parity > 0 && |Present(g.shards)| >= g.data && false in g.delivered
  }

  /** One frame of a group: what is delivered, and the group afterwards. */
  function Deliver(code: Code, g: Group, pos: nat, payload: seq<byte>)
    : (r: (Group, Result<seq<seq<byte>>, DecodeError>))
    requires WfGroup(g) && pos < |g.shards|
    ensures WfGroup(r.0) && r.0.data == g.data && r.0.parity == g.parity && r.0.created == g.created
    ensures r.1.Err? ==> r.1.error == ReconstructFailed
  {
    var g1 := Stored(g, pos, payload);
    var now := Immediate(g, pos, payload);
    if !ShouldRecover(g1) then (g1, Ok(now))
    else
      match code.reconstruct(g.data, g.parity, g1.shards)
      case None => (g1, Err(ReconstructFailed))
      case Some(word) =>
        (g1.(shards := Filled(word), delivered := seq(g.data, i => true)), Ok(now + Undelivered(word, g1.delivered)))
  }

  // ----- Frames -----

  predicate CarriesShard(f: Frame) { f.kind == KIND_DATA || f.kind == KIND_PARITY }

  predicate DimensionsOk(f: Frame) {
    && 1 <= f.data <= 32 && f.parity <= 16 && f.index < f.data + f.parity
    && FRAGMENT_HEADER <= |f.payload| <= SHARD
  }

  predicate WfGroups(groups: map<nat, Group>) {
    forall g :: g in groups ==> WfGroup(groups[g])
  }

  /** The part of `frame` between its two prunes. */
  function Absorb(code: Code, st: DecoderState, f: Frame, at: Readings)
    : (r: (DecoderState, Result<seq<seq<byte>>, DecodeError>))
    requires WfGroups(st.groups) && DimensionsOk(f)
    ensures WfGroups(r.0.groups)
  {
    if f.group !in st.groups && |st.groups| >= MAX_GROUPS then (st, Err(TooManyGroups))
    else
      var g := if f.group in st.groups then st.groups[f.group] else NewGroup(f.data, f.parity, at.open);
      if g.data != f.data || g.parity != f.parity then (st, Err(GroupMismatch))
      else
        var (g1, r) := Deliver(code, g, f.index, f.payload);
        var st1 := st.(groups := st.groups[f.group := g1]);
        match r
        case Err(e) => (st1, Err(e))
        case Ok(shards) =>
          var (packets, out) := FragmentAll(st.packets, shards, at.place);
          (st1.(packets := packets), Ok(out))
  }

  // ----- Pruning -----

  ghost predicate SubMap<K, V>(a: map<K, V>, b: map<K, V>) {
    forall k :: k in a ==> k in b && a[k] == b[k]
  }

  function FreshGroups(groups: map<nat, Group>, now: nat): map<nat, Group> {
    map g | g in groups && SaturatingSub(now, groups[g].created) < GROUP_TTL :: groups[g]
  }

  /** What is left when everything past its lifetime is gone. */
  function Swept(st: DecoderState, now: nat): DecoderState {
    st.(groups := FreshGroups(st.groups, now), packets := Young(st.packets, now, REASSEMBLY_TTL))
  }

  /** `prune`: expired entries go, then the oldest reassemblies beyond the limit (ties in any order). */
  ghost predicate Pruned(st: DecoderState, now: nat, st': DecoderState) {
    var young := Swept(st, now).packets;
    && st' == Swept(st, now).(packets := st'.packets)
    && SubMap(st'.packets, young)
    && |st'.packets| == Min(|young|, MAX_REASSEMBLIES)
    && forall kept, gone :: kept in st'.packets && gone in young && gone !in st'.packets ==>
         young[gone].created <= young[kept].created
  }

  /** `frame` in full. */
  ghost predicate FrameMay(code: Code, st: DecoderState, f: Frame, at: Readings,
                           st': DecoderState, r: Result<seq<seq<byte>>, DecodeError>)
    requires WfGroups(st.groups)
  {
    if st.session != f.session then st' == st && r == Err(SessionMismatch)
    else
      var (w, isNew) := Observe(st.window, f.sequence);
      var st0 := st.(window := w);
      if !isNew || !CarriesShard(f) then st' == st0 && r == Ok([])
      else if !DimensionsOk(f) then st' == st0 && r == Err(InvalidFecFrame)
      else exists st1 :: Pruned(st0, at.sweep, st1) && AbsorbMay(code, st1, f, at, st', r)
  }

  /** The rest of `frame` after its first prune. */
  ghost predicate AbsorbMay(code: Code, st: DecoderState, f: Frame, at: Readings,
                            st': DecoderState, r: Result<seq<seq<byte>>, DecodeError>)
    requires WfGroups(st.groups) && DimensionsOk(f)
  {
    var (st2, r2) := Absorb(code, st, f, at);
    r == r2 && if r2.Ok? then Pruned(st2, at.close, st') else st' == st2
  }

  /** Within the reassembly limit a prune removes exactly what is past its lifetime. */
  lemma PruneSweeps(st: DecoderState, now: nat, st': DecoderState)
    requires Pruned(st, now, st') && |Swept(st, now).packets| <= MAX_REASSEMBLIES
    ensures st' == Swept(st, now)
  {
    var young := Swept(st, now).packets;
    assert st'.packets.Keys <= young.Keys && |st'.packets.Keys| == |young.Keys|;
    SubsetSameSize(st'.packets.Keys, young.Keys);
    assert st'.packets == young;
  }

  // ----- The code -----

  method CountPresent(shards: View) returns (present: nat)
    ensures present == |Present(shards)|
  {
    present := 0;
    for i := 0 to |shards|
      invariant present == |Present(shards[..i])|
    {
      PresentSnoc(shards, i);
      if shards[i].Some? { present := present + 1; }
    }
    assert shards[..|shards|] == shards;
  }

  method CollectUndelivered(word: seq<seq<byte>>, delivered: seq<bool>) returns (recovered: seq<seq<byte>>)
    requires |delivered| <= |word|
    ensures recovered == Undelivered(word, delivered)
  {
    recovered := [];
    for i := 0 to |delivered|
      invariant recovered == Undelivered(word, delivered[..i])
    {
      assert delivered[..i + 1][..i] == delivered[..i];
      if !delivered[i] { recovered := recovered + [word[i]]; }
    }
    assert delivered[..|delivered|] == delivered;
  }

  /** What `frame` does to one group: store, deliver, and recover when enough is present. */
  method DeliverShard(code: Code, g: Group, pos: nat, payload: seq<byte>)
    returns (g': Group, r: Result<seq<seq<byte>>, DecodeError>)
    requires WfGroup(g) && pos < |g.shards|
    ensures (g', r) == Deliver(code, g, pos, payload)
  {
    var shards, delivered, output := g.shards, g.delivered, [];
    if shards[pos].None? { shards := shards[pos := Some(payload)]; }
    if pos < g.data && !delivered[pos] {
      delivered := delivered[pos := true];
      output := [payload];
    }
    assert pos < g.data && g.delivered[pos] ==> g.delivered[pos := true] == g.delivered;
    g' := g.(shards := shards, delivered := delivered);
    r := Ok(output);
    var present := CountPresent(shards);
    if g.parity > 0 && present >= g.data && false in delivered {
      var word := code.reconstruct(g.data, g.parity, shards);
      if word.None? { return g', Err(ReconstructFailed); }
      var recovered := CollectUndelivered(word.value, delivered);
      g' := g'.(shards := Filled(word.value), delivered := seq(g.data, i => true));
      r := Ok(output + recovered);
    }
  }

  lemma PresentSnoc(v: View, i: nat)
    requires i < |v|
    ensures |Present(v[..i + 1])| == |Present(v[..i])| + (if v[i].Some? then 1 else 0)
  {
    assert Present(v[..i + 1]) == Present(v[..i]) + (if v[i].Some? then {i} else {});
  }

  class Decoder {
    const code: Code
    const session: nat
    var highestSequence: nat
    var finalizedSequence: nat
    var seenSequences: set<nat>
    var lateSequences: nat
    var duplicateSequences: nat
    var groups: map<nat, Group>
    var packets: Table

    function WindowState(): Window
      reads this
    {
      Window(highestSequence, finalizedSequence, seenSequences, lateSequences, duplicateSequences)
    }

    function State(): DecoderState
      reads this
    {
      DecoderState(session, WindowState(), groups, packets)
    }

    constructor (code: Code, session: nat)
      ensures State() == InitialDecoder(session) && this.code == code
    {
      this.code, this.session := code, session;
      highestSequence, finalizedSequence, seenSequences := 0, 0, {};
      lateSequences, duplicateSequences := 0, 0;
      groups, packets := map[], map[];
    }

    method ObserveSeq(seqno: nat) returns (isNew: bool)
      modifies this`highestSequence, this`finalizedSequence, this`seenSequences
      modifies this`lateSequences, this`duplicateSequences
      ensures (WindowState(), isNew) == Observe(old(WindowState()), seqno)
    {
      if highestSequence == 0 && finalizedSequence == 0 && seenSequences == {} {
        finalizedSequence := SaturatingSub(seqno, 1);
      }
      if seqno <= finalizedSequence {
        lateSequences := SaturatingAdd64(lateSequences, 1);
        return false;
      }
      highestSequence := Max(highestSequence, seqno);
      if seqno in seenSequences {
        duplicateSequences := SaturatingAdd64(duplicateSequences, 1);
        return false;
      }
      seenSequences := seenSequences + {seqno};
      return true;
    }

    method TakeReport() returns (report: Option<SequenceReport>)
      modifies this`finalizedSequence, this`seenSequences, this`lateSequences, this`duplicateSequences
      ensures (WindowState(), report) == Report(old(WindowState()))
    {
      var cutoff := SaturatingSub(highestSequence, REORDER_WINDOW);
      if cutoff <= finalizedSequence { return None; }
      var expected := cutoff - finalizedSequence;
      if expected < MIN_SAMPLE { return None; }
      var received := |UpToCutoff(seenSequences, finalizedSequence, cutoff)|;
      var missing := SaturatingSub(expected, received);
      var gap := missing * MILLION / expected;
      seenSequences := set s | s in seenSequences && s > cutoff;
      finalizedSequence := cutoff;
      report := Some(SequenceReport(expected, received, missing, Min(gap, MILLION), lateSequences, duplicateSequences));
      lateSequences, duplicateSequences := 0, 0;
    }

    method Fragment(shard: seq<byte>, now: nat) returns (out: seq<seq<byte>>)
      modifies this`packets
      ensures (packets, out) == FragmentStep(old(packets), shard, now)
    {
      var parsed := ParseShard(shard);
      if parsed.None? { return []; }
      var f := parsed.value;
      var entry := if f.packet in packets then packets[f.packet] else Partial(now, Holes(f.count));
      if |entry.parts| != f.count { return []; }
      var parts := entry.parts[f.index := Some(f.chunk)];
      if AllPresent(parts) {
        var whole := [];
        for i := 0 to |parts|
          invariant whole == Join(parts[..i])
          invariant packets == old(packets)
        {
          assert parts[..i + 1][..i] == parts[..i];
          whole := whole + parts[i].value;
        }
        assert parts[..|parts|] == parts;
        packets := packets - {f.packet};
        return [whole];
      }
      packets := packets[f.packet := entry.(parts := parts)];
      return [];
    }

    method Prune(now: nat)
      modifies this`groups, this`packets
      ensures Pruned(old(State()), now, State())
    {
      groups := FreshGroups(groups, now);
      packets := Young(packets, now, REASSEMBLY_TTL);
      ghost var young := packets;
      while |packets| > MAX_REASSEMBLIES
        invariant SubMap(packets, young) && groups == FreshGroups(old(groups), now)
        invariant |packets| <= |young|
        invariant packets != young ==> |packets| >= MAX_REASSEMBLIES
        invariant forall kept, gone :: kept in packets && gone in young && gone !in packets ==>
                    young[gone].created <= young[kept].created
        decreases |packets|
      {
        var oldest := Oldest(packets);
        ghost var before := packets;
        packets := packets - {oldest};
        assert packets.Keys == before.Keys - {oldest};
      }
    }

    method FragmentEach(shards: seq<seq<byte>>, place: nat -> nat) returns (output: seq<seq<byte>>)
      modifies this`packets
      ensures (packets, output) == FragmentAll(old(packets), shards, place)
    {
      output := [];
      for i := 0 to |shards|
        invariant (packets, output) == FragmentAll(old(packets), shards[..i], place)
      {
        assert shards[..i + 1][..i] == shards[..i];
        var more := Fragment(shards[i], place(i));
        output := output + more;
      }
      assert shards[..|shards|] == shards;
    }

    method AbsorbFrame(f: Frame, at: Readings) returns (r: Result<seq<seq<byte>>, DecodeError>)
      requires WfGroups(groups) && DimensionsOk(f)
      modifies this`groups, this`packets
      ensures (State(), r) == Absorb(code, old(State()), f, at)
    {
      if f.group !in groups && |groups| >= MAX_GROUPS { return Err(TooManyGroups); }
      var g := if f.group in groups then groups[f.group] else NewGroup(f.data, f.parity, at.open);
      if g.data != f.data || g.parity != f.parity { return Err(GroupMismatch); }
      var g1, delivered := DeliverShard(code, g, f.index, f.payload);
      groups := groups[f.group := g1];
      if delivered.Err? { return Err(delivered.error); }
      var output := FragmentEach(delivered.value, at.place);
      return Ok(output);
    }

    method Frame(f: Frame, at: Readings) returns (r: Result<seq<seq<byte>>, DecodeError>)
      requires WfGroups(groups)
      modifies this
      ensures WfGroups(groups)
      ensures FrameMay(code, old(State()), f, at, State(), r)
    {
      if session != f.session { return Err(SessionMismatch); }
      var isNew := ObserveSeq(f.sequence);
      if !isNew || !CarriesShard(f) { return Ok([]); }
      if !DimensionsOk(f) { return Err(InvalidFecFrame); }
      Prune(at.sweep);
      ghost var st1 := State();
      r := AbsorbFrame(f, at);
      if r.Ok? { Prune(at.close); }
      assert AbsorbMay(code, st1, f, at, State(), r);
    }
  }

  method Oldest(packets: Table) returns (id: nat)
    requires |packets| > 0
    ensures id in packets && forall k :: k in packets ==> packets[id].created <= packets[k].created
  {
    var rest := packets.Keys;
    id :| id in rest;
    rest := rest - {id};
    while rest != {}
      invariant rest <= packets.Keys && id in packets
      invariant forall k :: k in packets && k !in rest ==> packets[id].created <= packets[k].created
      decreases rest
    {
      var k :| k in rest;
      if packets[k].created < packets[id].created { id := k; }
      rest := rest - {k};
    }
  }
}
