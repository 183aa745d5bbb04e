/**
 * The QUIC DATAGRAM carrier (src/quic_relay.rs, `send_carrier` and `CarrierReassembly`): a
 * message is cut to the negotiated datagram size and put together again from any interleaving.
 */
module Carrier {
  import opened Bytes
  import opened Erasure
  import opened Ledger
  import opened Reassembly

  const CARRIER_HEADER: nat := 12
  const MAX_CARRIER_FRAGMENTS: nat := 128
  const MAX_CARRIER_GROUPS: nat := 2048
  const MAX_DATAGRAM: nat := 65_535
  /** In nanoseconds. */
  const CARRIER_TTL: nat := 3_000_000_000
  /** "SFT-Q-PING-1" and "SFT-Q-PONG-1". */
  const CARRIER_PING: seq<byte> := [0x53, 0x46, 0x54, 0x2D, 0x51, 0x2D, 0x50, 0x49, 0x4E, 0x47, 0x2D, 0x31]
  const CARRIER_PONG: seq<byte> := [0x53, 0x46, 0x54, 0x2D, 0x51, 0x2D, 0x50, 0x4F, 0x4E, 0x47, 0x2D, 0x31]

  datatype CarrierError =
    | NoDatagrams | DatagramTooSmall | TooManyFragments | SendFailed
    | ShortFragment | InvalidDimensions | LimitReached | InconsistentCount | MessageTooLarge

  // ----- Sending -----

  /** `payload.chunks(chunk)`, with one empty part for the empty payload. */
  function Cut(payload: seq<byte>, chunk: nat): seq<seq<byte>>
    requires chunk >= 1
    decreases |payload|
  {
    if |payload| <= chunk then [payload] else [payload[..chunk]] + Cut(payload[chunk..], chunk)
  }

  function FrameBytes(message: nat, index: nat, count: nat, part: seq<byte>): seq<byte> {
    BE(message, 8) + BE(index, 2) + BE(count, 2) + part
  }

  function FramesOf(message: nat, parts: seq<seq<byte>>): (fs: seq<seq<byte>>)
    ensures |fs| == |parts|
  {
    seq(|parts|, i requires 0 <= i < |parts| => FrameBytes(message, i, |parts|, parts[i]))
  }

  /** What a send leaves: the message counter, the frames put on the connection, and its result. */
  datatype Sending = Sending(message: nat, frames: seq<seq<byte>>, result: Result<(), CarrierError>)

  /** `send_carrier` on a connection that takes `taken` more datagrams before it fails. */
  function SendStep(maximum: Option<nat>, payload: seq<byte>, taken: nat, message: nat): Sending {
    if maximum.None? then Sending(message, [], Err(NoDatagrams))
    else if maximum.value <= CARRIER_HEADER then Sending(message, [], Err(DatagramTooSmall))
    else
      var parts := Cut(payload, maximum.value - CARRIER_HEADER);
      if |parts| > MAX_CARRIER_FRAGMENTS then Sending(message, [], Err(TooManyFragments))
      else
        var id := (message + 1) % 0x1_0000_0000_0000_0000;
        var frames := FramesOf(id, parts);
        if taken < |frames| then Sending(id, frames[..taken], Err(SendFailed)) else Sending(id, frames, Ok(()))
  }

  /** `div_ceil` as the number of chunks that reach length `n`. */
  lemma {:induction false} CutCount(payload: seq<byte>, chunk: nat)
    requires chunk >= 1
    ensures (|Cut(payload, chunk)| - 1) * chunk < Max(|payload|, 1) <= |Cut(payload, chunk)| * chunk
    ensures forall i :: 0 <= i < |Cut(payload, chunk)| ==> |Cut(payload, chunk)[i]| <= chunk
    decreases |payload|
  {
    if |payload| > chunk {
      CutCount(payload[chunk..], chunk);
      var n := |Cut(payload[chunk..], chunk)|;
      assert (n + 1) * chunk == n * chunk + chunk && (n - 1) * chunk == n * chunk - chunk;
    }
  }

  lemma {:induction false} CutRejoins(payload: seq<byte>, chunk: nat)
    requires chunk >= 1
    ensures Concat(Cut(payload, chunk)) == payload
    decreases |payload|
  {
    if |payload| <= chunk {
      assert Concat([payload]) == payload + Concat([]);
    } else {
      var cs := Cut(payload, chunk);
      CutRejoins(payload[chunk..], chunk);
      assert cs[1..] == Cut(payload[chunk..], chunk);
      assert payload == payload[..chunk] + payload[chunk..];
    }
  }

  class Sender {
    var message: nat

    constructor ()
      ensures message == 0
    {
      message := 0;
    }

    method Send(maximum: Option<nat>, payload: seq<byte>, taken: nat)
      returns (frames: seq<seq<byte>>, r: Result<(), CarrierError>)
      modifies this
      ensures Sending(message, frames, r) == SendStep(maximum, payload, taken, old(message))
    {
      frames := [];
      if maximum.None? { return frames, Err(NoDatagrams); }
      if maximum.value <= CARRIER_HEADER { return frames, Err(DatagramTooSmall); }
      var parts := Cut(payload, maximum.value - CARRIER_HEADER);
      var count := |parts|;
      if count > MAX_CARRIER_FRAGMENTS { return frames, Err(TooManyFragments); }
      message := (message + 1) % 0x1_0000_0000_0000_0000;
      for index := 0 to count
        invariant index <= taken && frames == FramesOf(message, parts)[..index]
      {
        if index == taken { return frames, Err(SendFailed); }
        frames := frames + [BE(message, 8) + BE(index, 2) + BE(count, 2) + parts[index]];
      }
      assert frames == FramesOf(message, parts);
      return frames, Ok(());
    }
  }

  // ----- Receiving -----

  /** The groups at most three seconds old; the clock counts whole nanoseconds. */
  function Unexpired(groups: Table, now: nat): Table {
    Young(groups, now, CARRIER_TTL + 1)
  }

  function TotalLength(parts: View): nat
    requires AllPresent(parts)
  {
    if parts == [] then 0 else TotalLength(parts[..|parts| - 1]) + |parts[|parts| - 1].value|
  }

  /** What `push` does with a part once its header is read and expired groups are gone. */
  function Place(groups: Table, id: nat, index: nat, count: nat, part: seq<byte>, now: nat)
    : (Table, Result<Option<seq<byte>>, CarrierError>)
    requires index < count
  {
    if id !in groups && |groups| >= MAX_CARRIER_GROUPS then (groups, Err(LimitReached))
    else
      var g := Opened(groups, id, count, now);
      if |g.parts| != count then (groups, Err(InconsistentCount))
      else
        var parts := if g.parts[index].None? then g.parts[index := Some(part)] else g.parts;
        var groups' := Settled(groups, id, g.(parts := parts));
        if !AllPresent(parts) then (groups', Ok(None))
        else if TotalLength(parts) > MAX_DATAGRAM then (groups', Err(MessageTooLarge))
        else (groups', Ok(Some(Join(parts))))
  }

  /** `push`. */
  function PushStep(groups: Table, frame: seq<byte>, now: nat): (Table, Result<Option<seq<byte>>, CarrierError>) {
    if |frame| < CARRIER_HEADER then (groups, Err(ShortFragment))
    else
      var id, index, count := Val(frame[..8]), Val(frame[8..10]), Val(frame[10..12]);
      if count == 0 || count > MAX_CARRIER_FRAGMENTS || index >= count then (groups, Err(InvalidDimensions))
      else Place(Unexpired(groups, now), id, index, count, frame[CARRIER_HEADER..], now)
  }

  method Reassemble(parts: View) returns (total: nat, payload: seq<byte>)
    requires AllPresent(parts)
    ensures total == TotalLength(parts) && payload == Join(parts)
  {
    total, payload := 0, [];
    for i := 0 to |parts|
      invariant total == TotalLength(parts[..i]) && payload == Join(parts[..i])
    {
      assert parts[..i + 1][..i] == parts[..i];
      total, payload := total + |parts[i].value|, payload + parts[i].value;
    }
    assert parts[..|parts|] == parts;
  }

  class CarrierReassembly {
    var groups: Table

    constructor ()
      ensures groups == map[]
    {
      groups := map[];
    }

    method Push(frame: seq<byte>, now: nat) returns (r: Result<Option<seq<byte>>, CarrierError>)
      modifies this
      ensures (groups, r) == PushStep(old(groups), frame, now)
    {
      if |frame| < CARRIER_HEADER { return Err(ShortFragment); }
      var id, index, count := Val(frame[..8]), Val(frame[8..10]), Val(frame[10..12]);
      if count == 0 || count > MAX_CARRIER_FRAGMENTS || index >= count { return Err(InvalidDimensions); }
      groups := Unexpired(groups, now);
      if id !in groups && |groups| >= MAX_CARRIER_GROUPS { return Err(LimitReached); }
      var g := Opened(groups, id, count, now);
      if |g.parts| != count { return Err(InconsistentCount); }
      var parts := g.parts;
      if parts[index].None? { parts := parts[index := Some(frame[CARRIER_HEADER..])]; }
      if !AllPresent(parts) {
        groups := groups[id := g.(parts := parts)];
        return Ok(None);
      }
      groups := groups - {id};
      var total, payload := Reassemble(parts);
      if total > MAX_DATAGRAM { return Err(MessageTooLarge); }
      return Ok(Some(payload));
    }
  }

  // ----- At rest, whatever arrives -----

  ghost predicate Resting(g: Partial) {
    1 <= |g.parts| <= MAX_CARRIER_FRAGMENTS && !AllPresent(g.parts)
  }

  ghost predicate AtRest(groups: Table) {
    |groups| <= MAX_CARRIER_GROUPS && forall id :: id in groups ==> Resting(groups[id])
  }

  lemma UnexpiredFewer(groups: Table, now: nat)
    ensures |Unexpired(groups, now)| <= |groups|
  {
    assert Unexpired(groups, now).Keys <= groups.Keys;
    SubsetSize(Unexpired(groups, now).Keys, groups.Keys);
  }

  lemma PlaceKeys(groups: Table, id: nat, index: nat, count: nat, part: seq<byte>, now: nat)
    requires index < count
    ensures
      var keys := Place(groups, id, index, count, part, now).0.Keys;
      || keys == groups.Keys
      || keys == groups.Keys - {id}
      || (id !in groups && |groups| < MAX_CARRIER_GROUPS && keys == groups.Keys + {id})
  {
    hide TotalLength, Join, AllPresent;
  }

  lemma PlaceResting(groups: Table, id: nat, index: nat, count: nat, part: seq<byte>, now: nat, x: nat)
    requires AtRest(groups) && index < count <= MAX_CARRIER_FRAGMENTS
    ensures
      var groups' := Place(groups, id, index, count, part, now).0;
      x in groups' ==> Resting(groups'[x])
  {
    hide TotalLength, Join, AllPresent;
    assert id in groups ==> Resting(groups[id]);
  }

  lemma PlaceKeepsRest(groups: Table, id: nat, index: nat, count: nat, part: seq<byte>, now: nat)
    requires AtRest(groups) && index < count <= MAX_CARRIER_FRAGMENTS
    ensures AtRest(Place(groups, id, index, count, part, now).0)
  {
    hide Place, Resting;
    var groups' := Place(groups, id, index, count, part, now).0;
    PlaceKeys(groups, id, index, count, part, now);
    assert |groups'.Keys| == |groups'| && |groups.Keys| == |groups|;
    forall x | x in groups' ensures Resting(groups'[x]) {
      PlaceResting(groups, id, index, count, part, now, x);
    }
  }

  /** Any bytes at all leave at most 2048 groups, each incomplete with 1 to 128 slots. */
  lemma PushKeepsRest(groups: Table, frame: seq<byte>, now: nat)
    requires AtRest(groups)
    ensures AtRest(PushStep(groups, frame, now).0)
  {
    hide Place, AllPresent, Val;
    UnexpiredFewer(groups, now);
    if |frame| >= CARRIER_HEADER {
      var id, index, count := Val(frame[..8]), Val(frame[8..10]), Val(frame[10..12]);
      if index < count <= MAX_CARRIER_FRAGMENTS {
        PlaceKeepsRest(Unexpired(groups, now), id, index, count, frame[CARRIER_HEADER..], now);
      }
    }
  }

  // ----- A run of sends -----

  /** The parts of each message sent, by message number. */
  type Messages = map<nat, seq<seq<byte>>>

  ghost predicate Sendable(ms: Messages) {
    forall id :: id in ms ==> id < U64_LIMIT && 1 <= |ms[id]| <= MAX_CARRIER_FRAGMENTS
  }

  ghost function FrameOf(ms: Messages, p: Part): seq<byte>
    requires p.id in ms && p.index < |ms[p.id]|
  {
    FrameBytes(p.id, p.index, |ms[p.id]|, ms[p.id][p.index])
  }

  datatype Request = Request(maximum: Option<nat>, payload: seq<byte>, taken: nat)

  /** A run of sends: the counter, the parts and payload of each message begun, and every frame sent. */
  datatype Outbox = Outbox(
    message: nat, sent: seq<seq<seq<byte>>>, payloads: seq<seq<byte>>, wire: seq<seq<byte>>)

  ghost predicate Begun(s: Sending) { s.result.Ok? || s.result.error == SendFailed }

  ghost function SendOne(o: Outbox, q: Request): Outbox {
    var s := SendStep(q.maximum, q.payload, q.taken, o.message);
    if !Begun(s) then o
    else
      Outbox(s.message, o.sent + [Cut(q.payload, SaturatingSub(q.maximum.value, CARRIER_HEADER))],
             o.payloads + [q.payload], o.wire + s.frames)
  }

  ghost function SendAll(requests: seq<Request>): Outbox {
    if requests == [] then Outbox(0, [], [], [])
    else SendOne(SendAll(requests[..|requests| - 1]), requests[|requests| - 1])
  }

  ghost function FromOne(n: nat): (s: set<nat>)
    ensures forall id: nat :: id in s <==> 1 <= id <= n
  {
    UpTo(n + 1) - {0}
  }

  /** The messages begun, numbered from 1. */
  ghost function Numbered(sent: seq<seq<seq<byte>>>): Messages {
    map id | id in FromOne(|sent|) :: sent[id - 1]
  }

  /** One send that gets as far as the connection: the frames of a new message, or the first of them. */
  lemma SentIsMessage(maximum: Option<nat>, payload: seq<byte>, taken: nat, message: nat)
    requires Begun(SendStep(maximum, payload, taken, message))
    ensures
      var s := SendStep(maximum, payload, taken, message);
      (message + 1 < U64_LIMIT ==> s.message == message + 1) && s.message < U64_LIMIT &&
      maximum.Some? && maximum.value > CARRIER_HEADER &&
      var parts := Cut(payload, maximum.value - CARRIER_HEADER);
      && 1 <= |parts| <= MAX_CARRIER_FRAGMENTS && Concat(parts) == payload
      && s.frames <= FramesOf(s.message, parts) && (s.result.Ok? <==> |s.frames| == |parts|)
      && forall i :: 0 <= i < |s.frames| ==> |s.frames[i]| <= maximum.value
  {
    hide Cut, Concat, BE;
    CutCount(payload, maximum.value - CARRIER_HEADER);
    CutRejoins(payload, maximum.value - CARRIER_HEADER);
  }

  ghost predicate OnWire(ms: Messages, frame: seq<byte>) {
    exists p: Part :: p.id in ms && p.index < |ms[p.id]| && frame == FrameOf(ms, p)
  }

  /** Each message joins to its payload. */
  ghost predicate Joins(sent: seq<seq<seq<byte>>>, payloads: seq<seq<byte>>) {
    |sent| == |payloads| &&
    forall i :: 0 <= i < |sent| ==> 1 <= |sent[i]| <= MAX_CARRIER_FRAGMENTS && Concat(sent[i]) == payloads[i]
  }

  ghost predicate AllOnWire(sent: seq<seq<seq<byte>>>, wire: seq<seq<byte>>) {
    forall i :: 0 <= i < |wire| ==> OnWire(Numbered(sent), wire[i])
  }

  /** ... and nothing but parts of messages is on the wire. */
  ghost predicate Proper(o: Outbox) {
    o.message == |o.sent| && Joins(o.sent, o.payloads) && AllOnWire(o.sent, o.wire)
  }

  lemma WireGrows(sent: seq<seq<seq<byte>>>, parts: seq<seq<byte>>, frame: seq<byte>)
    requires OnWire(Numbered(sent), frame)
    ensures OnWire(Numbered(sent + [parts]), frame)
  {
    hide FrameBytes;
    var ms, ms' := Numbered(sent), Numbered(sent + [parts]);
    var p: Part :| p.id in ms && p.index < |ms[p.id]| && frame == FrameOf(ms, p);
    assert frame == FrameOf(ms', p);
  }

  lemma WireNext(sent: seq<seq<seq<byte>>>, parts: seq<seq<byte>>, index: nat)
    requires index < |parts|
    ensures OnWire(Numbered(sent + [parts]), FramesOf(|sent| + 1, parts)[index])
  {
    hide FrameBytes;
    assert FramesOf(|sent| + 1, parts)[index] == FrameOf(Numbered(sent + [parts]), Part(|sent| + 1, index));
  }

  lemma AllWireNext(sent: seq<seq<seq<byte>>>, parts: seq<seq<byte>>, wire: seq<seq<byte>>, frames: seq<seq<byte>>)
    requires AllOnWire(sent, wire) && frames <= FramesOf(|sent| + 1, parts)
    ensures AllOnWire(sent + [parts], wire + frames)
  {
    hide OnWire, Numbered, FrameBytes;
    var more := wire + frames;
    forall i | 0 <= i < |more| ensures OnWire(Numbered(sent + [parts]), more[i]) {
      if i < |wire| {
        WireGrows(sent, parts, wire[i]);
      } else {
        WireNext(sent, parts, i - |wire|);
      }
    }
  }

  lemma JoinsNext(sent: seq<seq<seq<byte>>>, payloads: seq<seq<byte>>, parts: seq<seq<byte>>, payload: seq<byte>)
    requires Joins(sent, payloads) && 1 <= |parts| <= MAX_CARRIER_FRAGMENTS && Concat(parts) == payload
    ensures Joins(sent + [parts], payloads + [payload])
  {
    hide Concat;
  }

  lemma ProperNext(o: Outbox, parts: seq<seq<byte>>, payload: seq<byte>, frames: seq<seq<byte>>)
    requires Proper(o) && 1 <= |parts| <= MAX_CARRIER_FRAGMENTS && Concat(parts) == payload
    requires frames <= FramesOf(o.message + 1, parts)
    ensures Proper(Outbox(o.message + 1, o.sent + [parts], o.payloads + [payload], o.wire + frames))
  {
    hide Joins, AllOnWire, FramesOf, Concat;
    JoinsNext(o.sent, o.payloads, parts, payload);
    AllWireNext(o.sent, parts, o.wire, frames);
  }

  /**
   * Fewer than 2^64 sends, failed ones included: messages are numbered from 1 in order, each
   * number belongs to one payload, and every frame on the wire is a part of one of them.
   */
  lemma SendsAreMessages(requests: seq<Request>)
    requires |requests| < U64_LIMIT
    ensures Proper(SendAll(requests)) && Sendable(Numbered(SendAll(requests).sent))
  {
    hide Concat, OnWire, SendAll;
    SendsProper(requests);
  }

  lemma SendProper(o: Outbox, q: Request)
    requires Proper(o) && o.message + 1 < U64_LIMIT
    ensures Proper(SendOne(o, q)) && SendOne(o, q).message <= o.message + 1
  {
    hide Cut, FramesOf, Proper, SendStep;
    var s := SendStep(q.maximum, q.payload, q.taken, o.message);
    if Begun(s) {
      SentIsMessage(q.maximum, q.payload, q.taken, o.message);
      ProperNext(o, Cut(q.payload, q.maximum.value - CARRIER_HEADER), q.payload, s.frames);
    }
  }

  lemma {:induction false} SendsProper(requests: seq<Request>)
    requires |requests| < U64_LIMIT
    ensures Proper(SendAll(requests)) && SendAll(requests).message <= |requests|
  {
    if requests != [] {
      hide SendOne, Proper;
      SendsProper(requests[..|requests| - 1]);
      SendProper(SendAll(requests[..|requests| - 1]), requests[|requests| - 1]);
    }
  }

  // ----- Round trip -----

  ghost function WordsOf(ms: Messages): Words {
    (id: nat) => if id in ms then ms[id] else []
  }

  lemma FrameReads(id: nat, index: nat, count: nat, part: seq<byte>)
    requires id < U64_LIMIT && index < count <= MAX_CARRIER_FRAGMENTS
    ensures
      var f := FrameBytes(id, index, count, part);
      && |f| >= CARRIER_HEADER && Val(f[..8]) == id && Val(f[8..10]) == index && Val(f[10..12]) == count
      && f[CARRIER_HEADER..] == part
  {
    var f := FrameBytes(id, index, count, part);
    assert f[..8] == BE(id, 8) && f[8..10] == BE(index, 2) && f[10..12] == BE(count, 2);
    ValBE64(id);
    ValBE16(index);
    ValBE16(count);
  }

  /** A heartbeat is never mistaken for a fragment, nor a fragment for a heartbeat. */
  lemma HeartbeatsAreApart(groups: Table, now: nat, id: nat, index: nat, count: nat, part: seq<byte>)
    requires id < U64_LIMIT && index < count <= MAX_CARRIER_FRAGMENTS
    ensures PushStep(groups, CARRIER_PING, now) == (groups, Err(InvalidDimensions))
    ensures PushStep(groups, CARRIER_PONG, now) == (groups, Err(InvalidDimensions))
    ensures FrameBytes(id, index, count, part) != CARRIER_PING
    ensures FrameBytes(id, index, count, part) != CARRIER_PONG
  {
    FrameReads(id, index, count, part);
    assert CARRIER_PING[10..12] == [0x2D, 0x31] && CARRIER_PONG[10..12] == [0x2D, 0x31];
    assert [0x2D, 0x31][..1] == [0x2D];
    assert Val([0x2D]) == 0x2D;
    assert Val([0x2D, 0x31]) == 256 * 0x2D + 0x31;
  }

  lemma {:induction false} TotalIsLength(parts: View)
    requires AllPresent(parts)
    ensures TotalLength(parts) == |Join(parts)|
  {
    if parts != [] { TotalIsLength(parts[..|parts| - 1]); }
  }

  /** What a completed message gives. */
  ghost function Whole(word: seq<seq<byte>>): Result<Option<seq<byte>>, CarrierError> {
    if |Concat(word)| > MAX_DATAGRAM then Err(MessageTooLarge) else Ok(Some(Concat(word)))
  }

  /** The table is what the ledger says. */
  ghost predicate Kept(ms: Messages, groups: Table, log: seq<Mark>) {
    AllKept(WordsOf(ms), groups, log, CARRIER_TTL + 1)
  }

  /** What part `p` at `now` should give after `log`. */
  ghost function Due(ms: Messages, log: seq<Mark>, p: Part, now: nat): Result<Option<seq<byte>>, CarrierError>
    requires p.id in ms
  {
    if Completes(log + [Sweep(now)], Put(p, now), |ms[p.id]|, CARRIER_TTL + 1) then Whole(ms[p.id]) else Ok(None)
  }

  lemma SameSlot(parts: View, word: seq<seq<byte>>, index: nat)
    requires Agrees(parts, word) && index < |word|
    ensures (if parts[index].None? then parts[index := Some(word[index])] else parts) ==
      parts[index := Some(word[index])]
  {
  }

  /** One part: what `Place` returns and leaves, in the ledger's words. */
  lemma PlaceKept(ms: Messages, groups: Table, log: seq<Mark>, p: Part, now: nat)
    requires Sendable(ms) && Kept(ms, groups, log) && p.id in ms && p.index < |ms[p.id]|
    requires Place(groups, p.id, p.index, |ms[p.id]|, ms[p.id][p.index], now).1 != Err(LimitReached)
    ensures
      var (groups', r) := Place(groups, p.id, p.index, |ms[p.id]|, ms[p.id][p.index], now);
      && Kept(ms, groups', log + [Put(p, now)])
      && r == if Completes(log, Put(p, now), |ms[p.id]|, CARRIER_TTL + 1) then Whole(ms[p.id]) else Ok(None)
  {
    hide AllKept, Join, TotalLength, Concat, AllPresent, Completes, Agrees, PartsMatch, Account;
    var word := ms[p.id];
    PutKept(WordsOf(ms), groups, log, CARRIER_TTL + 1, p.id, p.index, now);
    OpenedIs(WordsOf(ms), groups, log, CARRIER_TTL + 1, p.id, p.index, now);
    var g := Opened(groups, p.id, |word|, now);
    SameSlot(g.parts, word, p.index);
    var parts := g.parts[p.index := Some(word[p.index])];
    if AllPresent(parts) { TotalIsLength(parts); }
  }

  /** One push of a part of a known message. */
  lemma PushKept(ms: Messages, groups: Table, log: seq<Mark>, p: Part, now: nat)
    requires Sendable(ms) && Kept(ms, groups, log) && p.id in ms && p.index < |ms[p.id]|
    requires PushStep(groups, FrameOf(ms, p), now).1 != Err(LimitReached)
    ensures
      var (groups', r) := PushStep(groups, FrameOf(ms, p), now);
      Kept(ms, groups', log + [Sweep(now)] + [Put(p, now)]) && r == Due(ms, log, p, now)
  {
    hide AllKept, FrameBytes, Completes, Place;
    FrameReads(p.id, p.index, |ms[p.id]|, ms[p.id][p.index]);
    SweepKept(WordsOf(ms), groups, log, CARRIER_TTL + 1, now);
    PlaceKept(ms, Unexpired(groups, now), log + [Sweep(now)], p, now);
  }

  /** A part already held changes nothing but for the sweep every push makes. */
  lemma DuplicateChangesNothing(ms: Messages, groups: Table, log: seq<Mark>, p: Part, now: nat)
    requires Sendable(ms) && Kept(ms, groups, log) && p.id in ms && p.index < |ms[p.id]|
    requires p.index in Gathered(Account(log + [Sweep(now)], p.id, |ms[p.id]|, CARRIER_TTL + 1))
    ensures PushStep(groups, FrameOf(ms, p), now) == (Unexpired(groups, now), Ok(None))
  {
    hide FrameBytes, Account, Join, TotalLength, UpTo;
    var n, swept, log' := |ms[p.id]|, Unexpired(groups, now), log + [Sweep(now)];
    FrameReads(p.id, p.index, n, ms[p.id][p.index]);
    SweepKept(WordsOf(ms), groups, log, CARRIER_TTL + 1, now);
    assert Reassembly.Kept(WordsOf(ms), swept, log', CARRIER_TTL + 1, p.id);
    GatheredInRange(log', p.id, Sizes(WordsOf(ms)), CARRIER_TTL + 1);
    FullIffAllPresent(swept[p.id].parts, Gathered(Account(log', p.id, n, CARRIER_TTL + 1)), n);
    assert swept[p.id := swept[p.id]] == swept;
  }

  // ----- Runs -----

  datatype Arrival = Arrival(part: Part, now: nat)

  datatype Reception = Reception(groups: Table, results: seq<Result<Option<seq<byte>>, CarrierError>>)

  ghost predicate OfMessages(ms: Messages, arrivals: seq<Arrival>) {
    forall i :: 0 <= i < |arrivals| ==>
      arrivals[i].part.id in ms && arrivals[i].part.index < |ms[arrivals[i].part.id]|
  }

  ghost function Run(ms: Messages, arrivals: seq<Arrival>): (r: Reception)
    requires OfMessages(ms, arrivals)
    ensures |r.results| == |arrivals|
  {
    if arrivals == [] then Reception(map[], [])
    else
      var r, a := Run(ms, arrivals[..|arrivals| - 1]), arrivals[|arrivals| - 1];
      var (groups, result) := PushStep(r.groups, FrameOf(ms, a.part), a.now);
      Reception(groups, r.results + [result])
  }

  /** The ledger of a run: each push sweeps, then puts its part in place. */
  ghost function LogOf(arrivals: seq<Arrival>): seq<Mark> {
    if arrivals == [] then []
    else
      var a := arrivals[|arrivals| - 1];
      LogOf(arrivals[..|arrivals| - 1]) + [Sweep(a.now)] + [Put(a.part, a.now)]
  }

  ghost predicate NoneRefused(ms: Messages, arrivals: seq<Arrival>)
    requires OfMessages(ms, arrivals)
  {
    Err(LimitReached) !in Run(ms, arrivals).results
  }

  /** Arrival `i` returns what is due. */
  ghost predicate AsDue(ms: Messages, arrivals: seq<Arrival>, i: nat)
    requires OfMessages(ms, arrivals) && i < |arrivals|
  {
    Run(ms, arrivals).results[i] == Due(ms, LogOf(arrivals[..i]), arrivals[i].part, arrivals[i].now)
  }

  lemma AsDueStays(ms: Messages, arrivals: seq<Arrival>, i: nat)
    requires OfMessages(ms, arrivals) && i + 1 < |arrivals| && AsDue(ms, arrivals[..|arrivals| - 1], i)
    ensures AsDue(ms, arrivals, i)
  {
    hide Due, PushStep, LogOf;
    assert arrivals[..|arrivals| - 1][..i] == arrivals[..i];
  }

  lemma AsDueLast(ms: Messages, arrivals: seq<Arrival>)
    requires Sendable(ms) && OfMessages(ms, arrivals) && arrivals != [] && NoneRefused(ms, arrivals)
    requires
      var init := arrivals[..|arrivals| - 1];
      Kept(ms, Run(ms, init).groups, LogOf(init))
    ensures AsDue(ms, arrivals, |arrivals| - 1) && Kept(ms, Run(ms, arrivals).groups, LogOf(arrivals))
  {
    hide Kept, Due, PushStep, Run, LogOf, NoneRefused;
    var init, a := arrivals[..|arrivals| - 1], arrivals[|arrivals| - 1];
    RunSnoc(ms, arrivals);
    PushKept(ms, Run(ms, init).groups, LogOf(init), a.part, a.now);
  }

  lemma {:induction false} RunKept(ms: Messages, arrivals: seq<Arrival>)
    requires Sendable(ms) && OfMessages(ms, arrivals) && NoneRefused(ms, arrivals)
    ensures Kept(ms, Run(ms, arrivals).groups, LogOf(arrivals))
  {
    hide Kept, AsDue, Run, LogOf, NoneRefused, Sendable;
    if arrivals == [] {
      NothingIsKept(ms);
    } else {
      RunSnoc(ms, arrivals);
      RunKept(ms, arrivals[..|arrivals| - 1]);
      AsDueLast(ms, arrivals);
    }
  }

  lemma {:induction false} RunAsDue(ms: Messages, arrivals: seq<Arrival>, i: nat)
    requires Sendable(ms) && OfMessages(ms, arrivals) && NoneRefused(ms, arrivals) && i < |arrivals|
    ensures AsDue(ms, arrivals, i)
  {
    hide Kept, AsDue, Run, LogOf, NoneRefused;
    RunSnoc(ms, arrivals);
    if i == |arrivals| - 1 {
      RunKept(ms, arrivals[..i]);
      AsDueLast(ms, arrivals);
    } else {
      RunAsDue(ms, arrivals[..|arrivals| - 1], i);
      AsDueStays(ms, arrivals, i);
    }
  }

  /**
   * Round trip: the parts of any number of messages, interleaved, repeated and delayed in any
   * way, with no refusal at the group limit. Each arrival returns its message's payload exactly
   * when it is the last part still missing since the message was last complete or expired.
   */
  lemma RoundTrip(ms: Messages, arrivals: seq<Arrival>)
    requires Sendable(ms) && OfMessages(ms, arrivals) && NoneRefused(ms, arrivals)
    ensures Kept(ms, Run(ms, arrivals).groups, LogOf(arrivals))
    ensures forall i :: 0 <= i < |arrivals| ==> AsDue(ms, arrivals, i)
  {
    hide Kept, AsDue, Run, LogOf, NoneRefused;
    RunKept(ms, arrivals);
    forall i | 0 <= i < |arrivals| ensures AsDue(ms, arrivals, i) { RunAsDue(ms, arrivals, i); }
  }

  lemma RunSnoc(ms: Messages, arrivals: seq<Arrival>)
    requires OfMessages(ms, arrivals) && arrivals != []
    ensures
      var init, a := arrivals[..|arrivals| - 1], arrivals[|arrivals| - 1];
      var (groups, result) := PushStep(Run(ms, init).groups, FrameOf(ms, a.part), a.now);
      && Run(ms, arrivals) == Reception(groups, Run(ms, init).results + [result])
      && (NoneRefused(ms, arrivals) ==> NoneRefused(ms, init) && result != Err(LimitReached))
      && LogOf(arrivals) == LogOf(init) + [Sweep(a.now)] + [Put(a.part, a.now)]
  {
    hide PushStep;
    var init := arrivals[..|arrivals| - 1];
    var r, r' := Run(ms, init).results, Run(ms, arrivals).results;
    assert r'[|init|] in r' && forall x :: x in r ==> x in r';
  }

  lemma NothingIsKept(ms: Messages)
    ensures Kept(ms, Run(ms, []).groups, LogOf([]))
  {
    hide AllKept;
    NothingKept(WordsOf(ms), CARRIER_TTL + 1);
  }

  // ----- When no part is refused -----

  /** Arrival `k` may have left a group in the table that is still there at `now`. */
  ghost predicate Leaves(ms: Messages, arrivals: seq<Arrival>, k: int, now: nat)
    requires OfMessages(ms, arrivals)
  {
    0 <= k < |arrivals| && |ms[arrivals[k].part.id]| >= 2 && now <= arrivals[k].now + CARRIER_TTL
  }

  /** The message of arrival `i`, and those of more than one part that came within the lifetime before it. */
  ghost function Busy(ms: Messages, arrivals: seq<Arrival>, i: nat): set<nat>
    requires OfMessages(ms, arrivals) && i < |arrivals|
  {
    {arrivals[i].part.id} +
    set k | 0 <= k < i && Leaves(ms, arrivals, k, arrivals[i].now) :: arrivals[k].part.id
  }

  /** Each group has room for more than one part, and was made by an arrival of its message. */
  ghost predicate MadeBy(ms: Messages, arrivals: seq<Arrival>, id: nat, g: Partial)
    requires OfMessages(ms, arrivals)
  {
    exists k :: 0 <= k < |arrivals| && arrivals[k].part.id == id && arrivals[k].now == g.created && |ms[id]| >= 2
  }

  ghost predicate AllMade(ms: Messages, arrivals: seq<Arrival>, groups: Table)
    requires OfMessages(ms, arrivals)
  {
    forall id :: id in groups ==>
      |groups[id].parts| == (if id in ms then |ms[id]| else 0) && MadeBy(ms, arrivals, id, groups[id])
  }

  lemma MadeByStays(ms: Messages, arrivals: seq<Arrival>, id: nat, g: Partial)
    requires OfMessages(ms, arrivals) && arrivals != [] && MadeBy(ms, arrivals[..|arrivals| - 1], id, g)
    ensures MadeBy(ms, arrivals, id, g)
  {
    var init := arrivals[..|arrivals| - 1];
    var k :| 0 <= k < |init| && init[k].part.id == id && init[k].now == g.created && |ms[id]| >= 2;
    assert arrivals[k] == init[k];
  }

  /** A push leaves groups that were there, or one it made for a message of more than one part. */
  lemma PlaceMakes(groups: Table, id: nat, index: nat, count: nat, part: seq<byte>, now: nat, x: nat)
    requires index < count
    requires id in groups ==> |groups[id].parts| == count
    ensures
      var groups' := Place(groups, id, index, count, part, now).0;
      x in groups' ==>
        if x in groups then groups'[x].created == groups[x].created && |groups'[x].parts| == |groups[x].parts|
        else x == id && groups'[x].created == now && |groups'[x].parts| == count >= 2
  {
    hide TotalLength, Join;
  }

  lemma PushMakes(ms: Messages, arrivals: seq<Arrival>, groups: Table)
    requires Sendable(ms) && OfMessages(ms, arrivals) && arrivals != []
    requires AllMade(ms, arrivals[..|arrivals| - 1], groups)
    ensures
      var a := arrivals[|arrivals| - 1];
      AllMade(ms, arrivals, PushStep(groups, FrameOf(ms, a.part), a.now).0)
  {
    hide Place, FrameBytes, MadeBy;
    var a := arrivals[|arrivals| - 1];
    var word := ms[a.part.id];
    FrameReads(a.part.id, a.part.index, |word|, word[a.part.index]);
    var swept := Unexpired(groups, a.now);
    var groups' := Place(swept, a.part.id, a.part.index, |word|, word[a.part.index], a.now).0;
    forall x | x in groups'
      ensures |groups'[x].parts| == (if x in ms then |ms[x]| else 0) && MadeBy(ms, arrivals, x, groups'[x])
    {
      PlaceMakes(swept, a.part.id, a.part.index, |word|, word[a.part.index], a.now, x);
      if x in swept {
        MadeByStays(ms, arrivals, x, groups[x]);
        MadeBySame(ms, arrivals, x, groups[x], groups'[x]);
      } else {
        MadeNow(ms, arrivals, groups'[x]);
      }
    }
  }

  lemma MadeBySame(ms: Messages, arrivals: seq<Arrival>, id: nat, g: Partial, g': Partial)
    requires OfMessages(ms, arrivals) && MadeBy(ms, arrivals, id, g) && g'.created == g.created
    ensures MadeBy(ms, arrivals, id, g')
  {
  }

  lemma MadeNow(ms: Messages, arrivals: seq<Arrival>, g: Partial)
    requires OfMessages(ms, arrivals) && arrivals != []
    requires
      var a := arrivals[|arrivals| - 1];
      g.created == a.now && |ms[a.part.id]| >= 2
    ensures MadeBy(ms, arrivals, arrivals[|arrivals| - 1].part.id, g)
  {
    assert arrivals[|arrivals| - 1].now == g.created;
  }

  lemma {:induction false} RunMakes(ms: Messages, arrivals: seq<Arrival>)
    requires Sendable(ms) && OfMessages(ms, arrivals)
    ensures AllMade(ms, arrivals, Run(ms, arrivals).groups)
  {
    hide MadeBy, PushStep;
    if arrivals != [] {
      hide AllMade;
      RunMakes(ms, arrivals[..|arrivals| - 1]);
      PushMakes(ms, arrivals, Run(ms, arrivals[..|arrivals| - 1]).groups);
    }
  }

  /** The groups an arrival finds, with its own, are among the busy messages. */
  lemma FoundAreBusy(ms: Messages, arrivals: seq<Arrival>, i: nat)
    requires Sendable(ms) && OfMessages(ms, arrivals) && i < |arrivals|
    ensures
      var a := arrivals[i];
      Unexpired(Run(ms, arrivals[..i]).groups, a.now).Keys + {a.part.id} <= Busy(ms, arrivals, i)
  {
    hide Run;
    var a, groups := arrivals[i], Run(ms, arrivals[..i]).groups;
    RunMakes(ms, arrivals[..i]);
    forall id | id in Unexpired(groups, a.now) ensures id in Busy(ms, arrivals, i) {
      assert MadeBy(ms, arrivals[..i], id, groups[id]);
      var k :| 0 <= k < i && arrivals[..i][k].part.id == id && arrivals[..i][k].now == groups[id].created
        && |ms[id]| >= 2;
      assert Leaves(ms, arrivals, k, a.now);
    }
  }

  ghost predicate LightTraffic(ms: Messages, arrivals: seq<Arrival>)
    requires OfMessages(ms, arrivals)
  {
    forall i :: 0 <= i < |arrivals| ==> |Busy(ms, arrivals, i)| <= MAX_CARRIER_GROUPS
  }

  lemma TakenWhenLight(ms: Messages, arrivals: seq<Arrival>, i: nat)
    requires Sendable(ms) && OfMessages(ms, arrivals) && i < |arrivals|
    requires |Busy(ms, arrivals, i)| <= MAX_CARRIER_GROUPS
    ensures
      PushStep(Run(ms, arrivals[..i]).groups, FrameOf(ms, arrivals[i].part), arrivals[i].now).1 != Err(LimitReached)
  {
    hide Busy, FrameBytes, Run, TotalLength, Join;
    var a := arrivals[i];
    FrameReads(a.part.id, a.part.index, |ms[a.part.id]|, ms[a.part.id][a.part.index]);
    FoundAreBusy(ms, arrivals, i);
    var found := Unexpired(Run(ms, arrivals[..i]).groups, a.now);
    SubsetSize(found.Keys + {a.part.id}, Busy(ms, arrivals, i));
    assert a.part.id !in found ==> |found.Keys + {a.part.id}| == |found.Keys| + 1 && |found.Keys| == |found|;
  }

  /**
   * From the arrivals alone: if at each of them at most 2048 messages are busy, its own and
   * those of more than one part that came within the lifetime before it, none is refused.
   */
  lemma {:induction false} LightIsNotRefused(ms: Messages, arrivals: seq<Arrival>)
    requires Sendable(ms) && OfMessages(ms, arrivals) && LightTraffic(ms, arrivals)
    ensures NoneRefused(ms, arrivals)
  {
    hide PushStep, Busy;
    if arrivals != [] {
      var init := arrivals[..|arrivals| - 1];
      LightPrefix(ms, arrivals);
      LightIsNotRefused(ms, init);
      TakenWhenLight(ms, arrivals, |init|);
      RunSnoc(ms, arrivals);
    }
  }

  lemma LightPrefix(ms: Messages, arrivals: seq<Arrival>)
    requires OfMessages(ms, arrivals) && arrivals != [] && LightTraffic(ms, arrivals)
    ensures LightTraffic(ms, arrivals[..|arrivals| - 1])
  {
    var init := arrivals[..|arrivals| - 1];
    forall i | 0 <= i < |init| ensures Busy(ms, init, i) == Busy(ms, arrivals, i) {
      assert forall k :: 0 <= k < i ==>
        (Leaves(ms, init, k, init[i].now) <==> Leaves(ms, arrivals, k, arrivals[i].now)) && init[k] == arrivals[k];
    }
  }

  /** At most 2048 messages in all are never refused. */
  lemma FewAreNotRefused(ms: Messages, arrivals: seq<Arrival>)
    requires Sendable(ms) && OfMessages(ms, arrivals) && |ms| <= MAX_CARRIER_GROUPS
    ensures NoneRefused(ms, arrivals)
  {
    forall i | 0 <= i < |arrivals| ensures |Busy(ms, arrivals, i)| <= MAX_CARRIER_GROUPS {
      SubsetSize(Busy(ms, arrivals, i), ms.Keys);
      assert |ms.Keys| == |ms|;
    }
    LightIsNotRefused(ms, arrivals);
  }

  // ----- Each message once -----

  ghost predicate Of(arrivals: seq<Arrival>, i: int, id: nat) {
    0 <= i < |arrivals| && arrivals[i].part.id == id
  }

  ghost function Arrived(arrivals: seq<Arrival>, id: nat): set<nat> {
    set a | a in arrivals && a.part.id == id :: a.part.index
  }

  ghost predicate Steady(arrivals: seq<Arrival>) {
    forall i, j :: 0 <= i < j < |arrivals| ==> arrivals[i].now <= arrivals[j].now
  }

  /** All parts of `id` come within the lifetime of its first, and none once it is complete. */
  ghost predicate InTime(arrivals: seq<Arrival>, id: nat, n: nat) {
    && (forall i, j :: i < j && Of(arrivals, i, id) && Of(arrivals, j, id) ==>
          arrivals[j].now <= arrivals[i].now + CARRIER_TTL)
    && forall j :: Of(arrivals, j, id) ==> |Arrived(arrivals[..j], id)| < n
  }

  /** Where message `id` of `n` parts stands: what is held is recent, and a lapse is behind every part. */
  ghost predicate Standing(arrivals: seq<Arrival>, id: nat, n: nat) {
    var log := LogOf(arrivals);
    && Indices(log, id) == Arrived(arrivals, id) && Clean(log, id, n, CARRIER_TTL + 1)
    && (Account(log, id, n, CARRIER_TTL + 1).Holding? ==>
          exists i :: Of(arrivals, i, id) && arrivals[i].now == Account(log, id, n, CARRIER_TTL + 1).since)
    && (Lapsed(log, id, n, CARRIER_TTL + 1) ==>
          exists i :: Of(arrivals, i, id) && arrivals[i].now + CARRIER_TTL < arrivals[|arrivals| - 1].now)
  }

  lemma ArrivedSnoc(arrivals: seq<Arrival>, a: Arrival, id: nat)
    ensures Arrived(arrivals + [a], id) == Arrived(arrivals, id) + (if a.part.id == id then {a.part.index} else {})
  {
    var more := arrivals + [a];
    assert a in more && forall b :: b in arrivals ==> b in more;
  }

  /** The sweep of the next arrival; a part of `id` itself does not find it lapsed. */
  lemma StandingSwept(init: seq<Arrival>, a: Arrival, id: nat, n: nat)
    requires Standing(init, id, n) && Steady(init + [a]) && InTime(init + [a], id, n)
    ensures
      var log := LogOf(init) + [Sweep(a.now)];
      && Indices(log, id) == Arrived(init, id) && Clean(log, id, n, CARRIER_TTL + 1)
      && (Account(log, id, n, CARRIER_TTL + 1).Holding? ==>
            exists i :: Of(init, i, id) && init[i].now == Account(log, id, n, CARRIER_TTL + 1).since)
      && (Lapsed(log, id, n, CARRIER_TTL + 1) ==>
            a.part.id != id && exists i :: Of(init, i, id) && init[i].now + CARRIER_TTL < a.now)
  {
    hide Account, Lapsed, Clean, Arrived, Indices, LogOf;
    var log := LogOf(init);
    IndicesSnoc(log, Sweep(a.now), id);
    CleanSnoc(log, Sweep(a.now), id, n, CARRIER_TTL + 1);
    AccountSnoc(log, Sweep(a.now), id, n, CARRIER_TTL + 1);
    var all := init + [a];
    assert forall i :: Of(init, i, id) ==> Of(all, i, id) && all[i] == init[i];
    assert all[|init|] == a && (a.part.id == id ==> Of(all, |init|, id));
    assert init != [] ==> init[|init| - 1] == all[|init| - 1];
  }

  lemma StandingNext(init: seq<Arrival>, a: Arrival, id: nat, n: nat)
    requires Standing(init, id, n) && Steady(init + [a]) && InTime(init + [a], id, n)
    ensures Standing(init + [a], id, n)
  {
    hide Account, Lapsed, Clean, Arrived, Indices;
    StandingSwept(init, a, id, n);
    ArrivedSnoc(init, a, id);
    var all, log, m := init + [a], LogOf(init) + [Sweep(a.now)], Put(a.part, a.now);
    assert all[..|init|] == init && all[|init|] == a;
    assert LogOf(all) == log + [m];
    IndicesSnoc(log, m, id);
    CleanSnoc(log, m, id, n, CARRIER_TTL + 1);
    AccountSnoc(log, m, id, n, CARRIER_TTL + 1);
    assert forall i :: Of(init, i, id) ==> Of(all, i, id) && all[i] == init[i];
    assert a.part.id == id ==> Of(all, |init|, id);
  }

  lemma {:induction false} AlwaysStanding(arrivals: seq<Arrival>, id: nat, n: nat)
    requires Steady(arrivals) && InTime(arrivals, id, n)
    ensures Standing(arrivals, id, n)
  {
    if arrivals != [] {
      var init, a := arrivals[..|arrivals| - 1], arrivals[|arrivals| - 1];
      assert arrivals == init + [a];
      InTimePrefix(arrivals, id, n, |init|);
      AlwaysStanding(init, id, n);
      StandingNext(init, a, id, n);
    }
  }

  lemma InTimePrefix(arrivals: seq<Arrival>, id: nat, n: nat, k: nat)
    requires InTime(arrivals, id, n) && k <= |arrivals|
    ensures InTime(arrivals[..k], id, n)
  {
    forall j | Of(arrivals[..k], j, id)
      ensures Of(arrivals, j, id) && arrivals[..k][..j] == arrivals[..j] && arrivals[..k][j] == arrivals[j]
    {
    }
  }

  /** A part of a message in time completes it iff it is the last one missing. */
  lemma DueAtLast(ms: Messages, init: seq<Arrival>, a: Arrival)
    requires Sendable(ms) && OfMessages(ms, init) && a.part.id in ms
    requires Steady(init + [a]) && InTime(init + [a], a.part.id, |ms[a.part.id]|)
    requires Standing(init, a.part.id, |ms[a.part.id]|)
    ensures
      var id := a.part.id;
      Due(ms, LogOf(init), a.part, a.now) ==
      if |Arrived(init + [a], id)| >= |ms[id]| then Whole(ms[id]) else Ok(None)
  {
    hide Account, Lapsed, Clean, Arrived, Indices, Whole, LogOf;
    var id := a.part.id;
    StandingSwept(init, a, id, |ms[id]|);
    ArrivedSnoc(init, a, id);
    var all := init + [a];
    assert Of(all, |init|, id) && all[..|init|] == init;
    LogInRange(ms, init);
    CleanOnce(LogOf(init) + [Sweep(a.now)], id, Sizes(WordsOf(ms)), CARRIER_TTL + 1);
  }

  /** A message in time returns its payload exactly at the arrival that brings its last part. */
  lemma CompleteAtLast(ms: Messages, arrivals: seq<Arrival>, id: nat, j: nat)
    requires Sendable(ms) && OfMessages(ms, arrivals) && NoneRefused(ms, arrivals)
    requires id in ms && Steady(arrivals) && InTime(arrivals, id, |ms[id]|) && Of(arrivals, j, id)
    ensures Run(ms, arrivals).results[j] ==
      if |Arrived(arrivals[..j + 1], id)| >= |ms[id]| then Whole(ms[id]) else Ok(None)
  {
    hide Arrived, Run, Whole, Due, LogOf, InTime, Steady, Standing, NoneRefused, Kept;
    var init, a, n := arrivals[..j], arrivals[j], |ms[id]|;
    RoundTrip(ms, arrivals);
    assert AsDue(ms, arrivals, j);
    assert arrivals[..j + 1] == init + [a];
    InTimePrefix(arrivals, id, n, j);
    InTimePrefix(arrivals, id, n, j + 1);
    SteadyPrefix(arrivals, j);
    SteadyPrefix(arrivals, j + 1);
    AlwaysStanding(init, id, n);
    DueAtLast(ms, init, a);
  }

  lemma SteadyPrefix(arrivals: seq<Arrival>, k: nat)
    requires Steady(arrivals) && k <= |arrivals|
    ensures Steady(arrivals[..k])
  {
  }

  lemma {:induction false} LogInRange(ms: Messages, arrivals: seq<Arrival>)
    requires OfMessages(ms, arrivals)
    ensures InRange(LogOf(arrivals), Sizes(WordsOf(ms)))
  {
    if arrivals != [] { LogInRange(ms, arrivals[..|arrivals| - 1]); }
  }

  lemma ArrivedGrows(arrivals: seq<Arrival>, id: nat, i: nat, j: nat)
    requires i <= j <= |arrivals|
    ensures |Arrived(arrivals[..i], id)| <= |Arrived(arrivals[..j], id)|
  {
    assert forall a :: a in arrivals[..i] ==> a in arrivals[..j];
    SubsetSize(Arrived(arrivals[..i], id), Arrived(arrivals[..j], id));
  }

  lemma ArrivedSome(arrivals: seq<Arrival>, id: nat)
    ensures |Arrived(arrivals, id)| >= 1 ==> arrivals != []
  {
    assert arrivals == [] ==> Arrived(arrivals, id) == {};
  }

  /** The arrival that brings the last missing part. */
  lemma {:induction false} LastPart(arrivals: seq<Arrival>, id: nat, n: nat) returns (j: nat)
    requires |Arrived(arrivals, id)| >= n >= 1
    ensures Of(arrivals, j, id) && |Arrived(arrivals[..j + 1], id)| >= n
  {
    ArrivedSome(arrivals, id);
    hide Arrived;
    var init, k := arrivals[..|arrivals| - 1], |arrivals| - 1;
    if |Arrived(init, id)| >= n {
      j := LastPart(init, id, n);
      assert arrivals[..j + 1] == init[..j + 1];
    } else {
      j := k;
      assert arrivals == init + [arrivals[k]] && arrivals[..k + 1] == arrivals;
      ArrivedSnoc(init, arrivals[k], id);
    }
  }

  /** The arrivals at which something of `id` is handed on. */
  ghost function HandedOn(ms: Messages, arrivals: seq<Arrival>, id: nat): set<nat>
    requires OfMessages(ms, arrivals)
  {
    set j: nat | j < |arrivals| && Of(arrivals, j, id) && Run(ms, arrivals).results[j] != Ok(None)
  }

  /**
   * Whatever else arrives, is lost or expires: a message of which no part comes later than the
   * lifetime of its first, nor again once it is complete, is handed on exactly once if all its
   * parts arrive, as its payload, at the last of them; and otherwise never.
   */
  lemma EachMessageOnce(ms: Messages, arrivals: seq<Arrival>, id: nat)
    requires Sendable(ms) && OfMessages(ms, arrivals) && NoneRefused(ms, arrivals)
    requires id in ms && Steady(arrivals) && InTime(arrivals, id, |ms[id]|)
    ensures |HandedOn(ms, arrivals, id)| == if |Arrived(arrivals, id)| >= |ms[id]| then 1 else 0
    ensures forall j :: j in HandedOn(ms, arrivals, id) ==>
      Run(ms, arrivals).results[j] == Whole(ms[id]) && |Arrived(arrivals[..j + 1], id)| >= |ms[id]|
  {
    hide Arrived, Run, Whole, Steady, Kept;
    var n, handed := |ms[id]|, HandedOn(ms, arrivals, id);
    forall j: nat | Of(arrivals, j, id) ensures j in handed <==> |Arrived(arrivals[..j + 1], id)| >= n
      ensures j in handed ==> Run(ms, arrivals).results[j] == Whole(ms[id])
    {
      CompleteAtLast(ms, arrivals, id, j);
      assert Whole(ms[id]) != Ok(None) by { WholeIsSomething(ms[id]); }
    }
    if |Arrived(arrivals, id)| >= n {
      var last := LastPart(arrivals, id, n);
      forall j | j in handed ensures j == last {
        if j < last { ArrivedGrows(arrivals, id, j + 1, last); }
        if last < j { ArrivedGrows(arrivals, id, last + 1, j); }
      }
      assert handed == {last};
    } else {
      forall j: nat | Of(arrivals, j, id) ensures j !in handed {
        ArrivedGrows(arrivals, id, j + 1, |arrivals|);
        assert arrivals[..|arrivals|] == arrivals;
      }
      assert handed == {};
    }
  }

  lemma WholeIsSomething(word: seq<seq<byte>>)
    ensures Whole(word) != Ok(None)
  {
  }
}
