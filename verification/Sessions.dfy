/**
 * The server's session table (src/main.rs, `superseded_sessions` and the receive and cleanup
 * steps of `server`). Every frame the server decodes is a V3 frame; the V1 and V2 branches of
 * the table are kept as they stand.
 */
module Sessions {
  import opened Bytes

  const SESSION_TAKEOVER_MAX_SEQUENCE: nat := 32
  const MAX_V1_MIGRATION_SESSIONS: nat := 64
  const MAX_V2_SESSIONS_PER_DEVICE: nat := 16

  datatype Key = Key(device: nat, session: nat)

  datatype Entry = Entry(lastSeen: nat, finished: bool)

  type Table = map<Key, Entry>

  /** The keys of one device. */
  function OfDevice(keys: set<Key>, device: nat): set<Key> {
    set k | k in keys && k.device == device
  }

  /** The sessions a new session of this device would replace, or none if it may not take over. */
  function Superseded(keys: set<Key>, k: Key, sequence: nat): Option<set<Key>> {
    var existing := OfDevice(keys, k.device) - {k};
    if existing == {} then Some({})
    else if sequence <= SESSION_TAKEOVER_MAX_SEQUENCE then Some(existing)
    else None
  }

  predicate Keyed(version: nat) { version == 2 || version == 3 }

  /** The table once takeovers are done, and whether the frame may go on to open a session. */
  function Cleared(t: Table, k: Key, version: nat, sequence: nat): Option<Table> {
    if !Keyed(version) then Some(t)
    else
      match Superseded(t.Keys, k, sequence)
      case None => None
      case Some(gone) => Some(t - gone)
  }

  predicate MayOpen(t: Table, limit: nat, k: Key, version: nat) {
    && |t| < limit
    && (version == 1 ==> |OfDevice(t.Keys, 0)| < MAX_V1_MIGRATION_SESSIONS)
    && (Keyed(version) ==> |OfDevice(t.Keys, k.device)| < MAX_V2_SESSIONS_PER_DEVICE)
  }

  /** One authenticated frame. */
  function ReceiveStep(t: Table, limit: nat, k: Key, version: nat, sequence: nat, now: nat): Table {
    if k in t then t[k := t[k].(lastSeen := now)]
    else
      match Cleared(t, k, version, sequence)
      case None => t
      case Some(t1) => if MayOpen(t1, limit, k, version) then t1[k := Entry(now, false)] else t1
  }

  /** One cleanup tick: finished and idle sessions go. */
  function CleanupStep(t: Table, now: nat, idle: nat): Table {
    map k | k in t && !t[k].finished && SaturatingSub(now, t[k].lastSeen) < idle :: t[k]
  }

  class SessionTable {
    const limit: nat
    const idle: nat
    var sessions: Table

    constructor (limit: nat, idle: nat)
      ensures sessions == map[] && this.limit == limit && this.idle == idle
    {
      this.limit, this.idle, sessions := limit, idle, map[];
    }

    method RemoveAll(gone: set<Key>)
      modifies this
      ensures sessions == old(sessions) - gone
    {
      var rest := gone;
      while rest != {}
        invariant rest <= gone && sessions == old(sessions) - (gone - rest)
        decreases rest
      {
        var id :| id in rest;
        sessions := sessions - {id};
        rest := rest - {id};
      }
      assert gone - {} == gone;
    }

    method Receive(k: Key, version: nat, sequence: nat, now: nat)
      modifies this
      ensures sessions == ReceiveStep(old(sessions), limit, k, version, sequence, now)
    {
      hide OfDevice, Superseded;
      if k !in sessions {
        if version == 2 || version == 3 {
          var superseded := Superseded(sessions.Keys, k, sequence);
          if superseded.None? { return; }
          RemoveAll(superseded.value);
        }
        if |sessions| >= limit { return; }
        if version == 1 && |OfDevice(sessions.Keys, 0)| >= MAX_V1_MIGRATION_SESSIONS { return; }
        if (version == 2 || version == 3) && |OfDevice(sessions.Keys, k.device)| >= MAX_V2_SESSIONS_PER_DEVICE {
          return;
        }
        sessions := sessions[k := Entry(now, false)];
      }
      ghost var before := sessions;
      sessions := sessions[k := sessions[k].(lastSeen := now)];
      assert old(k !in sessions) ==> sessions == before;
    }

    method Cleanup(now: nat)
      modifies this
      ensures sessions == CleanupStep(old(sessions), now, idle)
    {
      var expired :=
        set k | k in sessions && (sessions[k].finished || SaturatingSub(now, sessions[k].lastSeen) >= idle);
      RemoveAll(expired);
    }
  }

  // ----- One step -----

  ghost predicate OnePerDevice(t: Table) {
    forall a, b :: a in t && b in t && a.device == b.device ==> a == b
  }

  lemma {:induction false} SubmapSize(t: Table, gone: set<Key>)
    ensures |t - gone| <= |t| && (gone * t.Keys != {} ==> |t - gone| < |t|)
  {
    var kept := (t - gone).Keys;
    assert kept == t.Keys - gone;
    assert t.Keys == kept + (gone * t.Keys) && kept !! gone * t.Keys;
    assert |t.Keys| == |t| && |kept| == |t - gone|;
  }

  /** After a takeover the device has no session left, so the per-device limit never bites. */
  lemma ClearedFree(t: Table, k: Key, version: nat, sequence: nat)
    requires Keyed(version) && k !in t && Cleared(t, k, version, sequence).Some?
    ensures OfDevice(Cleared(t, k, version, sequence).value.Keys, k.device) == {}
  {
  }

  /** Whether there is room once takeovers are done. */
  lemma ClearedRoom(t: Table, limit: nat, k: Key, version: nat, sequence: nat)
    requires Keyed(version) && |t| <= limit && k !in t
    ensures
      var others, cleared := OfDevice(t.Keys, k.device) - {k}, Cleared(t, k, version, sequence);
      cleared.Some? && MayOpen(cleared.value, limit, k, version) <==>
      (others == {} && |t| < limit) || (others != {} && sequence <= SESSION_TAKEOVER_MAX_SEQUENCE)
  {
    if Cleared(t, k, version, sequence).Some? {
      ClearedFree(t, k, version, sequence);
      hide OfDevice;
      var gone := Superseded(t.Keys, k, sequence).value;
      SubmapSize(t, gone);
      assert gone * t.Keys == gone by { OthersThere(t, k); }
      assert gone == {} ==> t - gone == t;
    }
  }

  lemma OthersThere(t: Table, k: Key)
    ensures (OfDevice(t.Keys, k.device) - {k}) * t.Keys == OfDevice(t.Keys, k.device) - {k}
  {
  }

  /**
   * When a session exists after a frame of it: it existed; or no other session of the device
   * did and there was room; or one did and the frame is among the first 32, and then that one
   * is replaced, room or not.
   */
  lemma OpensIff(t: Table, limit: nat, k: Key, version: nat, sequence: nat, now: nat)
    requires Keyed(version) && |t| <= limit
    ensures
      var others := OfDevice(t.Keys, k.device) - {k};
      k in ReceiveStep(t, limit, k, version, sequence, now) <==>
        k in t || (others == {} && |t| < limit) || (others != {} && sequence <= SESSION_TAKEOVER_MAX_SEQUENCE)
  {
    hide OfDevice, MayOpen;
    if k !in t { ClearedRoom(t, limit, k, version, sequence); }
  }

  /** A frame removes only other sessions of its device, and only one of the first 32. */
  lemma RemovesOthers(t: Table, limit: nat, k: Key, version: nat, sequence: nat, now: nat, prior: Key)
    requires Keyed(version) && prior in t && prior !in ReceiveStep(t, limit, k, version, sequence, now)
    ensures prior in OfDevice(t.Keys, k.device) - {k} && sequence <= SESSION_TAKEOVER_MAX_SEQUENCE
  {
    hide OfDevice, MayOpen;
  }

  /** A frame removes a session only by taking over from it, and then its own session is there. */
  lemma DisplacedOnlyByTakeover(t: Table, limit: nat, k: Key, version: nat, sequence: nat, now: nat, prior: Key)
    requires Keyed(version) && |t| <= limit && prior in t
    ensures
      var t' := ReceiveStep(t, limit, k, version, sequence, now);
      prior !in t' ==> prior.device == k.device && prior != k && sequence <= SESSION_TAKEOVER_MAX_SEQUENCE && k in t'
  {
    hide ReceiveStep;
    OpensIff(t, limit, k, version, sequence, now);
    if prior !in ReceiveStep(t, limit, k, version, sequence, now) {
      RemovesOthers(t, limit, k, version, sequence, now, prior);
    }
  }

  lemma ReceiveKeeps(t: Table, limit: nat, k: Key, version: nat, sequence: nat, now: nat)
    requires Keyed(version) && OnePerDevice(t) && |t| <= limit
    ensures OnePerDevice(ReceiveStep(t, limit, k, version, sequence, now))
    ensures |ReceiveStep(t, limit, k, version, sequence, now)| <= limit
  {
    hide Superseded, OfDevice;
    if k in t {
      SameKeys(t, k, t[k].(lastSeen := now));
    } else if Cleared(t, k, version, sequence).Some? {
      var t1 := Cleared(t, k, version, sequence).value;
      ClearedFree(t, k, version, sequence);
      SubmapSize(t, Superseded(t.Keys, k, sequence).value);
      OpenKeeps(t1, k, Entry(now, false));
    }
  }

  lemma OpenKeeps(t: Table, k: Key, e: Entry)
    requires OnePerDevice(t) && OfDevice(t.Keys, k.device) == {} && k !in t
    ensures OnePerDevice(t[k := e]) && |t[k := e]| == |t| + 1
  {
    assert forall a :: a in t && a.device == k.device ==> a in OfDevice(t.Keys, k.device);
    assert t[k := e].Keys == t.Keys + {k};
    assert |t[k := e]| == |t[k := e].Keys| && |t| == |t.Keys|;
  }

  // ----- Runs -----

  /** `Touch` and `Finish` are what a session's own worker does to its entry. */
  datatype Event =
    | Receive(key: Key, sequence: nat, at: nat)
    | Cleanup(now: nat)
    | Touch(touched: Key, seen: nat)
    | Finish(ended: Key)

  function Step(t: Table, limit: nat, idle: nat, e: Event): Table {
    match e
    case Receive(k, sequence, at) => ReceiveStep(t, limit, k, 3, sequence, at)
    case Cleanup(now) => CleanupStep(t, now, idle)
    case Touch(k, seen) => if k in t then t[k := t[k].(lastSeen := seen)] else t
    case Finish(k) => if k in t then t[k := t[k].(finished := true)] else t
  }

  function Run(limit: nat, idle: nat, events: seq<Event>): Table {
    if events == [] then map[] else Step(Run(limit, idle, events[..|events| - 1]), limit, idle, events[|events| - 1])
  }

  lemma SameKeys(t: Table, k: Key, e: Entry)
    requires k in t
    ensures |t[k := e]| == |t| && t[k := e].Keys == t.Keys
  {
    assert t[k := e].Keys == t.Keys;
    assert |t[k := e].Keys| == |t[k := e]| && |t.Keys| == |t|;
  }

  lemma CleanupShrinks(t: Table, now: nat, idle: nat)
    ensures |CleanupStep(t, now, idle)| <= |t|
  {
    var t' := CleanupStep(t, now, idle);
    var gone := t.Keys - t'.Keys;
    assert t.Keys == t'.Keys + gone && t'.Keys !! gone;
    assert |t.Keys| == |t| && |t'.Keys| == |t'|;
  }

  /** Table safety, over every run: one session per device and at most `limit` in all. */
  lemma {:induction false} TableSafe(limit: nat, idle: nat, events: seq<Event>)
    ensures OnePerDevice(Run(limit, idle, events)) && |Run(limit, idle, events)| <= limit
  {
    if events != [] {
      var init, e := events[..|events| - 1], events[|events| - 1];
      TableSafe(limit, idle, init);
      var t := Run(limit, idle, init);
      match e
      case Receive(k, sequence, at) => ReceiveKeeps(t, limit, k, 3, sequence, at);
      case Cleanup(now) => CleanupShrinks(t, now, idle);
      case Touch(k, seen) => if k in t { SameKeys(t, k, t[k].(lastSeen := seen)); }
      case Finish(k) => if k in t { SameKeys(t, k, t[k].(finished := true)); }
    }
  }

  /** In a table with one session per device, a takeover removes just that session. */
  lemma TakeoverRemoves(t: Table, limit: nat, k: Key, version: nat, sequence: nat, now: nat, prior: Key)
    requires Keyed(version) && OnePerDevice(t) && prior in t
    requires prior.device == k.device && prior != k && sequence <= SESSION_TAKEOVER_MAX_SEQUENCE
    ensures prior !in ReceiveStep(t, limit, k, version, sequence, now)
  {
    assert k !in t;
    assert prior in OfDevice(t.Keys, k.device) - {k};
  }

  /**
   * Over every run: a session in the table leaves it in the next step exactly when that step is
   * a cleanup that finds it finished or idle, or one of the first 32 frames of another session
   * of the same device, which then is in the table.
   */
  lemma LeavesIff(limit: nat, idle: nat, events: seq<Event>, e: Event, k: Key)
    requires k in Run(limit, idle, events)
    ensures
      var t, t' := Run(limit, idle, events), Run(limit, idle, events + [e]);
      var takenOver :=
        e.Receive? && e.key.device == k.device && e.key != k && e.sequence <= SESSION_TAKEOVER_MAX_SEQUENCE;
      && (k !in t' <==> takenOver || (e.Cleanup? && (t[k].finished || SaturatingSub(e.now, t[k].lastSeen) >= idle)))
      && (takenOver ==> e.key in t')
  {
    hide ReceiveStep;
    assert (events + [e])[..|events|] == events;
    TableSafe(limit, idle, events);
    if e.Receive? {
      var t := Run(limit, idle, events);
      DisplacedOnlyByTakeover(t, limit, e.key, 3, e.sequence, e.at, k);
      if e.key.device == k.device && e.key != k && e.sequence <= SESSION_TAKEOVER_MAX_SEQUENCE {
        TakeoverRemoves(t, limit, e.key, 3, e.sequence, e.at, k);
      }
    }
  }
}
