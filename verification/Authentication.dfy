/**
 * Channel-bound device authentication (src/quic_auth.rs): a 69-byte envelope of claims and a
 * keyed MAC over them and the TLS exporter. The MAC is any function of key and message with
 * 32-byte values.
 */
module Authentication {
  import opened Bytes
  import opened ReplayProtection

  const MAGIC: seq<byte> := [0x53, 0x46, 0x54, 0x41] // "SFTA"
  const VERSION: byte := 1
  const PREFIX_LEN: nat := 37
  const ENVELOPE_LEN: nat := 69

  ghost predicate MacShaped(f: (seq<byte>, seq<byte>) -> seq<byte>) {
    forall k, m :: |f(k, m)| == 32
  }

  function NullMac(k: seq<byte>, m: seq<byte>): seq<byte> { Zeros(32) }

  type Mac = f: (seq<byte>, seq<byte>) -> seq<byte> | MacShaped(f) ghost witness NullMac

  datatype Claims = Claims(device: nat, timestamp: nat, nonce: Nonce)

  datatype AuthError = InvalidEnvelope | ZeroDevice | Expired | InvalidProof | Replayed

  ghost predicate Representable(c: Claims) {
    c.device < U64_LIMIT && c.timestamp < U64_LIMIT && |c.nonce| == 16
  }

  function Prefix(c: Claims): seq<byte> {
    MAGIC + [VERSION] + BE(c.device, 8) + BE(c.timestamp, 8) + c.nonce
  }

  function MakeEnvelope(mac: Mac, key: seq<byte>, c: Claims, exporter: seq<byte>): seq<byte> {
    Prefix(c) + mac(key, Prefix(c) + exporter)
  }

  predicate WellFormed(e: seq<byte>) {
    |e| == ENVELOPE_LEN && e[..4] == MAGIC && e[4] == VERSION
  }

  function ClaimsOf(e: seq<byte>): Claims
    requires |e| == ENVELOPE_LEN
  {
    Claims(Val(e[5..13]), Val(e[13..21]), e[21..37])
  }

  function DeviceId(e: seq<byte>): Result<nat, AuthError> {
    if !WellFormed(e) then Err(InvalidEnvelope)
    else if ClaimsOf(e).device == 0 then Err(ZeroDevice)
    else Ok(ClaimsOf(e).device)
  }

  predicate InWindow(now: nat, timestamp: nat, window: nat) {
    (if now < timestamp then timestamp - now else now - timestamp) <= window
  }

  /** `verify_envelope`, with the cache before and after. */
  function Verify(mac: Mac, e: seq<byte>, key: seq<byte>, exporter: seq<byte>, now: nat, window: nat, cache: Cache)
    : (Cache, Result<Claims, AuthError>)
  {
    match DeviceId(e)
    case Err(error) => (cache, Err(error))
    case Ok(_) =>
      var c := ClaimsOf(e);
      if !InWindow(now, c.timestamp, window) then (cache, Err(Expired))
      else if MakeEnvelope(mac, key, c, exporter)[PREFIX_LEN..] != e[PREFIX_LEN..] then (cache, Err(InvalidProof))
      else
        var (cache', accepted) := CheckAndInsert(cache, c.nonce, now, window);
        (cache', if accepted then Ok(c) else Err(Replayed))
  }

  /** `verify_envelope` on the shared cache object. */
  method VerifyEnvelope(mac: Mac, e: seq<byte>, key: seq<byte>, exporter: seq<byte>, now: nat, window: nat,
                        cache: ReplayCache)
    returns (r: Result<Claims, AuthError>)
    modifies cache
    ensures (cache.State(), r) == Verify(mac, e, key, exporter, now, window, old(cache.State()))
  {
    var device := DeviceId(e);
    if device.Err? { return Err(device.error); }
    var claims := ClaimsOf(e);
    if !InWindow(now, claims.timestamp, window) { return Err(Expired); }
    var expected := MakeEnvelope(mac, key, claims, exporter);
    if expected[PREFIX_LEN..] != e[PREFIX_LEN..] { return Err(InvalidProof); }
    var accepted := cache.TryInsert(claims.nonce, now, window);
    return if accepted then Ok(claims) else Err(Replayed);
  }

  // ----- Envelopes -----

  lemma {:induction false} BEVal(s: seq<byte>)
    ensures Val(s) < Pow256(|s|) && BE(Val(s), |s|) == s
  {
    if s != [] {
      var n := |s| - 1;
      BEVal(s[..n]);
      assert Val(s) / 256 == Val(s[..n]) && Val(s) % 256 == s[n];
      assert s == s[..n] + [s[n]];
    }
  }

  lemma PrefixParts(c: Claims)
    requires Representable(c)
    ensures
      var p := Prefix(c);
      |p| == PREFIX_LEN && p[..4] == MAGIC && p[4] == VERSION && p[5..13] == BE(c.device, 8)
      && p[13..21] == BE(c.timestamp, 8) && p[21..37] == c.nonce
  {
  }

  /** An envelope made for some claims reads back as those claims. */
  lemma MadeReadsBack(mac: Mac, key: seq<byte>, c: Claims, exporter: seq<byte>)
    requires Representable(c)
    ensures
      var e := MakeEnvelope(mac, key, c, exporter);
      WellFormed(e) && ClaimsOf(e) == c && e[PREFIX_LEN..] == mac(key, Prefix(c) + exporter)
  {
    var e := MakeEnvelope(mac, key, c, exporter);
    PrefixParts(c);
    var p := Prefix(c);
    assert e[..4] == p[..4] && e[5..13] == p[5..13] && e[13..21] == p[13..21] && e[21..37] == p[21..37];
    ValBE64(c.device);
    ValBE64(c.timestamp);
  }

  /** A well-formed envelope starts with the prefix of its own claims. */
  lemma ReadsAsPrefix(e: seq<byte>)
    requires WellFormed(e)
    ensures Representable(ClaimsOf(e)) && Prefix(ClaimsOf(e)) == e[..PREFIX_LEN]
  {
    BEVal(e[5..13]);
    BEVal(e[13..21]);
    Widths();
    var c := ClaimsOf(e);
    PrefixParts(c);
    assert e[..37] == e[..4] + [e[4]] + e[5..13] + e[13..21] + e[21..37];
  }

  /**
   * Acceptance, exactly: an envelope is accepted iff it is, byte for byte, the one its key
   * makes for its claims on this connection, the device is not zero, the timestamp is in the
   * window, and the cache takes the nonce. The claims returned are the ones made.
   */
  lemma AcceptedIff(mac: Mac, e: seq<byte>, key: seq<byte>, exporter: seq<byte>, now: nat, window: nat, cache: Cache,
                    c: Claims)
    requires Representable(c)
    ensures Verify(mac, e, key, exporter, now, window, cache).1 == Ok(c) <==>
      && e == MakeEnvelope(mac, key, c, exporter)
      && c.device != 0 && InWindow(now, c.timestamp, window)
      && CheckAndInsert(cache, c.nonce, now, window).1
  {
    hide CheckAndInsert;
    MadeReadsBack(mac, key, c, exporter);
    if WellFormed(e) && ClaimsOf(e) == c {
      ReadsAsPrefix(e);
      assert e == e[..PREFIX_LEN] + e[PREFIX_LEN..];
      var made := MakeEnvelope(mac, key, c, exporter);
      assert made == made[..PREFIX_LEN] + made[PREFIX_LEN..];
      assert made[..PREFIX_LEN] == Prefix(c);
    }
  }

  /** Whatever is refused before the replay check leaves the cache as it was. */
  lemma RefusalLeavesCache(mac: Mac, e: seq<byte>, key: seq<byte>, exporter: seq<byte>, now: nat, window: nat,
                           cache: Cache)
    ensures
      var (cache', r) := Verify(mac, e, key, exporter, now, window, cache);
      cache' == if r.Ok? || r.error == Replayed then CheckAndInsert(cache, ClaimsOf(e).nonce, now, window).0 else cache
  {
    hide CheckAndInsert;
  }

  // ----- Single acceptance -----

  datatype Try = Try(e: seq<byte>, key: seq<byte>, exporter: seq<byte>, now: nat)

  ghost function RunV(mac: Mac, capacity: nat, window: nat, tries: seq<Try>): (Cache, seq<Accepted>) {
    if tries == [] then (Cache(capacity, map[], []), [])
    else
      var (cache, log) := RunV(mac, capacity, window, tries[..|tries| - 1]);
      var t := tries[|tries| - 1];
      var (cache', r) := Verify(mac, t.e, t.key, t.exporter, t.now, window, cache);
      (cache', if r.Ok? then log + [Accepted(r.value.nonce, t.now)] else log)
  }

  ghost function Outcome(mac: Mac, capacity: nat, window: nat, tries: seq<Try>, i: nat): Result<Claims, AuthError>
    requires i < |tries|
  {
    var t := tries[i];
    Verify(mac, t.e, t.key, t.exporter, t.now, window, RunV(mac, capacity, window, tries[..i]).0).1
  }

  ghost predicate Steady(tries: seq<Try>, window: nat) {
    && (forall i, j :: 0 <= i < j < |tries| ==> tries[i].now <= tries[j].now)
    && (forall i :: 0 <= i < |tries| ==> tries[i].now + window + 1 < U64_LIMIT)
  }

  lemma MirrorsLater(c: Cache, log: seq<Accepted>, from: nat, clock: nat, later: nat, window: nat)
    requires Mirrors(c, log, from, clock, window) && clock <= later
    ensures Mirrors(c, log, from, later, window)
  {
  }

  lemma {:induction false} RunVMirrors(mac: Mac, capacity: nat, window: nat, tries: seq<Try>,
                                       n: nat) returns (from: nat)
    requires capacity >= 1 && Steady(tries, window) && n <= |tries|
    ensures
      var (c, log) := RunV(mac, capacity, window, tries[..n]);
      c.capacity == capacity && Mirrors(c, log, from, if n == 0 then 0 else tries[n - 1].now, window)
  {
    hide CheckAndInsert, InWindow, Remembered, MakeEnvelope, ClaimsOf;
    if n == 0 {
      from := 0;
    } else {
      hide Mirrors;
      assert tries[..n][..n - 1] == tries[..n - 1];
      var m := RunVMirrors(mac, capacity, window, tries, n - 1);
      var (c, log) := RunV(mac, capacity, window, tries[..n - 1]);
      var clock, t := if n == 1 then 0 else tries[n - 2].now, tries[n - 1];
      MirrorsLater(c, log, m, clock, t.now, window);
      from := m;
      var (c', r) := Verify(mac, t.e, t.key, t.exporter, t.now, window, c);
      if r.Ok? || r.error == Replayed {
        from := CheckRefines(c, log, m, clock, ClaimsOf(t.e).nonce, t.now, window);
      }
    }
  }

  /** The log after an acceptance is a prefix of every later log. */
  lemma {:induction false} LogPrefix(mac: Mac, capacity: nat, window: nat, tries: seq<Try>, i: nat, j: nat)
    requires i <= j <= |tries|
    ensures RunV(mac, capacity, window, tries[..i]).1 <= RunV(mac, capacity, window, tries[..j]).1
    decreases j - i
  {
    hide Verify;
    if i < j {
      LogPrefix(mac, capacity, window, tries, i, j - 1);
      assert tries[..j][..j - 1] == tries[..j - 1];
    }
  }

  /** Acceptances between try `i` (accepted) and try `j`, not counting either. */
  ghost function Between(mac: Mac, capacity: nat, window: nat, tries: seq<Try>, i: nat, j: nat): int
    requires i < j <= |tries|
  {
    |RunV(mac, capacity, window, tries[..j]).1| - |RunV(mac, capacity, window, tries[..i + 1]).1|
  }

  /** The envelope is the one its key makes on its connection, for a device, with a timestamp in the window. */
  ghost predicate Genuine(mac: Mac, t: Try, window: nat) {
    && DeviceId(t.e).Ok? && InWindow(t.now, ClaimsOf(t.e).timestamp, window)
    && MakeEnvelope(mac, t.key, ClaimsOf(t.e), t.exporter)[PREFIX_LEN..] == t.e[PREFIX_LEN..]
  }

  /** The accepted try `k` is remembered at try `j`: not yet expired, nor crowded out by `capacity` others. */
  ghost predicate Recalled(mac: Mac, capacity: nat, window: nat, tries: seq<Try>, k: nat, j: nat)
    requires k < j < |tries|
  {
    && Outcome(mac, capacity, window, tries, k).Ok?
    && tries[j].now <= tries[k].now + window && Between(mac, capacity, window, tries, k, j) < capacity
  }

  lemma OutcomeIs(mac: Mac, capacity: nat, window: nat, tries: seq<Try>, i: nat)
    requires i < |tries|
    ensures
      var (c, log) := RunV(mac, capacity, window, tries[..i]);
      var r, t := Outcome(mac, capacity, window, tries, i), tries[i];
      && (r.Ok? <==> Genuine(mac, t, window) && CheckAndInsert(c, ClaimsOf(t.e).nonce, t.now, window).1)
      && (r.Ok? ==> r.value == ClaimsOf(t.e))
      && RunV(mac, capacity, window, tries[..i + 1]).1 ==
           if r.Ok? then log + [Accepted(r.value.nonce, t.now)] else log
  {
    hide CheckAndInsert, MakeEnvelope, WellFormed, InWindow, ClaimsOf;
    assert tries[..i + 1][..i] == tries[..i];
  }

  /** Every entry of the log is one accepted try. */
  lemma {:induction false} LogSource(mac: Mac, capacity: nat, window: nat, tries: seq<Try>, n: nat, at: nat)
    returns (k: nat)
    requires n <= |tries| && at < |RunV(mac, capacity, window, tries[..n]).1|
    ensures k < n && Outcome(mac, capacity, window, tries, k).Ok?
    ensures |RunV(mac, capacity, window, tries[..k]).1| == at
    ensures RunV(mac, capacity, window, tries[..n]).1[at] ==
      Accepted(Outcome(mac, capacity, window, tries, k).value.nonce, tries[k].now)
  {
    hide Outcome, Genuine, CheckAndInsert, ClaimsOf;
    if n > 0 {
      hide RunV;
      OutcomeIs(mac, capacity, window, tries, n - 1);
      if at < |RunV(mac, capacity, window, tries[..n - 1]).1| {
        k := LogSource(mac, capacity, window, tries, n - 1, at);
      } else {
        k := n - 1;
      }
    }
  }

  /** The place of an accepted try in every later log. */
  lemma LogPlace(mac: Mac, capacity: nat, window: nat, tries: seq<Try>, k: nat, j: nat)
    requires k < j <= |tries| && Outcome(mac, capacity, window, tries, k).Ok?
    ensures
      var log, at := RunV(mac, capacity, window, tries[..j]).1, |RunV(mac, capacity, window, tries[..k]).1|;
      && at < |log| && Between(mac, capacity, window, tries, k, j) == |log| - at - 1 >= 0
      && log[at] == Accepted(Outcome(mac, capacity, window, tries, k).value.nonce, tries[k].now)
  {
    hide Outcome, Genuine, CheckAndInsert, ClaimsOf, RunV;
    OutcomeIs(mac, capacity, window, tries, k);
    LogPrefix(mac, capacity, window, tries, k + 1, j);
  }

  lemma RememberedIffRecalled(mac: Mac, capacity: nat, window: nat, tries: seq<Try>, j: nat, nonce: Nonce)
    requires j < |tries|
    ensures Remembered(RunV(mac, capacity, window, tries[..j]).1, capacity, nonce, tries[j].now, window) <==>
      exists k: nat :: k < j && Recalled(mac, capacity, window, tries, k, j)
                       && Outcome(mac, capacity, window, tries, k).value.nonce == nonce
  {
    hide Outcome, RunV;
    var log := RunV(mac, capacity, window, tries[..j]).1;
    if Remembered(log, capacity, nonce, tries[j].now, window) {
      var at :| 0 <= at < |log| && at + capacity >= |log| && log[at].nonce == nonce
        && Live(log[at], tries[j].now, window);
      var k := LogSource(mac, capacity, window, tries, j, at);
      LogPlace(mac, capacity, window, tries, k, j);
      assert Recalled(mac, capacity, window, tries, k, j);
    }
    if k: nat :| k < j && Recalled(mac, capacity, window, tries, k, j)
                 && Outcome(mac, capacity, window, tries, k).value.nonce == nonce {
      LogPlace(mac, capacity, window, tries, k, j);
      assert Live(log[|RunV(mac, capacity, window, tries[..k]).1|], tries[j].now, window);
    }
  }

  /** Steady up to the last try, whose own expiry may saturate. */
  ghost predicate SteadyBefore(tries: seq<Try>, window: nat, j: nat)
    requires j < |tries|
  {
    Steady(tries[..j], window) && forall i :: 0 <= i < j ==> tries[i].now <= tries[j].now
  }

  /**
   * Acceptance over every run: a try is accepted exactly when its envelope is genuine and no
   * earlier acceptance of its nonce is still recalled.
   */
  lemma AcceptedInRunIff(mac: Mac, capacity: nat, window: nat, tries: seq<Try>, j: nat)
    requires capacity >= 1 && j < |tries| && SteadyBefore(tries, window, j)
    ensures Outcome(mac, capacity, window, tries, j).Ok? <==>
      && Genuine(mac, tries[j], window)
      && !exists k: nat :: k < j && Recalled(mac, capacity, window, tries, k, j)
                           && Outcome(mac, capacity, window, tries, k).value.nonce == ClaimsOf(tries[j].e).nonce
  {
    hide Outcome, Genuine, CheckAndInsert, ClaimsOf, RunV, Mirrors, Remembered, Recalled;
    OutcomeIs(mac, capacity, window, tries, j);
    if Genuine(mac, tries[j], window) {
      var nonce := NonceOf(mac, tries[j], window);
      RememberedIffRecalled(mac, capacity, window, tries, j, nonce);
      var (c, log) := RunV(mac, capacity, window, tries[..j]);
      var from := RunVMirrors(mac, capacity, window, tries[..j], j);
      assert tries[..j][..j] == tries[..j];
      CheckDecides(c, log, from, if j == 0 then 0 else tries[j - 1].now, nonce, tries[j].now, window);
    }
  }

  lemma NonceOf(mac: Mac, t: Try, window: nat) returns (nonce: Nonce)
    requires Genuine(mac, t, window)
    ensures |t.e| == ENVELOPE_LEN && nonce == ClaimsOf(t.e).nonce
  {
    nonce := ClaimsOf(t.e).nonce;
  }

  /** What is recalled later was recalled before. */
  lemma RecalledEarlier(mac: Mac, capacity: nat, window: nat, tries: seq<Try>, k: nat, i: nat, j: nat)
    requires k < i < j < |tries| && tries[i].now <= tries[j].now && Recalled(mac, capacity, window, tries, k, j)
    ensures Recalled(mac, capacity, window, tries, k, i)
  {
    hide Outcome, RunV;
    LogPrefix(mac, capacity, window, tries, i, j);
  }

  /** Nothing with the nonce of try `i` is accepted between it and try `j`. */
  ghost predicate LastBefore(mac: Mac, capacity: nat, window: nat, tries: seq<Try>, i: nat, j: nat)
    requires i < j < |tries| && Outcome(mac, capacity, window, tries, i).Ok?
  {
    forall k: nat :: i < k < j && Outcome(mac, capacity, window, tries, k).Ok? ==>
      Outcome(mac, capacity, window, tries, k).value.nonce != Outcome(mac, capacity, window, tries, i).value.nonce
  }

  lemma NoOtherRecalled(mac: Mac, capacity: nat, window: nat, tries: seq<Try>, i: nat, j: nat, k: nat)
    requires capacity >= 1 && i < j < |tries| && SteadyBefore(tries, window, j) && k < j
    requires Outcome(mac, capacity, window, tries, i).Ok? && LastBefore(mac, capacity, window, tries, i, j)
    requires Recalled(mac, capacity, window, tries, k, j)
    requires Outcome(mac, capacity, window, tries, k).value.nonce ==
      Outcome(mac, capacity, window, tries, i).value.nonce
    ensures k == i
  {
    hide Outcome, Genuine, CheckAndInsert, ClaimsOf, RunV, Between;
    if k < i {
      OutcomeIs(mac, capacity, window, tries, i);
      SteadyEarlier(tries, window, i, j);
      AcceptedInRunIff(mac, capacity, window, tries, i);
      RecalledEarlier(mac, capacity, window, tries, k, i, j);
    }
  }

  lemma SteadyEarlier(tries: seq<Try>, window: nat, i: nat, j: nat)
    requires i < j < |tries| && SteadyBefore(tries, window, j)
    ensures SteadyBefore(tries, window, i) && tries[i].now <= tries[j].now
  {
    assert tries[..j][..i] == tries[..i];
    assert forall k :: 0 <= k < i ==> tries[..j][k] == tries[k] && tries[..j][i] == tries[i];
  }

  /**
   * When an envelope is accepted again, exactly, over every run: with its nonce not accepted
   * anew in between, its timestamp is still in the window, and either the nonce has expired
   * since or `capacity` acceptances have crowded it out.
   */
  lemma AcceptedAgainIff(mac: Mac, capacity: nat, window: nat, tries: seq<Try>, i: nat, j: nat)
    requires capacity >= 1 && i < j < |tries| && SteadyBefore(tries, window, j)
    requires tries[j] == tries[i].(now := tries[j].now)
    requires Outcome(mac, capacity, window, tries, i).Ok? && LastBefore(mac, capacity, window, tries, i, j)
    ensures Outcome(mac, capacity, window, tries, j).Ok? <==>
      && InWindow(tries[j].now, Outcome(mac, capacity, window, tries, i).value.timestamp, window)
      && (tries[j].now > tries[i].now + window || Between(mac, capacity, window, tries, i, j) >= capacity)
  {
    hide Outcome, CheckAndInsert, ClaimsOf, RunV, Between, InWindow, DeviceId, MakeEnvelope;
    OutcomeIs(mac, capacity, window, tries, i);
    AcceptedInRunIff(mac, capacity, window, tries, j);
    forall k: nat | k < j && Recalled(mac, capacity, window, tries, k, j)
      && Outcome(mac, capacity, window, tries, k).value.nonce == Outcome(mac, capacity, window, tries, i).value.nonce
      ensures k == i
    {
      NoOtherRecalled(mac, capacity, window, tries, i, j, k);
    }
  }

  /**
   * Single acceptance: on a clock that does not run backwards, an envelope accepted at a time
   * not before its timestamp is never accepted again, by any key or connection, unless it comes
   * within a window of that time and `capacity` acceptances came in between.
   */
  lemma AcceptedOnce(mac: Mac, capacity: nat, window: nat, tries: seq<Try>, i: nat, j: nat)
    requires capacity >= 1 && i < j < |tries| && SteadyBefore(tries, window, j) && tries[i].e == tries[j].e
    requires Outcome(mac, capacity, window, tries, i).Ok?
    requires Outcome(mac, capacity, window, tries, i).value.timestamp <= tries[i].now
    requires tries[j].now <= tries[i].now + window ==> Between(mac, capacity, window, tries, i, j) < capacity
    ensures Outcome(mac, capacity, window, tries, j).Err?
  {
    hide Outcome, CheckAndInsert, ClaimsOf, RunV, Between, DeviceId, MakeEnvelope;
    OutcomeIs(mac, capacity, window, tries, i);
    AcceptedInRunIff(mac, capacity, window, tries, j);
    if Genuine(mac, tries[j], window) { assert Recalled(mac, capacity, window, tries, i, j); }
  }

  /** Try `i` once more, at `later`, with nothing in between. */
  ghost function Repeated(tries: seq<Try>, i: nat, later: nat): (again: seq<Try>)
    requires i < |tries|
    ensures |again| == i + 2 && again[i + 1] == tries[i].(now := later)
  {
    tries[..i + 1] + [tries[i].(now := later)]
  }

  lemma RepeatedSame(mac: Mac, capacity: nat, window: nat, tries: seq<Try>, i: nat, later: nat)
    requires i < |tries| && SteadyBefore(tries, window, i) && tries[i].now + window + 1 < U64_LIMIT
    requires later >= tries[i].now
    ensures
      var again := Repeated(tries, i, later);
      && SteadyBefore(again, window, i + 1) && again[i] == tries[i]
      && Outcome(mac, capacity, window, again, i) == Outcome(mac, capacity, window, tries, i)
      && Between(mac, capacity, window, again, i, i + 1) == 0
  {
    var again := Repeated(tries, i, later);
    assert again[..i] == tries[..i] && again[..i + 1] == tries[..i + 1];
    assert forall k :: 0 <= k < i ==> tries[..i][k] == tries[k];
  }

  /**
   * With nothing in between, an accepted envelope can be accepted once more at some later time
   * if and only if its timestamp was ahead of the clock.
   */
  lemma AheadIff(mac: Mac, capacity: nat, window: nat, tries: seq<Try>, i: nat)
    requires capacity >= 1 && i < |tries| && SteadyBefore(tries, window, i)
    requires tries[i].now + window + 1 < U64_LIMIT && Outcome(mac, capacity, window, tries, i).Ok?
    ensures
      var timestamp := Outcome(mac, capacity, window, tries, i).value.timestamp;
      (exists later :: later >= tries[i].now && Outcome(mac, capacity, window, Repeated(tries, i, later), i + 1).Ok?)
        <==> timestamp > tries[i].now
  {
    hide Outcome, CheckAndInsert, ClaimsOf, RunV, Between, DeviceId, MakeEnvelope, Repeated, SteadyBefore;
    var now, timestamp := tries[i].now, Outcome(mac, capacity, window, tries, i).value.timestamp;
    OutcomeIs(mac, capacity, window, tries, i);
    forall later | later >= now
      ensures Outcome(mac, capacity, window, Repeated(tries, i, later), i + 1).Ok? <==>
        InWindow(later, timestamp, window) && later > now + window
    {
      RepeatedSame(mac, capacity, window, tries, i, later);
      AcceptedAgainIff(mac, capacity, window, Repeated(tries, i, later), i, i + 1);
    }
    if timestamp > now {
      assert Outcome(mac, capacity, window, Repeated(tries, i, now + window + 1), i + 1).Ok?;
    }
  }

  // ----- The two ways, at one input each -----

  ghost function Made(mac: Mac, key: seq<byte>, c: Claims, exporter: seq<byte>, now: nat): Try {
    Try(MakeEnvelope(mac, key, c, exporter), key, exporter, now)
  }

  lemma MadeIsGenuine(mac: Mac, key: seq<byte>, c: Claims, exporter: seq<byte>, now: nat, window: nat)
    requires Representable(c) && c.device != 0
    ensures
      var t := Made(mac, key, c, exporter, now);
      |t.e| == ENVELOPE_LEN && ClaimsOf(t.e) == c && (Genuine(mac, t, window) <==> InWindow(now, c.timestamp, window))
  {
    hide InWindow, Prefix, ClaimsOf;
    MadeReadsBack(mac, key, c, exporter);
  }

  /** An envelope stamped 30 seconds ahead is accepted at 100 and again at 131, at any capacity. */
  lemma AheadIsAcceptedTwice(mac: Mac, key: seq<byte>, exporter: seq<byte>, capacity: nat)
    requires capacity >= 1
    ensures
      var c := Claims(7, 130, Zeros(16));
      var tries := [Made(mac, key, c, exporter, 100), Made(mac, key, c, exporter, 131)];
      Outcome(mac, capacity, 30, tries, 0).Ok? && Outcome(mac, capacity, 30, tries, 1).Ok?
  {
    hide Outcome, RunV, MakeEnvelope, ClaimsOf, Genuine, Recalled, CheckAndInsert;
    var c := Claims(7, 130, Zeros(16));
    var tries := [Made(mac, key, c, exporter, 100), Made(mac, key, c, exporter, 131)];
    MadeIsGenuine(mac, key, c, exporter, 100, 30);
    AcceptedInRunIff(mac, capacity, 30, tries, 0);
    OutcomeIs(mac, capacity, 30, tries, 0);
    AcceptedAgainIff(mac, capacity, 30, tries, 0, 1);
  }

  /** With room for one nonce, an envelope is accepted, then another, then the first again, all at 100. */
  lemma CrowdedOutIsAcceptedTwice(mac: Mac, key: seq<byte>, exporter: seq<byte>)
    ensures
      var c, d := Claims(7, 100, Zeros(16)), Claims(7, 100, Zeros(15) + [1]);
      var first, other := Made(mac, key, c, exporter, 100), Made(mac, key, d, exporter, 100);
      var tries := [first, other, first];
      && Outcome(mac, 1, 30, tries, 0).Ok? && Outcome(mac, 1, 30, tries, 1).Ok?
      && Outcome(mac, 1, 30, tries, 2).Ok?
  {
    hide Outcome, RunV, MakeEnvelope, ClaimsOf, Genuine, Recalled, CheckAndInsert;
    var c, d := Claims(7, 100, Zeros(16)), Claims(7, 100, Zeros(15) + [1]);
    var first, other := Made(mac, key, c, exporter, 100), Made(mac, key, d, exporter, 100);
    var tries := [first, other, first];
    assert c.nonce[15] != d.nonce[15];
    MadeIsGenuine(mac, key, c, exporter, 100, 30);
    MadeIsGenuine(mac, key, d, exporter, 100, 30);
    AcceptedInRunIff(mac, 1, 30, tries, 0);
    OutcomeIs(mac, 1, 30, tries, 0);
    AcceptedInRunIff(mac, 1, 30, tries, 1);
    OutcomeIs(mac, 1, 30, tries, 1);
    AcceptedAgainIff(mac, 1, 30, tries, 0, 2);
  }
}
