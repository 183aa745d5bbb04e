/**
 * Replay protection (src/quic_auth.rs, `ReplayCache`): a map of live nonces with a queue of
 * their expiry times, against a plain log of the nonces accepted so far.
 */
module ReplayProtection {
  import opened Bytes

  type Nonce = seq<byte>

  datatype Ticket = Ticket(nonce: Nonce, expires: nat)

  datatype Cache = Cache(capacity: nat, entries: map<Nonce, nat>, order: seq<Ticket>)

  /** Take a ticket out of the map, if the map still holds it with that expiry. */
  function Forget(entries: map<Nonce, nat>, t: Ticket): map<Nonce, nat> {
    if t.nonce in entries && entries[t.nonce] == t.expires then entries - {t.nonce} else entries
  }

  /** The first loop: drop expired tickets from the front. */
  function DropExpired(c: Cache, now: nat): Cache
    decreases |c.order|
  {
    if c.order == [] || c.order[0].expires > now then c
    else DropExpired(Cache(c.capacity, Forget(c.entries, c.order[0]), c.order[1..]), now)
  }

  /** The second loop: drop the oldest tickets until one more fits. */
  function MakeRoom(c: Cache): Cache
    decreases |c.order|
  {
    if |c.entries| < c.capacity || c.order == [] then c
    else MakeRoom(Cache(c.capacity, Forget(c.entries, c.order[0]), c.order[1..]))
  }

  function CheckAndInsert(c: Cache, nonce: Nonce, now: nat, window: nat): (Cache, bool) {
    var c1 := DropExpired(c, now);
    if nonce in c1.entries then (c1, false)
    else
      var c2 := MakeRoom(c1);
      var expires := SaturatingAdd64(SaturatingAdd64(now, window), 1);
      (Cache(c2.capacity, c2.entries[nonce := expires], c2.order + [Ticket(nonce, expires)]), true)
  }

  class ReplayCache {
    const capacity: nat
    var entries: map<Nonce, nat>
    var order: seq<Ticket>

    function State(): Cache
      reads this
    {
      Cache(capacity, entries, order)
    }

    constructor (capacity: nat)
      requires capacity > 0
      ensures State() == Cache(capacity, map[], [])
    {
      this.capacity, entries, order := capacity, map[], [];
    }

    method TryInsert(nonce: Nonce, now: nat, window: nat) returns (accepted: bool)
      modifies this`entries, this`order
      ensures (State(), accepted) == CheckAndInsert(old(State()), nonce, now, window)
    {
      while order != [] && order[0].expires <= now
        invariant DropExpired(State(), now) == DropExpired(old(State()), now)
        decreases |order|
      {
        var front := order[0];
        order := order[1..];
        if front.nonce in entries && entries[front.nonce] == front.expires {
          entries := entries - {front.nonce};
        }
      }
      ghost var kept := State();
      if nonce in entries { return false; }
      while |entries| >= capacity
        invariant MakeRoom(State()) == MakeRoom(kept)
        decreases |order|
      {
        if order == [] { break; }
        var front := order[0];
        order := order[1..];
        if front.nonce in entries && entries[front.nonce] == front.expires {
          entries := entries - {front.nonce};
        }
      }
      var expires := SaturatingAdd64(SaturatingAdd64(now, window), 1);
      entries := entries[nonce := expires];
      order := order + [Ticket(nonce, expires)];
      return true;
    }
  }

  // ----- The queue is exactly the map -----

  ghost predicate DistinctNonces(order: seq<Ticket>) {
    forall i, j :: 0 <= i < j < |order| ==> order[i].nonce != order[j].nonce
  }

  ghost function Nonces(order: seq<Ticket>): set<Nonce> {
    set t | t in order :: t.nonce
  }

  /** The map holds exactly the queue's tickets. */
  ghost predicate Agree(entries: map<Nonce, nat>, order: seq<Ticket>) {
    && entries.Keys == Nonces(order)
    && forall i :: 0 <= i < |order| ==> order[i].nonce in entries && entries[order[i].nonce] == order[i].expires
  }

  ghost predicate Consistent(c: Cache) {
    DistinctNonces(c.order) && Agree(c.entries, c.order) && 1 <= c.capacity && |c.order| <= c.capacity
  }

  lemma {:induction false} CountNonces(order: seq<Ticket>)
    requires DistinctNonces(order)
    ensures |Nonces(order)| == |order|
  {
    if order != [] {
      var init, last := order[..|order| - 1], order[|order| - 1];
      CountNonces(init);
      assert order == init + [last];
      assert last.nonce !in Nonces(init);
      assert Nonces(order) == Nonces(init) + {last.nonce};
    }
  }

  /** Dropping the front ticket keeps the queue and the map the same. */
  lemma FrontDropped(c: Cache)
    requires Consistent(c) && c.order != []
    ensures Consistent(Cache(c.capacity, Forget(c.entries, c.order[0]), c.order[1..]))
  {
    var rest := c.order[1..];
    assert c.order == [c.order[0]] + rest;
    assert c.order[0].nonce !in Nonces(rest);
    assert Nonces(c.order) == Nonces(rest) + {c.order[0].nonce};
    assert Forget(c.entries, c.order[0]) == c.entries - {c.order[0].nonce};
  }

  ghost predicate Sorted(order: seq<Ticket>) {
    forall i, j :: 0 <= i < j < |order| ==> order[i].expires <= order[j].expires
  }

  /** With a sorted queue the first loop leaves exactly the unexpired tickets. */
  lemma {:induction false} DropExpiredIs(c: Cache, now: nat) returns (n: nat)
    requires Consistent(c) && Sorted(c.order)
    ensures n <= |c.order| && Consistent(DropExpired(c, now))
    ensures DropExpired(c, now).order == c.order[n..] && DropExpired(c, now).capacity == c.capacity
    ensures forall i :: 0 <= i < |c.order| ==> (c.order[i].expires > now <==> i >= n)
    decreases |c.order|
  {
    hide Agree, DistinctNonces, Forget;
    if c.order == [] || c.order[0].expires > now {
      n := 0;
      assert c.order[0..] == c.order;
    } else {
      FrontDropped(c);
      var rest := Cache(c.capacity, Forget(c.entries, c.order[0]), c.order[1..]);
      var m := DropExpiredIs(rest, now);
      n := m + 1;
      assert c.order[1..][m..] == c.order[n..];
      forall i | 0 <= i < |c.order| ensures c.order[i].expires > now <==> i >= n {
        if i > 0 { assert c.order[1..][i - 1] == c.order[i]; }
      }
    }
  }

  /** A full cache drops exactly its oldest ticket. */
  lemma MakeRoomIs(c: Cache)
    requires Consistent(c)
    ensures MakeRoom(c).order == (if |c.order| < c.capacity then c.order else c.order[1..])
    ensures Consistent(MakeRoom(c)) && |MakeRoom(c).order| < c.capacity == MakeRoom(c).capacity
  {
    CountNonces(c.order);
    assert |c.entries.Keys| == |c.entries|;
    if |c.order| >= c.capacity {
      FrontDropped(c);
      var c1 := Cache(c.capacity, Forget(c.entries, c.order[0]), c.order[1..]);
      CountNonces(c1.order);
      assert |c1.entries.Keys| == |c1.entries|;
      assert MakeRoom(c) == MakeRoom(c1) && MakeRoom(c1) == c1;
    }
  }

  lemma Pushed(c: Cache, t: Ticket)
    requires Consistent(c) && t.nonce !in c.entries && |c.order| < c.capacity
    ensures Consistent(Cache(c.capacity, c.entries[t.nonce := t.expires], c.order + [t]))
  {
    var order := c.order + [t];
    assert Nonces(order) == Nonces(c.order) + {t.nonce};
    assert forall i :: 0 <= i < |c.order| ==> c.order[i].nonce in c.entries;
  }

  // ----- Against the log -----

  datatype Accepted = Accepted(nonce: Nonce, at: nat)

  ghost function Tickets(log: seq<Accepted>, window: nat): (s: seq<Ticket>)
    ensures |s| == |log|
  {
    seq(|log|, i requires 0 <= i < |log| => Ticket(log[i].nonce, log[i].at + window + 1))
  }

  ghost predicate Live(a: Accepted, now: nat, window: nat) { a.at + window + 1 > now }

  /** The reference rule: is this nonce among the last `capacity` acceptances and unexpired? */
  ghost predicate Remembered(log: seq<Accepted>, capacity: nat, nonce: Nonce, now: nat, window: nat) {
    exists i :: 0 <= i < |log| && i + capacity >= |log| && log[i].nonce == nonce && Live(log[i], now, window)
  }

  ghost predicate Chronological(log: seq<Accepted>, clock: nat) {
    && (forall i, j :: 0 <= i < j < |log| ==> log[i].at <= log[j].at)
    && (forall i :: 0 <= i < |log| ==> log[i].at <= clock)
  }

  /** The cache holds the acceptances from `from` on; those before are expired or beyond capacity. */
  ghost predicate Mirrors(c: Cache, log: seq<Accepted>, from: nat, clock: nat, window: nat) {
    && from <= |log| && Consistent(c) && Chronological(log, clock)
    && c.order == Tickets(log[from..], window)
    && forall i :: 0 <= i < from && i + c.capacity >= |log| ==> !Live(log[i], clock, window)
  }

  lemma TicketsDrop(log: seq<Accepted>, from: nat, n: nat, window: nat)
    requires from + n <= |log|
    ensures Tickets(log[from..], window)[n..] == Tickets(log[from + n..], window)
  {
    assert log[from..][n..] == log[from + n..];
  }

  lemma MirrorSorted(c: Cache, log: seq<Accepted>, from: nat, clock: nat, window: nat)
    requires Mirrors(c, log, from, clock, window)
    ensures Sorted(c.order)
  {
  }

  /** After the first loop the cache holds exactly the live ones of the last `capacity` acceptances. */
  lemma ExpiryMirrors(c: Cache, log: seq<Accepted>, from: nat, clock: nat, now: nat, window: nat) returns (from': nat)
    requires Mirrors(c, log, from, clock, window) && clock <= now
    ensures Mirrors(DropExpired(c, now), log, from', now, window) && DropExpired(c, now).capacity == c.capacity
    ensures forall i :: from' <= i < |log| ==> Live(log[i], now, window)
  {
    hide DropExpired, Sorted, Consistent, Nonces;
    MirrorSorted(c, log, from, clock, window);
    assert Consistent(c);
    var n := DropExpiredIs(c, now);
    from' := from + n;
    TicketsDrop(log, from, n, window);
    forall i | from <= i < |log| ensures Live(log[i], now, window) <==> i >= from' {
      assert c.order[i - from] == Ticket(log[i].nonce, log[i].at + window + 1);
    }
  }

  lemma RememberedIffHeld(c: Cache, log: seq<Accepted>, from: nat, now: nat, window: nat, nonce: Nonce)
    requires Mirrors(c, log, from, now, window) && forall i :: from <= i < |log| ==> Live(log[i], now, window)
    ensures nonce in c.entries <==> Remembered(log, c.capacity, nonce, now, window)
  {
    hide Chronological, DistinctNonces;
    if nonce in c.entries {
      var t :| t in c.order && t.nonce == nonce;
      var i :| 0 <= i < |c.order| && c.order[i] == t;
      assert log[from + i].nonce == nonce && Live(log[from + i], now, window);
    }
    if Remembered(log, c.capacity, nonce, now, window) {
      var i :| 0 <= i < |log| && i + c.capacity >= |log| && log[i].nonce == nonce && Live(log[i], now, window);
      assert i >= from;
      assert c.order[i - from] == Ticket(log[i].nonce, log[i].at + window + 1);
    }
  }

  lemma LogGrows(log: seq<Accepted>, from: nat, a: Accepted, window: nat)
    requires from <= |log|
    ensures Tickets((log + [a])[from..], window) == Tickets(log[from..], window) + [Ticket(a.nonce, a.at + window + 1)]
  {
    assert (log + [a])[from..] == log[from..] + [a];
  }

  lemma MakeRoomTakesNone(c: Cache, nonce: Nonce)
    requires Consistent(c) && nonce !in c.entries
    ensures nonce !in MakeRoom(c).entries
  {
    hide MakeRoom, DistinctNonces;
    MakeRoomIs(c);
    assert Nonces(MakeRoom(c).order) <= Nonces(c.order);
  }

  /** Making room drops the oldest acceptance at most, and only if `capacity` others follow it. */
  lemma RoomMirrors(c: Cache, log: seq<Accepted>, from: nat, now: nat, window: nat) returns (from': nat)
    requires Mirrors(c, log, from, now, window)
    ensures from <= from' <= |log| && MakeRoom(c).order == Tickets(log[from'..], window)
    ensures from' > from ==> from' == from + 1 && from + c.capacity <= |log|
  {
    hide MakeRoom, Tickets, DistinctNonces, Agree, Chronological;
    MakeRoomIs(c);
    var n := if |c.order| < c.capacity then 0 else 1;
    from' := from + n;
    assert c.order[0..] == c.order;
    TicketsDrop(log, from, n, window);
  }

  lemma InsertMirrors(c: Cache, log: seq<Accepted>, from: nat, now: nat, window: nat, nonce: Nonce) returns (from': nat)
    requires Mirrors(c, log, from, now, window) && nonce !in c.entries
    ensures
      var c2 := MakeRoom(c);
      var t := Ticket(nonce, now + window + 1);
      Mirrors(Cache(c2.capacity, c2.entries[nonce := t.expires], c2.order + [t]), log + [Accepted(nonce, now)],
              from', now, window)
      && c2.capacity == c.capacity
  {
    hide MakeRoom, Tickets, Consistent;
    assert Consistent(c);
    MakeRoomIs(c);
    from' := RoomMirrors(c, log, from, now, window);
    MakeRoomTakesNone(c, nonce);
    Pushed(MakeRoom(c), Ticket(nonce, now + window + 1));
    LogGrows(log, from', Accepted(nonce, now), window);
  }

  /** The decision alone, which no saturating expiry can spoil. */
  lemma CheckDecides(c: Cache, log: seq<Accepted>, from: nat, clock: nat, nonce: Nonce, now: nat, window: nat)
    requires Mirrors(c, log, from, clock, window) && clock <= now
    ensures CheckAndInsert(c, nonce, now, window).1 <==> !Remembered(log, c.capacity, nonce, now, window)
  {
    hide Mirrors, Remembered, MakeRoom, DropExpired;
    var m := ExpiryMirrors(c, log, from, clock, now, window);
    RememberedIffHeld(DropExpired(c, now), log, m, now, window, nonce);
  }

  /** One check, on a cache that mirrors its log and a clock that does not run backwards. */
  lemma CheckRefines(c: Cache, log: seq<Accepted>, from: nat, clock: nat, nonce: Nonce, now: nat, window: nat)
    returns (from': nat)
    requires Mirrors(c, log, from, clock, window) && clock <= now && now + window + 1 < U64_LIMIT
    ensures
      var (c', accepted) := CheckAndInsert(c, nonce, now, window);
      && (accepted <==> !Remembered(log, c.capacity, nonce, now, window))
      && Mirrors(c', if accepted then log + [Accepted(nonce, now)] else log, from', now, window)
      && c'.capacity == c.capacity
  {
    hide Mirrors, Remembered, MakeRoom, DropExpired;
    var m := ExpiryMirrors(c, log, from, clock, now, window);
    var c1 := DropExpired(c, now);
    RememberedIffHeld(c1, log, m, now, window, nonce);
    if nonce in c1.entries {
      from' := m;
    } else {
      from' := InsertMirrors(c1, log, m, now, window, nonce);
    }
  }

  // ----- Runs -----

  datatype Attempt = Attempt(nonce: Nonce, now: nat)

  ghost function Run(capacity: nat, window: nat, attempts: seq<Attempt>): (Cache, seq<Accepted>) {
    if attempts == [] then (Cache(capacity, map[], []), [])
    else
      var (c, log) := Run(capacity, window, attempts[..|attempts| - 1]);
      var a := attempts[|attempts| - 1];
      var (c', accepted) := CheckAndInsert(c, a.nonce, a.now, window);
      (c', if accepted then log + [Accepted(a.nonce, a.now)] else log)
  }

  /** The clock does not run backwards, and no expiry saturates. */
  ghost predicate SteadyClock(attempts: seq<Attempt>, window: nat) {
    && (forall i, j :: 0 <= i < j < |attempts| ==> attempts[i].now <= attempts[j].now)
    && (forall i :: 0 <= i < |attempts| ==> attempts[i].now + window + 1 < U64_LIMIT)
  }

  ghost function Clock(attempts: seq<Attempt>): nat {
    if attempts == [] then 0 else attempts[|attempts| - 1].now
  }

  lemma {:induction false} RunMirrors(capacity: nat, window: nat, attempts: seq<Attempt>) returns (from: nat)
    requires capacity >= 1 && SteadyClock(attempts, window)
    ensures var (c, log) := Run(capacity, window, attempts);
      c.capacity == capacity && Mirrors(c, log, from, Clock(attempts), window)
  {
    hide CheckAndInsert, Remembered;
    if attempts == [] {
      from := 0;
    } else {
      hide Mirrors;
      var init, a := attempts[..|attempts| - 1], attempts[|attempts| - 1];
      var m := RunMirrors(capacity, window, init);
      var (c, log) := Run(capacity, window, init);
      from := CheckRefines(c, log, m, Clock(init), a.nonce, a.now, window);
    }
  }

  /**
   * Refinement, over every run: the queue is exactly the map's entries, sorted by expiry and
   * no longer than `capacity`; and the next nonce is accepted exactly when it is not one of
   * the last `capacity` accepted nonces still unexpired.
   */
  lemma CacheRefinesLog(capacity: nat, window: nat, attempts: seq<Attempt>, nonce: Nonce, now: nat)
    requires capacity >= 1 && SteadyClock(attempts + [Attempt(nonce, now)], window)
    ensures
      var (c, log) := Run(capacity, window, attempts);
      && Agree(c.entries, c.order) && DistinctNonces(c.order) && Sorted(c.order) && |c.order| <= capacity
      && (CheckAndInsert(c, nonce, now, window).1 <==> !Remembered(log, capacity, nonce, now, window))
  {
    var all := attempts + [Attempt(nonce, now)];
    assert all[..|attempts|] == attempts && all[|attempts|] == Attempt(nonce, now);
    assert SteadyClock(attempts, window) by {
      assert forall i :: 0 <= i < |attempts| ==> all[i] == attempts[i];
    }
    var from := RunMirrors(capacity, window, attempts);
    var (c, log) := Run(capacity, window, attempts);
    MirrorSorted(c, log, from, Clock(attempts), window);
    assert Clock(attempts) <= now by {
      if attempts != [] { assert all[|attempts| - 1] == attempts[|attempts| - 1]; }
    }
    var from' := CheckRefines(c, log, from, Clock(attempts), nonce, now, window);
  }
}
