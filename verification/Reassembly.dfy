/**
 * A table of half-received messages, as the FEC decoder and the QUIC carrier both keep one,
 * and the proof that it holds exactly what the ledger of arrivals and sweeps says.
 */
module Reassembly {
  import opened Bytes
  import opened Erasure
  import opened Ledger

  datatype Partial = Partial(created: nat, parts: View)

  type Table = map<nat, Partial>

  function Holes(n: nat): (v: View)
    ensures |v| == n && forall i :: 0 <= i < n ==> v[i] == None
  {
    seq(n, i => None)
  }

  predicate AllPresent(parts: View) {
    forall i :: 0 <= i < |parts| ==> parts[i].Some?
  }

  function Join(parts: View): seq<byte>
    requires AllPresent(parts)
  {
    if parts == [] then [] else Join(parts[..|parts| - 1]) + parts[|parts| - 1].value
  }

  /** What is less than `ttl` old. */
  function Young(table: Table, now: nat, ttl: nat): Table {
    map id | id in table && SaturatingSub(now, table[id].created) < ttl :: table[id]
  }

  /** The reassembly a part belongs to, made anew when there is none. */
  function Opened(table: Table, id: nat, count: nat, now: nat): Partial {
    if id in table then table[id] else Partial(now, Holes(count))
  }

  /** The table with the parts of `id` replaced, or dropped once they are complete. */
  function Settled(table: Table, id: nat, p: Partial): Table {
    if AllPresent(p.parts) then table - {id} else table[id := p]
  }

  // ----- The table is the ledger -----

  /** The parts of every message that may arrive. */
  type Words = nat -> seq<seq<byte>>

  ghost function Sizes(words: Words): nat -> nat {
    (id: nat) => |words(id)|
  }

  ghost predicate PartsMatch(parts: View, got: set<nat>) {
    forall x: nat :: x < |parts| ==> (parts[x].Some? <==> x in got)
  }

  ghost predicate PartialIs(p: Partial, h: Holding, word: seq<seq<byte>>) {
    h.Holding? && p.created == h.since && Agrees(p.parts, word) && PartsMatch(p.parts, h.got)
  }

  ghost predicate Kept(words: Words, table: Table, log: seq<Mark>, ttl: nat, id: nat) {
    var h := Account(log, id, |words(id)|, ttl);
    (id in table <==> h.Holding?) && (id in table ==> PartialIs(table[id], h, words(id)))
  }

  ghost predicate AllKept(words: Words, table: Table, log: seq<Mark>, ttl: nat) {
    InRange(log, Sizes(words)) && forall id: nat :: Kept(words, table, log, ttl, id)
  }

  lemma {:induction false} JoinIsConcat(parts: View, word: seq<seq<byte>>)
    requires Agrees(parts, word) && AllPresent(parts)
    ensures Join(parts) == Concat(word)
  {
    if parts != [] {
      var n := |parts| - 1;
      JoinIsConcat(parts[..n], word[..n]);
      ConcatAppend(word[..n], [word[n]]);
      assert word == word[..n] + [word[n]];
      assert Concat([word[n]]) == word[n] + Concat([]);
    }
  }

  lemma FullIffAllPresent(parts: View, got: set<nat>, n: nat)
    requires |parts| == n && PartsMatch(parts, got) && got <= UpTo(n)
    ensures AllPresent(parts) <==> |got| >= n
  {
    SubsetFull(got, n);
    if AllPresent(parts) {
      assert forall x: nat :: x in UpTo(n) ==> x in got;
    }
    if got == UpTo(n) {
      forall x: nat | x < n ensures parts[x].Some? { assert x in UpTo(n); }
    }
  }

  lemma SweepKept(words: Words, table: Table, log: seq<Mark>, ttl: nat, now: nat)
    requires AllKept(words, table, log, ttl)
    ensures AllKept(words, Young(table, now, ttl), log + [Sweep(now)], ttl)
  {
    hide Account, PartsMatch, Agrees;
    forall id: nat ensures Kept(words, Young(table, now, ttl), log + [Sweep(now)], ttl, id) {
      assert Kept(words, table, log, ttl, id);
      AccountSnoc(log, Sweep(now), id, |words(id)|, ttl);
    }
  }

  /** The reassembly met by part `index` of `id`, in the ledger's words. */
  lemma OpenedIs(words: Words, table: Table, log: seq<Mark>, ttl: nat, id: nat, index: nat, now: nat)
    requires AllKept(words, table, log, ttl) && index < |words(id)|
    ensures
      var p, got := Opened(table, id, |words(id)|, now), Gathered(Account(log, id, |words(id)|, ttl));
      && |p.parts| == |words(id)| && Agrees(p.parts, words(id)) && PartsMatch(p.parts, got)
      && got + {index} <= UpTo(|words(id)|)
  {
    hide Account, UpTo;
    assert Kept(words, table, log, ttl, id);
    GatheredInRange(log, id, Sizes(words), ttl);
  }

  lemma FilledIs(p: Partial, word: seq<seq<byte>>, got: set<nat>, index: nat)
    requires Agrees(p.parts, word) && PartsMatch(p.parts, got) && index < |word| && got + {index} <= UpTo(|word|)
    ensures
      var parts := p.parts[index := Some(word[index])];
      && Agrees(parts, word) && PartsMatch(parts, got + {index}) && (AllPresent(parts) <==> |got + {index}| >= |word|)
      && (AllPresent(parts) ==> Join(parts) == Concat(word))
  {
    hide UpTo, Join, Concat, AllPresent;
    var parts := p.parts[index := Some(word[index])];
    FullIffAllPresent(parts, got + {index}, |word|);
    if AllPresent(parts) { JoinIsConcat(parts, word); }
  }

  /** One part and one message: the table moves on as the ledger does. */
  lemma PutKeptAt(words: Words, table: Table, log: seq<Mark>, ttl: nat, id: nat, index: nat, now: nat, x: nat)
    requires AllKept(words, table, log, ttl) && index < |words(id)|
    requires
      var p := Opened(table, id, |words(id)|, now);
      |p.parts| == |words(id)|
    ensures
      var p := Opened(table, id, |words(id)|, now);
      var parts := p.parts[index := Some(words(id)[index])];
      Kept(words, Settled(table, id, p.(parts := parts)), log + [Put(Part(id, index), now)], ttl, x)
  {
    hide Account, UpTo, PartsMatch, Agrees, Join, Concat, AllPresent;
    assert Kept(words, table, log, ttl, x);
    AccountSnoc(log, Put(Part(id, index), now), x, |words(x)|, ttl);
    if x == id {
      OpenedIs(words, table, log, ttl, id, index, now);
      var p := Opened(table, id, |words(id)|, now);
      FilledIs(p, words(id), Gathered(Account(log, id, |words(id)|, ttl)), index);
    }
  }

  /** One part: the table moves on as the ledger does, and a message that completes is joined whole. */
  lemma PutKept(words: Words, table: Table, log: seq<Mark>, ttl: nat, id: nat, index: nat, now: nat)
    requires AllKept(words, table, log, ttl) && index < |words(id)|
    ensures
      var p := Opened(table, id, |words(id)|, now);
      && |p.parts| == |words(id)|
      && var parts, m := p.parts[index := Some(words(id)[index])], Put(Part(id, index), now);
         && AllKept(words, Settled(table, id, p.(parts := parts)), log + [m], ttl)
         && (AllPresent(parts) <==> Completes(log, m, |words(id)|, ttl))
         && (AllPresent(parts) ==> Join(parts) == Concat(words(id)))
  {
    hide Account, UpTo, PartsMatch, Agrees, Join, Concat, AllPresent, Kept, Settled;
    var m, p := Put(Part(id, index), now), Opened(table, id, |words(id)|, now);
    OpenedIs(words, table, log, ttl, id, index, now);
    FilledIs(p, words(id), Gathered(Account(log, id, |words(id)|, ttl)), index);
    var table' := Settled(table, id, p.(parts := p.parts[index := Some(words(id)[index])]));
    forall x: nat ensures Kept(words, table', log + [m], ttl, x) {
      PutKeptAt(words, table, log, ttl, id, index, now, x);
    }
  }

  lemma NothingKept(words: Words, ttl: nat)
    ensures AllKept(words, map[], [], ttl)
  {
    forall id: nat ensures Kept(words, map[], [], ttl, id) {}
  }
}
