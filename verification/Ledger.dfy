/**
 * The reference account of reassembly, shared by the FEC decoder and the QUIC carrier: a
 * message is complete when each of its parts has arrived since it was last completed or
 * swept away. No buffers, no bytes, only which parts arrived and when sweeps were made.
 */
module Ledger {
  import opened Bytes

  datatype Part = Part(id: nat, index: nat)

  /** A sweep forgets every message whose first part is `ttl` old; a put is one part arriving. */
  datatype Mark = Sweep(now: nat) | Put(part: Part, now: nat)

  datatype Holding = Nothing | Holding(since: nat, got: set<nat>)

  ghost function Gathered(h: Holding): set<nat> {
    if h.Holding? then h.got else {}
  }

  /** What one more mark does to the holding of a message `id` of `n` parts. */
  ghost function Marked(h: Holding, m: Mark, id: nat, n: nat, ttl: nat): Holding {
    match m
    case Sweep(now) => if h.Holding? && SaturatingSub(now, h.since) >= ttl then Nothing else h
    case Put(part, now) =>
      if part.id != id then h
      else if |Gathered(h) + {part.index}| >= n then Nothing
      else Holding(if h.Holding? then h.since else now, Gathered(h) + {part.index})
  }

  /** What is held of message `id` after `log`. */
  ghost function Account(log: seq<Mark>, id: nat, n: nat, ttl: nat): Holding {
    if log == [] then Nothing
    else Marked(Account(log[..|log| - 1], id, n, ttl), log[|log| - 1], id, n, ttl)
  }

  /** Whether the mark `m` after `log` completes a message of `n` parts. */
  ghost predicate Completes(log: seq<Mark>, m: Mark, n: nat, ttl: nat) {
    m.Put? && |Gathered(Account(log, m.part.id, n, ttl)) + {m.part.index}| >= n
  }

  /** The messages completed by `log`, in order of completion. */
  ghost function Done(log: seq<Mark>, sizes: nat -> nat, ttl: nat): seq<nat> {
    if log == [] then []
    else
      var before, m := log[..|log| - 1], log[|log| - 1];
      Done(before, sizes, ttl) + (if m.Put? && Completes(before, m, sizes(m.part.id), ttl) then [m.part.id] else [])
  }

  lemma AccountSnoc(log: seq<Mark>, m: Mark, id: nat, n: nat, ttl: nat)
    ensures Account(log + [m], id, n, ttl) == Marked(Account(log, id, n, ttl), m, id, n, ttl)
  {
    assert (log + [m])[..|log|] == log;
  }

  lemma DoneSnoc(log: seq<Mark>, m: Mark, sizes: nat -> nat, ttl: nat)
    ensures Done(log + [m], sizes, ttl) == Done(log, sizes, ttl) +
      (if m.Put? && Completes(log, m, sizes(m.part.id), ttl) then [m.part.id] else [])
  {
    assert (log + [m])[..|log|] == log;
  }

  ghost predicate Distinct<T(!new)>(s: seq<T>) {
    forall i, j :: 0 <= i < j < |s| ==> s[i] != s[j]
  }

  ghost function Indices(log: seq<Mark>, id: nat): set<nat> {
    set m | m in log && m.Put? && m.part.id == id :: m.part.index
  }

  lemma IndicesSnoc(log: seq<Mark>, m: Mark, id: nat)
    ensures Indices(log + [m], id) == Indices(log, id) + (if m.Put? && m.part.id == id then {m.part.index} else {})
  {
  }

  ghost function UpTo(n: nat): (s: set<nat>)
    ensures forall i: nat :: i in s <==> i < n
    ensures |s| == n
  {
    if n == 0 then {} else UpTo(n - 1) + {n - 1}
  }

  /** A subset of `UpTo(n)` with `n` elements is all of it. */
  lemma SubsetFull(s: set<nat>, n: nat)
    requires s <= UpTo(n)
    ensures |s| <= n && (|s| >= n <==> s == UpTo(n))
  {
    var rest := UpTo(n) - s;
    assert s + rest == UpTo(n);
    assert |s| + |rest| == n;
  }

  lemma SubsetSize<T>(a: set<T>, b: set<T>)
    requires a <= b
    ensures |a| <= |b|
  {
    assert b == a + (b - a) && a !! (b - a);
  }

  lemma SubsetSameSize<T>(a: set<T>, b: set<T>)
    requires a <= b && |a| == |b|
    ensures a == b
  {
    if a != b {
      var x :| x in b && x !in a;
      assert a <= b - {x};
      SubsetSize(a, b - {x});
    }
  }

  ghost predicate InRange(log: seq<Mark>, sizes: nat -> nat) {
    forall m :: m in log && m.Put? ==> m.part.index < sizes(m.part.id)
  }

  lemma {:induction false} GatheredInRange(log: seq<Mark>, id: nat, sizes: nat -> nat, ttl: nat)
    requires InRange(log, sizes)
    ensures Gathered(Account(log, id, sizes(id), ttl)) <= UpTo(sizes(id))
    ensures sizes(id) >= 1 ==> |Gathered(Account(log, id, sizes(id), ttl))| < sizes(id)
  {
    if log != [] {
      GatheredInRange(log[..|log| - 1], id, sizes, ttl);
    }
  }

  lemma IndicesInRange(log: seq<Mark>, id: nat, sizes: nat -> nat)
    requires InRange(log, sizes)
    ensures Indices(log, id) <= UpTo(sizes(id))
    ensures |Indices(log, id)| >= sizes(id) <==> Indices(log, id) == UpTo(sizes(id))
  {
    assert Indices(log, id) <= UpTo(sizes(id));
    SubsetFull(Indices(log, id), sizes(id));
  }

  // ----- A message whose parts all come before it is swept away -----

  /** Some sweep forgot parts of `id`. */
  ghost predicate Lapsed(log: seq<Mark>, id: nat, n: nat, ttl: nat) {
    log != [] &&
    var before, m := log[..|log| - 1], log[|log| - 1];
    || Lapsed(before, id, n, ttl)
    || (m.Sweep? && Marked(Account(before, id, n, ttl), m, id, n, ttl) != Account(before, id, n, ttl))
  }

  /** No part of `id` came after a lapse, or after all its parts. */
  ghost predicate Clean(log: seq<Mark>, id: nat, n: nat, ttl: nat) {
    log == [] ||
    var before, m := log[..|log| - 1], log[|log| - 1];
    && Clean(before, id, n, ttl)
    && (m.Put? && m.part.id == id ==> !Lapsed(before, id, n, ttl) && |Indices(before, id)| < n)
  }

  lemma CleanSnoc(log: seq<Mark>, m: Mark, id: nat, n: nat, ttl: nat)
    ensures Clean(log + [m], id, n, ttl) <==>
      && Clean(log, id, n, ttl)
      && (m.Put? && m.part.id == id ==> !Lapsed(log, id, n, ttl) && |Indices(log, id)| < n)
    ensures Lapsed(log + [m], id, n, ttl) <==>
      || Lapsed(log, id, n, ttl)
      || (m.Sweep? && Account(log + [m], id, n, ttl) != Account(log, id, n, ttl))
  {
    AccountSnoc(log, m, id, n, ttl);
    assert (log + [m])[..|log|] == log;
  }

  /**
   * A clean message is completed once if all its parts came and otherwise not at all; until
   * then, and unless it has lapsed, what is held of it is everything that came.
   */
  lemma {:induction false} CleanOnce(log: seq<Mark>, id: nat, sizes: nat -> nat, ttl: nat)
    requires Clean(log, id, sizes(id), ttl) && InRange(log, sizes) && sizes(id) >= 1
    ensures
      var got, full := Indices(log, id), |Indices(log, id)| >= sizes(id);
      && multiset(Done(log, sizes, ttl))[id] == (if full then 1 else 0)
      && (full || Lapsed(log, id, sizes(id), ttl) ==> Account(log, id, sizes(id), ttl) == Nothing)
      && (!full && !Lapsed(log, id, sizes(id), ttl) ==> Gathered(Account(log, id, sizes(id), ttl)) == got)
  {
    if log != [] {
      var before, m := log[..|log| - 1], log[|log| - 1];
      assert log == before + [m];
      CleanOnce(before, id, sizes, ttl);
      IndicesSnoc(before, m, id);
      CleanSnoc(before, m, id, sizes(id), ttl);
      AccountSnoc(before, m, id, sizes(id), ttl);
      DoneSnoc(before, m, sizes, ttl);
    }
  }

  /** While some part of a message has not come, not all have. */
  lemma OneMissing(log: seq<Mark>, id: nat, index: nat, sizes: nat -> nat)
    requires InRange(log, sizes) && index < sizes(id) && index !in Indices(log, id)
    ensures |Indices(log, id)| < sizes(id)
  {
    IndicesInRange(log, id, sizes);
    SubsetFull(Indices(log, id), sizes(id));
    assert index in UpTo(sizes(id));
  }

  /** One more part, new to its message if that is `id`. */
  lemma CleanPut(log: seq<Mark>, part: Part, now: nat, id: nat, sizes: nat -> nat, ttl: nat)
    requires Clean(log, id, sizes(id), ttl) && InRange(log, sizes) && part.index < sizes(part.id)
    requires part.id == id ==> !Lapsed(log, id, sizes(id), ttl) && part.index !in Indices(log, id)
    ensures
      var log', n := log + [Put(part, now)], sizes(id);
      && Clean(log', id, n, ttl) && InRange(log', sizes) && (Lapsed(log', id, n, ttl) <==> Lapsed(log, id, n, ttl))
      && Indices(log', id) == Indices(log, id) + (if part.id == id then {part.index} else {})
      && (Account(log', id, n, ttl).Holding? ==>
            if Account(log, id, n, ttl).Holding? then Account(log', id, n, ttl).since == Account(log, id, n, ttl).since
            else part.id == id && Account(log', id, n, ttl).since == now)
  {
    hide Account, Clean, Lapsed, Indices;
    var m := Put(part, now);
    if part.id == id { OneMissing(log, id, part.index, sizes); }
    CleanSnoc(log, m, id, sizes(id), ttl);
    AccountSnoc(log, m, id, sizes(id), ttl);
    IndicesSnoc(log, m, id);
  }
}
