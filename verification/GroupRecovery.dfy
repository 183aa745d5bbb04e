/**
 * One FEC group at the decoder: whatever subset of its frames arrives, in whatever order,
 * its data shards come out once each, as soon as they arrive or enough of the group has.
 */
module GroupRecovery {
  import opened Bytes
  import opened Fragments
  import opened Erasure
  import opened FecEncoder
  import opened FecDecoder
  import opened Ledger

  /** The erasure code corrects every shape of group the encoder emits. */
  ghost predicate HonestCode(code: Code) {
    forall d, p :: 1 <= p <= 4 && p <= d <= DATA_SHARDS ==> Corrects(code, d, p)
  }

  /** The codeword of a block: what the decoder may rely on about it. */
  ghost predicate GoodWord(code: Code, word: seq<seq<byte>>, data: nat, parity: nat) {
    && |word| == data + parity
    && (forall i :: 0 <= i < |word| ==> FRAGMENT_HEADER <= |word[i]| <= SHARD)
    && (parity > 0 ==> forall view :: Agrees(view, word) && |Present(view)| >= data ==>
          code.reconstruct(data, parity, view) == Some(word))
  }

  // ----- Soundness: only the block's own shards, whatever was lost or forgotten -----

  ghost predicate GroupSound(g: Group, word: seq<seq<byte>>, data: nat, parity: nat) {
    WfGroup(g) && g.data == data && g.parity == parity && Agrees(g.shards, word)
  }

  /** The payloads of `word` at the positions `js`. */
  ghost function Pick(word: seq<seq<byte>>, js: seq<nat>): (s: seq<seq<byte>>)
    requires forall i :: 0 <= i < |js| ==> js[i] < |word|
    ensures |s| == |js|
  {
    seq(|js|, i requires 0 <= i < |js| => word[js[i]])
  }

  ghost function Pending(delivered: seq<bool>): seq<nat> {
    if delivered == [] then []
    else
      var n := |delivered| - 1;
      Pending(delivered[..n]) + (if delivered[n] then [] else [n])
  }

  lemma {:induction false} PendingMeans(delivered: seq<bool>)
    ensures forall i :: 0 <= i < |Pending(delivered)| ==> Pending(delivered)[i] < |delivered|
    ensures forall j: nat :: j in Pending(delivered) <==> j < |delivered| && !delivered[j]
    ensures Distinct(Pending(delivered))
  {
    if delivered != [] {
      var n := |delivered| - 1;
      PendingMeans(delivered[..n]);
    }
  }

  lemma {:induction false} UndeliveredIsPick(word: seq<seq<byte>>, delivered: seq<bool>)
    requires |delivered| <= |word|
    ensures forall i :: 0 <= i < |Pending(delivered)| ==> Pending(delivered)[i] < |delivered|
    ensures Undelivered(word, delivered) == Pick(word, Pending(delivered))
  {
    PendingMeans(delivered);
    if delivered != [] {
      var n := |delivered| - 1;
      PendingMeans(delivered[..n]);
      UndeliveredIsPick(word, delivered[..n]);
    }
  }

  /** The positions a frame makes the decoder deliver. */
  ghost function Released(g: Group, pos: nat, payload: seq<byte>): seq<nat>
    requires WfGroup(g) && pos < |g.shards|
  {
    var g1 := Stored(g, pos, payload);
    (if pos < g.data && !g.delivered[pos] then [pos] else []) +
    (if ShouldRecover(g1) then Pending(g1.delivered) else [])
  }

  lemma ReleasedDistinct(g: Group, pos: nat, payload: seq<byte>)
    requires WfGroup(g) && pos < |g.shards|
    ensures Distinct(Released(g, pos, payload))
  {
    hide Pending, ShouldRecover;
    var g1 := Stored(g, pos, payload);
    PendingMeans(g1.delivered);
    assert pos < g.data ==> g1.delivered[pos] && pos !in Pending(g1.delivered);
  }

  lemma StoredAgrees(g: Group, word: seq<seq<byte>>, pos: nat)
    requires WfGroup(g) && Agrees(g.shards, word) && pos < |word|
    ensures Agrees(Stored(g, pos, word[pos]).shards, word)
  {
  }

  lemma DeliverSound(code: Code, g: Group, word: seq<seq<byte>>, pos: nat)
    requires GoodWord(code, word, g.data, g.parity) && GroupSound(g, word, g.data, g.parity) && pos < |word|
    ensures
      var (g', r) := Deliver(code, g, pos, word[pos]);
      var js := Released(g, pos, word[pos]);
      && GroupSound(g', word, g.data, g.parity)
      && (forall i :: 0 <= i < |js| ==> js[i] < g.data)
      && r == Ok(Pick(word, js))
  {
    hide Present, Pending, Undelivered;
    var g1 := Stored(g, pos, word[pos]);
    PendingMeans(g1.delivered);
    StoredAgrees(g, word, pos);
    var js := Released(g, pos, word[pos]);
    if ShouldRecover(g1) {
      UndeliveredIsPick(word, g1.delivered);
      assert code.reconstruct(g.data, g.parity, g1.shards) == Some(word);
    }
    assert Deliver(code, g, pos, word[pos]).1.value == Pick(word, js);
  }

  // ----- Exactness: which shards are out depends only on which frames were accepted -----

  /** With frames `got` accepted, data shard `j` is out if its own frame or enough frames came. */
  ghost predicate Out(got: set<nat>, data: nat, j: nat) {
    j in got || |got| >= data
  }

  ghost predicate GroupExact(g: Group, got: set<nat>) {
    && WfGroup(g)
    && got <= UpTo(g.data + g.parity)
    && (forall j: nat :: j < g.data ==> (g.delivered[j] <==> Out(got, g.data, j)))
    && (|got| < g.data ==> Present(g.shards) == got)
  }

  lemma NewGroupExact(data: nat, parity: nat, now: nat)
    requires data >= 1
    ensures GroupExact(NewGroup(data, parity, now), {})
  {
    assert Present(NewGroup(data, parity, now).shards) == {};
  }

  lemma StoredExact(g: Group, pos: nat, payload: seq<byte>, got: set<nat>)
    requires GroupExact(g, got) && pos < |g.shards| && |got| < g.data
    ensures Present(Stored(g, pos, payload).shards) == got + {pos}
    ensures forall j: nat :: j < g.data ==> (Stored(g, pos, payload).delivered[j] <==> j in got + {pos})
  {
    var s := Stored(g, pos, payload).shards;
    assert forall i: nat :: i < |s| ==> (i in Present(g.shards) <==> g.shards[i].Some?);
    assert Present(s) == Present(g.shards) + {pos};
  }

  /** Without parity, or with every data frame in, enough frames means all of them. */
  lemma EnoughWithoutRecovery(g1: Group, got: set<nat>)
    requires WfGroup(g1) && got <= UpTo(g1.data + g1.parity) && |got| >= g1.data
    requires Present(g1.shards) == got && !ShouldRecover(g1)
    requires forall j: nat :: j < g1.data ==> (g1.delivered[j] <==> j in got)
    ensures forall j: nat :: j < g1.data ==> g1.delivered[j]
  {
    if g1.parity == 0 {
      SubsetFull(got, g1.data);
    } else {
      assert false !in g1.delivered;
    }
  }

  /** The group after a frame that fills no gap. */
  lemma KeptExact(g1: Group, got: set<nat>)
    requires WfGroup(g1) && got <= UpTo(g1.data + g1.parity) && Present(g1.shards) == got && !ShouldRecover(g1)
    requires forall j: nat :: j < g1.data ==> (g1.delivered[j] <==> j in got)
    ensures GroupExact(g1, got)
  {
    hide Present, UpTo;
    if |got| >= g1.data { EnoughWithoutRecovery(g1, got); }
  }

  /** The group after a frame, while fewer than `data` frames were in before it. */
  lemma EarlyExact(code: Code, g: Group, word: seq<seq<byte>>, pos: nat, got: set<nat>)
    requires GoodWord(code, word, g.data, g.parity) && GroupSound(g, word, g.data, g.parity) && pos < |word|
    requires GroupExact(g, got) && |got| < g.data
    ensures GroupExact(Deliver(code, g, pos, word[pos]).0, got + {pos})
  {
    hide Present, Undelivered, Agrees, Stored;
    var g1, got' := Stored(g, pos, word[pos]), got + {pos};
    StoredAgrees(g, word, pos);
    StoredExact(g, pos, word[pos], got);
    StoredShape(g, pos, word[pos]);
    if !ShouldRecover(g1) {
      KeptExact(g1, got');
    }
  }

  /** Once `data` frames are in, everything is out and stays out. */
  lemma LateExact(code: Code, g: Group, word: seq<seq<byte>>, pos: nat, got: set<nat>)
    requires GroupSound(g, word, g.data, g.parity) && pos < |word| && GroupExact(g, got) && |got| >= g.data
    ensures GroupExact(Deliver(code, g, pos, word[pos]).0, got + {pos})
  {
    hide Present, Undelivered;
    assert |got + {pos}| >= |got| by { SubsetSize(got, got + {pos}); }
  }

  lemma StoredShape(g: Group, pos: nat, payload: seq<byte>)
    requires WfGroup(g) && pos < |g.shards|
    ensures
      var g1 := Stored(g, pos, payload);
      g1.data == g.data && g1.parity == g.parity && WfGroup(g1)
  {
  }

  lemma DeliverExact(code: Code, g: Group, word: seq<seq<byte>>, pos: nat, got: set<nat>)
    requires GoodWord(code, word, g.data, g.parity) && GroupSound(g, word, g.data, g.parity) && pos < |word|
    requires GroupExact(g, got)
    ensures GroupExact(Deliver(code, g, pos, word[pos]).0, got + {pos})
  {
    hide Deliver, GoodWord, GroupExact, Present, Agrees;
    if |got| < g.data { EarlyExact(code, g, word, pos, got); } else { LateExact(code, g, word, pos, got); }
  }

  /** A frame releases exactly the shards that were not out before it and are out after it. */
  lemma ReleasedExact(g: Group, pos: nat, payload: seq<byte>, got: set<nat>)
    requires GroupExact(g, got) && pos < |g.shards|
    ensures
      var js := Released(g, pos, payload);
      && Distinct(js)
      && forall j: nat :: j in js <==> j < g.data && !Out(got, g.data, j) && Out(got + {pos}, g.data, j)
  {
    hide Present, Pending, UpTo;
    var g1, got' := Stored(g, pos, payload), got + {pos};
    PendingMeans(g1.delivered);
    assert pos in got ==> got' == got;
    if |got| < g.data {
      StoredExact(g, pos, payload, got);
      if |got'| >= g.data && !ShouldRecover(g1) {
        EnoughWithoutRecovery(g1, got');
      }
    }
  }
}
