/**
 * The Reed-Solomon library as the tunnel sees it. `encode` returns the parity shards of
 * equal-length data shards; `reconstruct` fills in a partly received codeword, or fails.
 */
module Erasure {
  import opened Bytes

  datatype Codec = Codec(
    encode: (nat, nat, seq<seq<byte>>) -> seq<seq<byte>>,
    reconstruct: (nat, nat, seq<Option<seq<byte>>>) -> Option<seq<seq<byte>>>)

  /** Both calls work in place on one shard vector, so they return as many shards as that holds. */
  ghost predicate Shaped(c: Codec) {
    && (forall d, p, s :: |c.encode(d, p, s)| == p)
    && (forall d, p, v :: c.reconstruct(d, p, v).Some? ==> |c.reconstruct(d, p, v).value| == |v|)
  }

  type Code = c: Codec | Shaped(c)
    ghost witness Codec((d: nat, p: nat, s: seq<seq<byte>>) => seq(p, i => []), (d, p, v) => None)

  type View = seq<Option<seq<byte>>>

  predicate EqualLengths(shards: seq<seq<byte>>) {
    forall i, j :: 0 <= i < |shards| && 0 <= j < |shards| ==> |shards[i]| == |shards[j]|
  }

  /** The positions of a received codeword that hold a shard. */
  function Present(view: View): set<nat> {
    set i: nat | i < |view| && view[i].Some?
  }

  ghost predicate Agrees(view: View, word: seq<seq<byte>>) {
    |view| == |word| && forall i :: 0 <= i < |view| && view[i].Some? ==> view[i].value == word[i]
  }

  ghost function Word(code: Code, parity: nat, shards: seq<seq<byte>>): seq<seq<byte>> {
    shards + code.encode(|shards|, parity, shards)
  }

  /** Any `data` of the `data + parity` shards of a codeword determine all of them. */
  ghost predicate Corrects(code: Code, data: nat, parity: nat) {
    forall shards :: |shards| == data && EqualLengths(shards) ==> Recoverable(code, parity, shards)
  }

  ghost predicate Recoverable(code: Code, parity: nat, shards: seq<seq<byte>>) {
    var word := Word(code, parity, shards);
    && EqualLengths(word)
    && forall view :: Agrees(view, word) && |Present(view)| >= |shards| ==>
         code.reconstruct(|shards|, parity, view) == Some(word)
  }
}
