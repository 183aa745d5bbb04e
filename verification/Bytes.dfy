/** Bytes, big-endian integers and the small wrappers every component shares. */
module Bytes {
  type byte = x: int | 0 <= x < 256

  const U16_LIMIT: nat := 0x1_0000
  const U32_LIMIT: nat := 0x1_0000_0000
  const U64_LIMIT: nat := 0x1_0000_0000_0000_0000

  datatype Option<+T> = None | Some(value: T)

  datatype Result<+T, +E> = Ok(value: T) | Err(error: E)

  function Min(a: int, b: int): int { if a < b then a else b }

  function Max(a: int, b: int): int { if a < b then b else a }

  /** `a.saturating_add(b)` on u64. */
  function SaturatingAdd64(a: nat, b: nat): nat { if a + b < U64_LIMIT then a + b else U64_LIMIT - 1 }

  /** `a.saturating_sub(b)`. */
  function SaturatingSub(a: nat, b: nat): nat { if a < b then 0 else a - b }

  function Pow256(n: nat): (p: nat)
    ensures p > 0
  {
    if n == 0 then 1 else 256 * Pow256(n - 1)
  }

  /** The low `width` bytes of `n`, most significant first (`to_be_bytes` after an `as` cast). */
  function BE(n: nat, width: nat): (s: seq<byte>)
    ensures |s| == width
  {
    if width == 0 then [] else BE(n / 256, width - 1) + [n % 256]
  }

  /** `from_be_bytes`. */
  function Val(s: seq<byte>): nat {
    if s == [] then 0 else 256 * Val(s[..|s| - 1]) + s[|s| - 1]
  }

  /** A value that fits survives the trip through its bytes. */
  lemma {:induction false} ValBE(n: nat, width: nat)
    requires n < Pow256(width)
    ensures Val(BE(n, width)) == n
    decreases width
  {
    if width > 0 {
      var s := BE(n, width);
      assert s[..|s| - 1] == BE(n / 256, width - 1);
      ValBE(n / 256, width - 1);
    }
  }

  lemma MulNonNeg(a: int, b: int)
    requires a >= 0 && b >= 0
    ensures a * b >= 0
  {
  }

  lemma Widths()
    ensures Pow256(2) == U16_LIMIT && Pow256(4) == U32_LIMIT && Pow256(8) == U64_LIMIT
  {
    assert Pow256(1) == 256 && Pow256(2) == 0x1_0000 && Pow256(3) == 0x100_0000;
    assert Pow256(4) == U32_LIMIT && Pow256(5) == 0x100_0000_0000;
    assert Pow256(6) == 0x1_0000_0000_0000 && Pow256(7) == 0x100_0000_0000_0000;
  }

  lemma ValBE16(n: nat)
    requires n < U16_LIMIT
    ensures Val(BE(n, 2)) == n
  {
    ValBE(n, 2);
    Widths();
  }

  lemma ValBE64(n: nat)
    requires n < U64_LIMIT
    ensures Val(BE(n, 8)) == n
  {
    ValBE(n, 8);
    Widths();
  }

  function Zeros(n: nat): (s: seq<byte>)
    ensures |s| == n
  {
    seq(n, i => 0)
  }

  function Concat(parts: seq<seq<byte>>): seq<byte> {
    if parts == [] then [] else parts[0] + Concat(parts[1..])
  }

  lemma {:induction false} ConcatAppend(a: seq<seq<byte>>, b: seq<seq<byte>>)
    ensures Concat(a + b) == Concat(a) + Concat(b)
  {
    if a == [] {
      assert a + b == b;
    } else {
      assert (a + b)[1..] == a[1..] + b;
      ConcatAppend(a[1..], b);
      assert (a + b)[0] == a[0];
    }
  }
}
