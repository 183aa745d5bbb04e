/**
 * CIDR set subtraction (deploy/add-google-stable-route.py, `subtract_networks`), with the
 * `ipaddress` operations it calls. Blocks are aligned prefixes as in section 3.1 of RFC 4632.
 */
module Cidr {
  import opened Bytes

  function Pow2(n: nat): (p: nat)
    ensures p > 0
  {
    if n == 0 then 1 else 2 * Pow2(n - 1)
  }

  /** A block of `2^bits` addresses of one IP version, where `bits` is the width less the prefix length. */
  datatype Network = Network(version: nat, base: nat, bits: nat)

  predicate Aligned(n: Network) { n.base % Pow2(n.bits) == 0 }

  predicate Contains(n: Network, a: nat) { n.base <= a < n.base + Pow2(n.bits) }

  ghost predicate AllAligned(ns: seq<Network>) { forall i :: 0 <= i < |ns| ==> Aligned(ns[i]) }

  /** Address `a` of IP version `v` is in some block. */
  ghost predicate Covers(ns: seq<Network>, v: nat, a: nat) {
    exists i :: 0 <= i < |ns| && ns[i].version == v && Contains(ns[i], a)
  }

  // ----- The library's relations on two blocks of one version -----

  predicate Overlaps(n: Network, r: Network) {
    || Contains(r, n.base) || Contains(r, n.base + Pow2(n.bits) - 1)
    || Contains(n, r.base) || Contains(n, r.base + Pow2(r.bits) - 1)
  }

  predicate SupernetOf(n: Network, r: Network) {
    n.version == r.version && n.base <= r.base && r.base + Pow2(r.bits) <= n.base + Pow2(n.bits)
  }

  lemma {:induction false} Pow2Splits(m: nat, n: nat)
    requires m <= n
    ensures Pow2(n) == Pow2(m) * Pow2(n - m)
    decreases n - m
  {
    if m < n {
      Pow2Splits(m, n - 1);
      Swap(Pow2(m), Pow2(n - 1 - m));
    }
  }

  lemma Swap(a: nat, b: nat)
    ensures 2 * (a * b) == a * (2 * b)
  {
  }

  lemma MultipleOf(x: nat, d: nat) returns (q: nat)
    requires d > 0 && x % d == 0
    ensures x == d * q
  {
    q := x / d;
  }

  lemma IsMultiple(d: nat, q: nat)
    requires d > 0
    ensures (d * q) % d == 0
  {
    DivModUnique(d * q, d, q, 0);
  }

  lemma DivModUnique(n: int, d: int, q: int, r: int)
    requires d > 0 && 0 <= r < d && n == d * q + r
    ensures n % d == r && n / d == q
  {
    var q', r' := n / d, n % d;
    assert d * (q - q') == r' - r;
    if q > q' {
      MulNonNeg(d, q - q' - 1);
      assert false;
    } else if q < q' {
      MulNonNeg(d, q' - q - 1);
      assert false;
    }
  }

  /** A large block starts on a boundary of every smaller size. */
  lemma AlignedToSmaller(base: nat, m: nat, n: nat)
    requires m <= n && base % Pow2(n) == 0
    ensures base % Pow2(m) == 0
  {
    Pow2Splits(m, n);
    var q := MultipleOf(base, Pow2(n));
    Reassociate(Pow2(m), Pow2(n - m), q);
    IsMultiple(Pow2(m), Pow2(n - m) * q);
  }

  lemma Reassociate(a: nat, b: nat, c: nat)
    ensures (a * b) * c == a * (b * c)
  {
  }

  /** Two multiples of `d` are at least `d` apart. */
  lemma MultiplesApart(x: nat, y: nat, d: nat)
    requires d > 0 && x % d == 0 && y % d == 0 && x < y
    ensures x + d <= y
  {
    var p := MultipleOf(x, d);
    var q := MultipleOf(y, d);
    if q <= p {
      MulNonNeg(d, p - q);
      assert false;
    }
    MulNonNeg(d, q - p - 1);
    assert d * q == d * p + d + d * (q - p - 1);
  }

  /** Aligned blocks of one version are nested or disjoint. */
  lemma NestedOrDisjoint(n: Network, r: Network, a: nat)
    requires Aligned(n) && Aligned(r) && r.bits <= n.bits && n.version == r.version
    requires Contains(n, a) && Contains(r, a)
    ensures SupernetOf(n, r)
  {
    var d := Pow2(r.bits);
    AlignedToSmaller(n.base, r.bits, n.bits);
    if r.base < n.base { MultiplesApart(r.base, n.base, d); }
    assert n.base <= r.base;
    Pow2Splits(r.bits, n.bits);
    IsMultiple(d, Pow2(n.bits - r.bits));
    SumOfMultiples(n.base, Pow2(n.bits), d);
    MultiplesApart(r.base, n.base + Pow2(n.bits), d);
  }

  lemma SumOfMultiples(x: nat, y: nat, d: nat)
    requires d > 0 && x % d == 0 && y % d == 0
    ensures (x + y) % d == 0
  {
    var p := MultipleOf(x, d);
    var q := MultipleOf(y, d);
    assert d * (p + q) == d * p + d * q;
    IsMultiple(d, p + q);
  }

  lemma OverlapsIff(n: Network, r: Network)
    ensures Overlaps(n, r) <==> exists a: nat :: Contains(n, a) && Contains(r, a)
  {
    if Overlaps(n, r) {
      if Contains(r, n.base) { assert Contains(n, n.base); }
      else if Contains(r, n.base + Pow2(n.bits) - 1) { assert Contains(n, n.base + Pow2(n.bits) - 1); }
      else { assert Contains(r, r.base); }
    }
  }

  /** So the error branch for a partial overlap cannot be reached. */
  lemma NoPartialOverlap(n: Network, r: Network)
    requires Aligned(n) && Aligned(r) && n.version == r.version && Overlaps(n, r)
    ensures SupernetOf(n, r) || SupernetOf(r, n)
  {
    OverlapsIff(n, r);
    var a: nat :| Contains(n, a) && Contains(r, a);
    if r.bits <= n.bits { NestedOrDisjoint(n, r, a); } else { NestedOrDisjoint(r, n, a); }
  }

  // ----- Taking one block out of another -----

  function Low(n: Network): Network
    requires n.bits > 0
  {
    Network(n.version, n.base, n.bits - 1)
  }

  function High(n: Network): Network
    requires n.bits > 0
  {
    Network(n.version, n.base + Pow2(n.bits - 1), n.bits - 1)
  }

  /** `address_exclude`: halve until the excluded block is a half, keeping the other halves. */
  function Exclude(n: Network, r: Network): seq<Network>
    decreases n.bits
  {
    if n == r || n.bits == 0 then []
    else if SupernetOf(Low(n), r) then [High(n)] + Exclude(Low(n), r)
    else [Low(n)] + Exclude(High(n), r)
  }

  lemma HalvesAligned(n: Network)
    requires Aligned(n) && n.bits > 0
    ensures Aligned(Low(n)) && Aligned(High(n))
    ensures forall a :: Contains(n, a) <==> Contains(Low(n), a) || Contains(High(n), a)
    ensures forall a :: !(Contains(Low(n), a) && Contains(High(n), a))
  {
    AlignedToSmaller(n.base, n.bits - 1, n.bits);
    var d := Pow2(n.bits - 1);
    IsMultiple(d, 1);
    SumOfMultiples(n.base, d, d);
  }

  lemma {:induction false} Pow2Monotone(m: nat, n: nat)
    requires m < n
    ensures Pow2(m) < Pow2(n)
  {
    if m < n - 1 { Pow2Monotone(m, n - 1); }
  }

  /** A proper part of a block lies in one of its halves. */
  lemma InOneHalf(n: Network, r: Network)
    requires Aligned(n) && Aligned(r) && SupernetOf(n, r) && n != r
    ensures n.bits > 0 && (SupernetOf(Low(n), r) || SupernetOf(High(n), r))
  {
    if r.bits >= n.bits {
      if r.bits > n.bits { Pow2Monotone(n.bits, r.bits); }
      assert false;
    }
    HalvesAligned(n);
    assert Contains(r, r.base) && Contains(n, r.base);
    if Contains(Low(n), r.base) { NestedOrDisjoint(Low(n), r, r.base); } else { NestedOrDisjoint(High(n), r, r.base); }
  }

  lemma CoversCons(n: Network, ns: seq<Network>, v: nat, a: nat)
    ensures Covers([n] + ns, v, a) <==> (n.version == v && Contains(n, a)) || Covers(ns, v, a)
  {
    var all := [n] + ns;
    assert all[0] == n;
    if Covers(ns, v, a) {
      var i :| 0 <= i < |ns| && ns[i].version == v && Contains(ns[i], a);
      assert all[i + 1] == ns[i];
    }
    if Covers(all, v, a) {
      var i :| 0 <= i < |all| && all[i].version == v && Contains(all[i], a);
      if i > 0 { assert ns[i - 1] == all[i]; }
    }
  }

  /** What is left covers exactly the block less the excluded part. */
  lemma {:induction false} ExcludeExact(n: Network, r: Network, v: nat, a: nat)
    requires Aligned(n) && Aligned(r) && SupernetOf(n, r)
    ensures AllAligned(Exclude(n, r))
    ensures Covers(Exclude(n, r), v, a) <==> n.version == v && Contains(n, a) && !Contains(r, a)
    decreases n.bits
  {
    if n != r {
      InOneHalf(n, r);
      HalvesAligned(n);
      if SupernetOf(Low(n), r) {
        ExcludeExact(Low(n), r, v, a);
        CoversCons(High(n), Exclude(Low(n), r), v, a);
      } else {
        ExcludeExact(High(n), r, v, a);
        CoversCons(Low(n), Exclude(High(n), r), v, a);
      }
    }
  }

  // ----- The script -----

  datatype SubtractError = PartialOverlap(n: Network, r: Network)

  ghost predicate OneVersion(ns: seq<Network>) {
    forall i, j :: 0 <= i < j < |ns| ==> ns[i].version == ns[j].version
  }

  /** `collapse_addresses` on blocks of one version: it may merge and drop blocks, not addresses. */
  ghost predicate KeepsAddresses(collapse: seq<Network> -> seq<Network>) {
    forall ns :: AllAligned(ns) && OneVersion(ns) ==>
      AllAligned(collapse(ns)) && forall v, a :: Covers(collapse(ns), v, a) <==> Covers(ns, v, a)
  }

  type Collapse = f: seq<Network> -> seq<Network> | KeepsAddresses(f) ghost witness Unmerged

  function Unmerged(ns: seq<Network>): seq<Network> { ns }

  function OfVersion(ns: seq<Network>, version: nat): seq<Network> {
    if ns == [] then []
    else OfVersion(ns[..|ns| - 1], version) + (if ns[|ns| - 1].version == version then [ns[|ns| - 1]] else [])
  }

  lemma CoversAppend(a: seq<Network>, b: seq<Network>, v: nat, x: nat)
    ensures Covers(a + b, v, x) <==> Covers(a, v, x) || Covers(b, v, x)
  {
    var all := a + b;
    if Covers(a, v, x) {
      var i :| 0 <= i < |a| && a[i].version == v && Contains(a[i], x);
      assert all[i] == a[i];
    }
    if Covers(b, v, x) {
      var i :| 0 <= i < |b| && b[i].version == v && Contains(b[i], x);
      assert all[|a| + i] == b[i];
    }
    if Covers(all, v, x) {
      var i :| 0 <= i < |all| && all[i].version == v && Contains(all[i], x);
      if i < |a| { assert a[i] == all[i]; } else { assert b[i - |a|] == all[i]; }
    }
  }

  lemma CoversOne(n: Network, v: nat, x: nat)
    ensures Covers([n], v, x) <==> n.version == v && Contains(n, x)
  {
    assert [n][0] == n;
  }

  lemma {:induction false} OfVersionCovers(ns: seq<Network>, version: nat, v: nat, x: nat)
    requires AllAligned(ns)
    ensures AllAligned(OfVersion(ns, version)) && OneVersion(OfVersion(ns, version))
    ensures forall i :: 0 <= i < |OfVersion(ns, version)| ==> OfVersion(ns, version)[i].version == version
    ensures Covers(OfVersion(ns, version), v, x) <==> v == version && Covers(ns, v, x)
  {
    if ns != [] {
      var init, last := ns[..|ns| - 1], ns[|ns| - 1];
      OfVersionCovers(init, version, v, x);
      assert ns == init + [last];
      CoversAppend(init, [last], v, x);
      CoversOne(last, v, x);
      CoversAppend(OfVersion(init, version), [last], v, x);
      assert OfVersion(init, version) + [] == OfVersion(init, version);
    }
  }

  /** What the inner loop does with one block and one removal. */
  function Remaining(n: Network, r: Network): Result<seq<Network>, SubtractError> {
    if n.version != r.version || !Overlaps(n, r) then Ok([n])
    else if SupernetOf(r, n) || r == n then Ok([])
    else if SupernetOf(n, r) then Ok(Exclude(n, r))
    else Err(PartialOverlap(n, r))
  }

  /** One block and one removal never raise, and leave exactly the difference. */
  lemma RemainingExact(n: Network, r: Network, v: nat, a: nat)
    requires Aligned(n) && Aligned(r)
    ensures Remaining(n, r).Ok? && AllAligned(Remaining(n, r).value)
    ensures Covers(Remaining(n, r).value, v, a) <==>
      n.version == v && Contains(n, a) && !(r.version == v && Contains(r, a))
  {
    CoversOne(n, v, a);
    OverlapsIff(n, r);
    if n.version == r.version && Overlaps(n, r) {
      NoPartialOverlap(n, r);
      if SupernetOf(n, r) { ExcludeExact(n, r, v, a); }
    }
  }

  /** `blocks` cover exactly what `before` covers outside `r`. */
  ghost predicate Without(blocks: seq<Network>, before: seq<Network>, r: Network) {
    forall v, a :: Covers(blocks, v, a) <==> Covers(before, v, a) && !(r.version == v && Contains(r, a))
  }

  method SubtractOne(result: seq<Network>, r: Network) returns (updated: Result<seq<Network>, SubtractError>)
    requires AllAligned(result) && Aligned(r)
    ensures updated.Ok? && AllAligned(updated.value) && Without(updated.value, result, r)
  {
    var out: seq<Network> := [];
    for i := 0 to |result|
      invariant AllAligned(out) && Without(out, result[..i], r)
    {
      var left := Remaining(result[i], r);
      RemainingExact(result[i], r, 0, 0);
      ghost var before := out;
      if left.Err? {
        // The script raises here; no aligned blocks get this far.
        assert false;
      }
      out := out + left.value;
      assert result[..i + 1] == result[..i] + [result[i]];
      forall v, a ensures Covers(out, v, a) <==> Covers(result[..i + 1], v, a) && !(r.version == v && Contains(r, a)) {
        CoversAppend(before, left.value, v, a);
        CoversAppend(result[..i], [result[i]], v, a);
        CoversOne(result[i], v, a);
        RemainingExact(result[i], r, v, a);
      }
    }
    assert result[..|result|] == result;
    return Ok(out);
  }

  /** Addresses of `source` in no block of `excluded`. */
  ghost predicate Difference(blocks: seq<Network>, source: seq<Network>, excluded: seq<Network>) {
    forall v, a :: Covers(blocks, v, a) <==> Covers(source, v, a) && !Covers(excluded, v, a)
  }

  /** The nested loops, before the result is collapsed. */
  method SubtractEach(source: seq<Network>, excluded: seq<Network>) returns (r: Result<seq<Network>, SubtractError>)
    requires AllAligned(source) && AllAligned(excluded)
    ensures r.Ok? && AllAligned(r.value) && Difference(r.value, source, excluded)
  {
    var result := source;
    for i := 0 to |excluded|
      invariant AllAligned(result) && Difference(result, source, excluded[..i])
    {
      var updated := SubtractOne(result, excluded[i]);
      assert excluded[..i + 1] == excluded[..i] + [excluded[i]];
      forall v, a ensures Covers(updated.value, v, a) <==> Covers(source, v, a) && !Covers(excluded[..i + 1], v, a) {
        CoversAppend(excluded[..i], [excluded[i]], v, a);
        CoversOne(excluded[i], v, a);
        assert Covers(updated.value, v, a) <==>
          Covers(result, v, a) && !(excluded[i].version == v && Contains(excluded[i], a));
      }
      result := updated.value;
    }
    assert excluded[..|excluded|] == excluded;
    return Ok(result);
  }

  /**
   * `subtract_networks`: never raises, and covers exactly the IPv4 and IPv6 addresses of
   * `source` that are in no excluded block.
   */
  method SubtractNetworks(source: seq<Network>, excluded: seq<Network>, collapse: Collapse)
    returns (r: Result<seq<Network>, SubtractError>)
    requires AllAligned(source) && AllAligned(excluded)
    ensures r.Ok? && AllAligned(r.value)
    ensures forall v, a :: v == 4 || v == 6 ==>
      (Covers(r.value, v, a) <==> Covers(source, v, a) && !Covers(excluded, v, a))
  {
    var left := SubtractEach(source, excluded);
    var ns := left.value;
    var ipv4, ipv6 := collapse(OfVersion(ns, 4)), collapse(OfVersion(ns, 6));
    forall v, a | v == 4 || v == 6 ensures Covers(ipv4 + ipv6, v, a) <==> Covers(ns, v, a) {
      OfVersionCovers(ns, 4, v, a);
      OfVersionCovers(ns, 6, v, a);
      CoversAppend(ipv4, ipv6, v, a);
    }
    OfVersionCovers(ns, 4, 0, 0);
    OfVersionCovers(ns, 6, 0, 0);
    return Ok(ipv4 + ipv6);
  }
}
