/**
 * The erasure hypothesis can be met: a Cauchy code over the field of 16 elements, two symbols to
 * a byte, corrects every shape of group the encoder emits.
 */
module CauchyCode {
  import opened Bytes
  import opened Erasure
  import opened SixteenField
  import opened FecEncoder
  import opened GroupRecovery
  import opened Ledger

  // ----- Field identities -----

  lemma Swap(x: Symbol, y: Symbol, z: Symbol)
    ensures Mul(x, Mul(y, z)) == Mul(y, Mul(x, z))
  {
    hide Mul;
    Associates(x, y, z);
    Associates(y, x, z);
    Commutes(x, y);
  }

  lemma Cancel(p: Symbol, z: Symbol)
    requires p != ZERO
    ensures Mul(p, Mul(z, Inv(p))) == z
  {
    hide Mul, Inv;
    Swap(p, z, Inv(p));
    Inverse(p);
    Units(z);
  }

  lemma SumSkips(x: Symbol, y: Symbol, z: Symbol)
    ensures Add(Add(x, y), Add(y, z)) == Add(x, z)
  {
  }

  /** With a = 1/p and b = 1/q: (u+p)a + (u+q)b = (p+q)uba. */
  lemma Bracket(u: Symbol, p: Symbol, q: Symbol)
    requires p != ZERO && q != ZERO
    ensures
      var a, b := Inv(p), Inv(q);
      Add(Mul(Add(u, p), a), Mul(Add(u, q), b)) == Mul(Add(p, q), Mul(Mul(u, b), a))
  {
    hide Mul, Inv, Add;
    var a, b := Inv(p), Inv(q);
    Inverse(p);
    Inverse(q);
    Distributes(a, u, p);
    Distributes(b, u, q);
    Exchange(Mul(u, a), ONE, Mul(u, b), ONE);
    Additive(ONE, ONE);
    Additive(Add(Mul(u, a), Mul(u, b)), ONE);
    var z := Mul(Mul(u, b), a);
    Distributes(z, p, q);
    Cancel(p, Mul(u, b));
    Associates(u, b, a);
    Commutes(b, a);
    Associates(u, a, b);
    Cancel(q, Mul(u, a));
    Additive(Mul(u, a), Mul(u, b));
  }

  lemma Term(d: Symbol, u: Symbol, p: Symbol, q: Symbol)
    requires p != ZERO && q != ZERO
    ensures
      var a, b := Inv(p), Inv(q);
      Add(Mul(Add(u, p), Mul(d, a)), Mul(Add(u, q), Mul(d, b))) == Mul(Add(p, q), Mul(Mul(d, Mul(u, b)), a))
  {
    hide Mul, Inv, Add;
    var a, b := Inv(p), Inv(q);
    Bracket(u, p, q);
    Swap(Add(u, p), d, a);
    Swap(Add(u, q), d, b);
    Distributes(d, Mul(Add(u, p), a), Mul(Add(u, q), b));
    Associates(d, Mul(u, b), a);
    Swap(Add(p, q), d, Mul(Mul(u, b), a));
  }

  // ----- The Cauchy matrix -----

  function Nibble(n: nat): Symbol { Symbol(n % 2 == 1, (n / 2) % 2 == 1, (n / 4) % 2 == 1, (n / 8) % 2 == 1) }

  function Number(s: Symbol): nat {
    (if s.a then 1 else 0) + (if s.b then 2 else 0) + (if s.c then 4 else 0) + (if s.d then 8 else 0)
  }

  lemma NumberNibble(n: nat)
    requires n < 16
    ensures Number(Nibble(n)) == n
  {
  }

  lemma NibbleNumber(s: Symbol)
    ensures Nibble(Number(s)) == s && Number(s) < 16
  {
  }

  function X(i: nat): Symbol { Nibble(i) }

  function Y(j: nat): Symbol { Nibble(10 + j) }

  function Coefficient(i: nat, j: nat): Symbol { Inv(Add(X(i), Y(j))) }

  lemma PointsApart(m: nat, n: nat)
    requires m < 16 && n < 16 && m != n
    ensures Add(Nibble(m), Nibble(n)) != ZERO
  {
    hide Nibble, Number;
    NumberNibble(m);
    NumberNibble(n);
    Additive(Nibble(m), Nibble(n));
  }

  /** Row `j` of the matrix applied to `ds`. */
  function Dot(ds: seq<Symbol>, j: nat): Symbol {
    if ds == [] then ZERO
    else Add(Dot(ds[..|ds| - 1], j), Mul(ds[|ds| - 1], Coefficient(|ds| - 1, j)))
  }

  /** The system with unknown `n` and equation `e` eliminated. */
  function Reduced(ds: seq<Symbol>, n: nat, e: nat): (r: seq<Symbol>)
    ensures |r| == |ds|
  {
    seq(|ds|, i requires 0 <= i < |ds| => Mul(ds[i], Mul(Add(X(n), X(i)), Coefficient(i, e))))
  }

  lemma ReducedTerm(d: Symbol, i: nat, n: nat, e: nat, j: nat)
    requires i < 10 && n < 10 && e < 4 && j < 4
    ensures
      Add(Mul(Add(X(n), Y(j)), Mul(d, Coefficient(i, j))), Mul(Add(X(n), Y(e)), Mul(d, Coefficient(i, e)))) ==
      Mul(Add(Y(j), Y(e)), Mul(Mul(d, Mul(Add(X(n), X(i)), Coefficient(i, e))), Coefficient(i, j)))
  {
    hide Mul, Inv, Add, Nibble;
    var u, p, q := Add(X(n), X(i)), Add(X(i), Y(j)), Add(X(i), Y(e));
    PointsApart(i, 10 + j);
    PointsApart(i, 10 + e);
    SumSkips(X(n), X(i), Y(j));
    SumSkips(X(n), X(i), Y(e));
    SumSkips(Y(j), X(i), Y(e));
    Additive(Y(j), X(i));
    Term(d, u, p, q);
  }

  lemma DotStep(ds: seq<Symbol>, j: nat, k: nat)
    requires k < |ds|
    ensures Dot(ds[..k + 1], j) == Add(Dot(ds[..k], j), Mul(ds[k], Coefficient(k, j)))
  {
    hide Mul, Add, Coefficient;
    assert ds[..k + 1][..k] == ds[..k];
  }

  /** Equations `j` and `e`, combined, are equation `j` of the reduced system. */
  lemma {:induction false} Combine(ds: seq<Symbol>, n: nat, e: nat, j: nat, k: nat)
    requires |ds| <= 10 && k <= |ds| && n < 10 && e < 4 && j < 4
    ensures Add(Mul(Add(X(n), Y(j)), Dot(ds[..k], j)), Mul(Add(X(n), Y(e)), Dot(ds[..k], e))) ==
            Mul(Add(Y(j), Y(e)), Dot(Reduced(ds, n, e)[..k], j))
  {
    hide Mul, Add, Coefficient, X, Y;
    var s, t, w, r := Add(X(n), Y(j)), Add(X(n), Y(e)), Add(Y(j), Y(e)), Reduced(ds, n, e);
    if k == 0 {
      Units(s);
      Units(t);
      Units(w);
      Additive(ZERO, ZERO);
    } else {
      var i := k - 1;
      Combine(ds, n, e, j, i);
      DotStep(ds, j, i);
      DotStep(ds, e, i);
      DotStep(r, j, i);
      ReducedTerm(ds[i], i, n, e, j);
      Distributes(s, Dot(ds[..i], j), Mul(ds[i], Coefficient(i, j)));
      Distributes(t, Dot(ds[..i], e), Mul(ds[i], Coefficient(i, e)));
      Distributes(w, Dot(r[..i], j), Mul(r[i], Coefficient(i, j)));
      Exchange(Mul(s, Dot(ds[..i], j)), Mul(s, Mul(ds[i], Coefficient(i, j))),
               Mul(t, Dot(ds[..i], e)), Mul(t, Mul(ds[i], Coefficient(i, e))));
    }
  }

  lemma CombineWhole(ds: seq<Symbol>, n: nat, e: nat, j: nat)
    requires |ds| <= 10 && n < 10 && e < 4 && j < 4 && e != j
    requires Dot(ds, j) == ZERO && Dot(ds, e) == ZERO
    ensures Dot(Reduced(ds, n, e), j) == ZERO
  {
    hide Mul, Add, Coefficient, X, Dot, Nibble, Reduced;
    Combine(ds, n, e, j, |ds|);
    assert ds[..|ds|] == ds && Reduced(ds, n, e)[..|ds|] == Reduced(ds, n, e);
    Units(Add(X(n), Y(j)));
    Units(Add(X(n), Y(e)));
    Additive(ZERO, ZERO);
    PointsApart(10 + j, 10 + e);
    NoZeroDivisors(Add(Y(j), Y(e)), Dot(Reduced(ds, n, e), j));
  }

  lemma ReducedZeroIff(ds: seq<Symbol>, n: nat, e: nat, i: nat)
    requires |ds| <= 10 && n < 10 && e < 4 && i < |ds|
    ensures Reduced(ds, n, e)[i] == ZERO <==> ds[i] == ZERO || i == n
  {
    hide Mul, Inv, Add, Nibble;
    var c, u := Coefficient(i, e), Add(X(n), X(i));
    PointsApart(i, 10 + e);
    Inverse(Add(X(i), Y(e)));
    Units(c);
    Units(Mul(u, c));
    Units(ds[i]);
    Additive(X(n), X(i));
    if ds[i] != ZERO && i != n {
      PointsApart(n, i);
      if Mul(u, c) == ZERO { NoZeroDivisors(u, c); }
      if Mul(ds[i], Mul(u, c)) == ZERO { NoZeroDivisors(ds[i], Mul(u, c)); }
    }
  }

  /** A row picks out the one unknown that is not zero. */
  lemma {:induction false} DotSingle(ds: seq<Symbol>, n: nat, j: nat)
    requires forall i :: 0 <= i < |ds| && i != n ==> ds[i] == ZERO
    ensures Dot(ds, j) == if n < |ds| then Mul(ds[n], Coefficient(n, j)) else ZERO
  {
    hide Mul, Add, Coefficient;
    if ds != [] {
      var k := |ds| - 1;
      DotSingle(ds[..k], n, j);
      Units(Coefficient(k, j));
      Additive(ZERO, ZERO);
      Additive(Mul(ds[k], Coefficient(k, j)), ZERO);
      Additive(Dot(ds[..k], j), ZERO);
    }
  }

  ghost predicate ZeroOutside(ds: seq<Symbol>, unknown: set<nat>) {
    forall i :: 0 <= i < |ds| && i !in unknown ==> ds[i] == ZERO
  }

  /** With at least as many equations, numbered from `base`, as unknowns, the only solution is zero. */
  lemma {:induction false} Unique(ds: seq<Symbol>, unknown: set<nat>, rows: set<nat>, base: nat)
    requires |ds| <= 10 && ZeroOutside(ds, unknown) && |unknown| <= |rows|
    requires forall q :: q in rows ==> base <= q < base + 4 && Dot(ds, q - base) == ZERO
    ensures forall i :: 0 <= i < |ds| ==> ds[i] == ZERO
    decreases |rows|
  {
    hide Mul, Add, Coefficient, Dot, Reduced;
    if n: nat :| n < |ds| && ds[n] != ZERO {
      assert n in unknown;
      assert rows != {};
      var q :| q in rows;
      var e := q - base;
      var r := Reduced(ds, n, e);
      forall i | 0 <= i < |ds| ensures r[i] == ZERO <==> ds[i] == ZERO || i == n { ReducedZeroIff(ds, n, e, i); }
      forall p | p in rows - {q} ensures Dot(r, p - base) == ZERO { CombineWhole(ds, n, e, p - base); }
      Unique(r, unknown - {n}, rows - {q}, base);
      DotSingle(ds, n, e);
      LoneTermIsZero(ds[n], n, e);
      assert false;
    }
  }

  lemma LoneTermIsZero(d: Symbol, n: nat, e: nat)
    requires n < 10 && e < 4 && Mul(d, Coefficient(n, e)) == ZERO
    ensures d == ZERO
  {
    hide Mul, Inv, Add, Nibble;
    PointsApart(n, 10 + e);
    Inverse(Add(X(n), Y(e)));
    if d != ZERO { NoZeroDivisors(d, Coefficient(n, e)); }
  }

  // ----- The code on shards -----

  function Half(b: byte, high: bool): Symbol { if high then Nibble(b / 16) else Nibble(b % 16) }

  function ByteOf(high: Symbol, low: Symbol): byte {
    NibbleNumber(high);
    NibbleNumber(low);
    16 * Number(high) + Number(low)
  }

  lemma HalvesOf(h: Symbol, l: Symbol)
    ensures Half(ByteOf(h, l), true) == h && Half(ByteOf(h, l), false) == l
  {
    NibbleNumber(h);
    NibbleNumber(l);
    var b := ByteOf(h, l);
    assert b / 16 == Number(h) && b % 16 == Number(l);
  }

  lemma HalvesDecide(b: byte, c: byte)
    requires Half(b, true) == Half(c, true) && Half(b, false) == Half(c, false)
    ensures b == c
  {
    hide Nibble, Number;
    NumberNibble(b / 16);
    NumberNibble(b % 16);
    NumberNibble(c / 16);
    NumberNibble(c % 16);
  }

  function Length(shards: seq<seq<byte>>): nat { if shards == [] then 0 else |shards[0]| }

  function SymbolAt(shards: seq<seq<byte>>, i: nat, t: nat, high: bool): Symbol
    requires i < |shards|
  {
    if t < |shards[i]| then Half(shards[i][t], high) else ZERO
  }

  /** The symbols of all shards at one half of byte `t`. */
  function Column(shards: seq<seq<byte>>, t: nat, high: bool): (c: seq<Symbol>)
    ensures |c| == |shards|
  {
    seq(|shards|, i requires 0 <= i < |shards| => SymbolAt(shards, i, t, high))
  }

  function ParityByte(shards: seq<seq<byte>>, j: nat, t: nat): byte {
    ByteOf(Dot(Column(shards, t, true), j), Dot(Column(shards, t, false), j))
  }

  function ParityShard(shards: seq<seq<byte>>, j: nat): (s: seq<byte>)
    ensures |s| == Length(shards)
  {
    seq(Length(shards), t requires 0 <= t < Length(shards) => ParityByte(shards, j, t))
  }

  function Encode(data: nat, parity: nat, shards: seq<seq<byte>>): (s: seq<seq<byte>>)
    ensures |s| == parity
  {
    seq(parity, j requires 0 <= j < parity => ParityShard(shards, j))
  }

  /** `shards` would have produced what was received. */
  ghost predicate Explains(data: nat, parity: nat, view: View, shards: seq<seq<byte>>) {
    |shards| == data && EqualLengths(shards) && Agrees(view, shards + Encode(data, parity, shards))
  }

  /** The word of any data shards that explain what was received. */
  ghost function Reconstruct(data: nat, parity: nat, view: View): Option<seq<seq<byte>>> {
    if exists shards :: Explains(data, parity, view, shards) then
      var shards :| Explains(data, parity, view, shards);
      Some(shards + Encode(data, parity, shards))
    else None
  }

  ghost function Differences(a: seq<Symbol>, b: seq<Symbol>): (d: seq<Symbol>)
    requires |a| == |b|
    ensures |d| == |a|
  {
    seq(|a|, i requires 0 <= i < |a| => Add(a[i], b[i]))
  }

  lemma {:induction false} DotAdds(a: seq<Symbol>, b: seq<Symbol>, j: nat)
    requires |a| == |b|
    ensures Dot(Differences(a, b), j) == Add(Dot(a, j), Dot(b, j))
  {
    hide Mul, Add, Coefficient;
    if a == [] {
      Additive(ZERO, ZERO);
    } else {
      var k := |a| - 1;
      DotAdds(a[..k], b[..k], j);
      assert Differences(a, b)[..k] == Differences(a[..k], b[..k]);
      Distributes(Coefficient(k, j), a[k], b[k]);
      Exchange(Dot(a[..k], j), Dot(b[..k], j), Mul(a[k], Coefficient(k, j)), Mul(b[k], Coefficient(k, j)));
    }
  }

  lemma SameLength(data: nat, parity: nat, view: View, s: seq<seq<byte>>, s': seq<seq<byte>>)
    requires Explains(data, parity, view, s) && Explains(data, parity, view, s')
    requires data >= 1 && |Present(view)| >= data
    ensures Length(s) == Length(s')
    ensures forall i :: 0 <= i < data ==> |s[i]| == Length(s) && |s'[i]| == Length(s')
  {
    assert Present(view) != {};
    var q :| q in Present(view);
    var w, w' := s + Encode(data, parity, s), s' + Encode(data, parity, s');
    assert w[q] == view[q].value == w'[q];
    assert |w[q]| == Length(s) && |w'[q]| == Length(s');
  }

  /** The data positions not received. */
  ghost function Missing(view: View, data: nat): set<nat> { UpTo(data) - Present(view) }

  /** The parity positions received. */
  ghost function Rows(view: View, data: nat): set<nat> { Present(view) - UpTo(data) }

  lemma PositionMeans(view: View, data: nat, q: nat)
    ensures q < data ==> (q in Missing(view, data) <==> q !in Present(view))
    ensures q in Rows(view, data) <==> q >= data && q in Present(view)
  {
    hide Present;
  }

  lemma EnoughRows(view: View, data: nat)
    requires |Present(view)| >= data
    ensures |Missing(view, data)| <= |Rows(view, data)|
  {
    hide Present;
    var known := Present(view) * UpTo(data);
    assert Present(view) == known + Rows(view, data) && known !! Rows(view, data);
    assert UpTo(data) == known + Missing(view, data) && known !! Missing(view, data);
  }

  /** Columns that agree where received, and whose parities agree where received, are equal. */
  lemma EqualColumns(a: seq<Symbol>, b: seq<Symbol>, unknown: set<nat>, rows: set<nat>)
    requires |a| == |b| <= 10 && |unknown| <= |rows|
    requires forall i :: 0 <= i < |a| && i !in unknown ==> a[i] == b[i]
    requires forall q :: q in rows ==> |a| <= q < |a| + 4 && Dot(a, q - |a|) == Dot(b, q - |a|)
    ensures a == b
  {
    hide Add, Dot, Mul;
    var ds := Differences(a, b);
    forall i | 0 <= i < |a| ensures ds[i] == ZERO <==> a[i] == b[i] { Additive(a[i], b[i]); }
    forall q | q in rows ensures Dot(ds, q - |a|) == ZERO {
      DotAdds(a, b, q - |a|);
      Additive(Dot(a, q - |a|), Dot(b, q - |a|));
    }
    Unique(ds, unknown, rows, |a|);
  }

  /** Two explanations of enough shards have the same symbols. */
  lemma SameSymbols(data: nat, parity: nat, view: View, s: seq<seq<byte>>, s': seq<seq<byte>>, t: nat, high: bool)
    requires Explains(data, parity, view, s) && Explains(data, parity, view, s')
    requires 1 <= data <= 10 && parity <= 4 && |Present(view)| >= data && t < Length(s)
    ensures Column(s, t, high) == Column(s', t, high)
  {
    hide Dot, Column, Explains, Present, Length, Missing, Rows, UpTo;
    var a, b := Column(s, t, high), Column(s', t, high);
    ExplanationShape(data, parity, view, s);
    ExplanationShape(data, parity, view, s');
    EnoughRows(view, data);
    forall i | 0 <= i < data && i !in Missing(view, data) ensures a[i] == b[i] {
      PositionMeans(view, data, i);
      KnownColumn(data, parity, view, s, s', t, high, i);
    }
    forall q | q in Rows(view, data) ensures data <= q < data + 4 && Dot(a, q - data) == Dot(b, q - data) {
      PositionMeans(view, data, q);
      KnownRow(data, parity, view, s, s', t, high, q - data);
    }
    EqualColumns(a, b, Missing(view, data), Rows(view, data));
  }

  lemma ExplanationShape(data: nat, parity: nat, view: View, s: seq<seq<byte>>)
    requires Explains(data, parity, view, s)
    ensures |s| == data && |view| == data + parity
  {
  }

  lemma KnownColumn(data: nat, parity: nat, view: View, s: seq<seq<byte>>, s': seq<seq<byte>>, t: nat, high: bool,
                    i: nat)
    requires Explains(data, parity, view, s) && Explains(data, parity, view, s')
    requires i < data && i in Present(view)
    ensures Column(s, t, high)[i] == Column(s', t, high)[i]
  {
    hide Half;
    assert (s + Encode(data, parity, s))[i] == s[i] && (s' + Encode(data, parity, s'))[i] == s'[i];
  }

  lemma KnownRow(data: nat, parity: nat, view: View, s: seq<seq<byte>>, s': seq<seq<byte>>, t: nat, high: bool, j: nat)
    requires Explains(data, parity, view, s) && Explains(data, parity, view, s')
    requires 1 <= data && parity <= 4 && |Present(view)| >= data && t < Length(s)
    requires data + j in Present(view)
    ensures j < 4 && Dot(Column(s, t, high), j) == Dot(Column(s', t, high), j)
  {
    hide Half, Dot, ByteOf;
    SameLength(data, parity, view, s, s');
    var w, w' := s + Encode(data, parity, s), s' + Encode(data, parity, s');
    assert w[data + j] == ParityShard(s, j) && w'[data + j] == ParityShard(s', j);
    assert ParityShard(s, j)[t] == ParityShard(s', j)[t];
    HalvesOf(Dot(Column(s, t, true), j), Dot(Column(s, t, false), j));
    HalvesOf(Dot(Column(s', t, true), j), Dot(Column(s', t, false), j));
  }

  /** Enough shards of a word have only one explanation. */
  lemma OneExplanation(data: nat, parity: nat, view: View, s: seq<seq<byte>>, s': seq<seq<byte>>)
    requires Explains(data, parity, view, s) && Explains(data, parity, view, s')
    requires 1 <= data <= 10 && parity <= 4 && |Present(view)| >= data
    ensures s == s'
  {
    hide Half, Explains, Present;
    SameLength(data, parity, view, s, s');
    ExplanationShape(data, parity, view, s);
    ExplanationShape(data, parity, view, s');
    forall i, t | 0 <= i < data && 0 <= t < Length(s) ensures s[i][t] == s'[i][t] {
      SameSymbols(data, parity, view, s, s', t, true);
      SameSymbols(data, parity, view, s, s', t, false);
      assert Column(s, t, true)[i] == Column(s', t, true)[i] && Column(s, t, false)[i] == Column(s', t, false)[i];
      HalvesDecide(s[i][t], s'[i][t]);
    }
    forall i | 0 <= i < data ensures s[i] == s'[i] {}
  }

  lemma WordRecoverable(code: Code, data: nat, parity: nat, shards: seq<seq<byte>>)
    requires code.encode == Encode && code.reconstruct == Reconstruct
    requires 1 <= data <= 10 && parity <= 4 && |shards| == data && EqualLengths(shards)
    ensures Recoverable(code, parity, shards)
  {
    hide Present, ParityShard;
    var word := Word(code, parity, shards);
    assert word == shards + Encode(data, parity, shards);
    forall view | Agrees(view, word) && |Present(view)| >= data
      ensures code.reconstruct(data, parity, view) == Some(word)
    {
      assert Explains(data, parity, view, shards);
      var s' :| Explains(data, parity, view, s') &&
        Reconstruct(data, parity, view) == Some(s' + Encode(data, parity, s'));
      OneExplanation(data, parity, view, shards, s');
    }
  }

  /** The hypothesis of the delivery theorems is not vacuous. */
  lemma HonestCodeExists() returns (code: Code)
    ensures HonestCode(code)
  {
    var c := Codec(Encode, Reconstruct);
    forall d: nat, p: nat, v: View ensures Reconstruct(d, p, v).Some? ==> |Reconstruct(d, p, v).value| == |v| {}
    code := c;
    forall d, p | 1 <= p <= 4 && p <= d <= DATA_SHARDS ensures Corrects(code, d, p) {
      forall shards | |shards| == d && EqualLengths(shards) ensures Recoverable(code, p, shards) {
        WordRecoverable(code, d, p, shards);
      }
    }
  }
}
