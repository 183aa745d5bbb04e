/** The field of 16 elements, as polynomials over two elements modulo x^4 + x + 1. */
module SixteenField {
  /** A polynomial over the two-element field of degree below four, constant term first. */
  datatype Symbol = Symbol(a: bool, b: bool, c: bool, d: bool)

  const ZERO := Symbol(false, false, false, false)
  const ONE := Symbol(true, false, false, false)

  function Add(x: Symbol, y: Symbol): Symbol {
    Symbol(x.a != y.a, x.b != y.b, x.c != y.c, x.d != y.d)
  }

  /** Multiplication by x modulo x^4 + x + 1. */
  function Double(x: Symbol): Symbol { Symbol(x.d, x.a != x.d, x.b, x.c) }

  function Scale(k: bool, x: Symbol): Symbol { if k then x else ZERO }

  /** The product's coefficients, with x^4 = x + 1, x^5 = x^2 + x and x^6 = x^3 + x^2 folded in. */
  function Mul(x: Symbol, y: Symbol): Symbol {
    var x4 := ((x.b && y.d) != (x.d && y.b)) != (x.c && y.c);
    var x5 := (x.c && y.d) != (x.d && y.c);
    var x6 := x.d && y.d;
    Symbol((x.a && y.a) != x4,
           (((x.a && y.b) != (x.b && y.a)) != x4) != x5,
           ((((x.a && y.c) != (x.c && y.a)) != (x.b && y.b)) != x5) != x6,
           (((x.a && y.d) != (x.d && y.a)) != ((x.b && y.c) != (x.c && y.b))) != x6)
  }

  function Inv(x: Symbol): Symbol {
    match x
    case Symbol(true, false, false, false) => Symbol(true, false, false, false)
    case Symbol(false, true, false, false) => Symbol(true, false, false, true)
    case Symbol(true, true, false, false) => Symbol(false, true, true, true)
    case Symbol(false, false, true, false) => Symbol(true, false, true, true)
    case Symbol(true, false, true, false) => Symbol(true, true, false, true)
    case Symbol(false, true, true, false) => Symbol(true, true, true, false)
    case Symbol(true, true, true, false) => Symbol(false, true, true, false)
    case Symbol(false, false, false, true) => Symbol(true, true, true, true)
    case Symbol(true, false, false, true) => Symbol(false, true, false, false)
    case Symbol(false, true, false, true) => Symbol(false, false, true, true)
    case Symbol(true, true, false, true) => Symbol(true, false, true, false)
    case Symbol(false, false, true, true) => Symbol(false, true, false, true)
    case Symbol(true, false, true, true) => Symbol(false, false, true, false)
    case Symbol(false, true, true, true) => Symbol(true, true, false, false)
    case Symbol(true, true, true, true) => Symbol(false, false, false, true)
    case Symbol(false, false, false, false) => ZERO
  }

  lemma Inverse(x: Symbol)
    requires x != ZERO
    ensures Mul(x, Inv(x)) == ONE && Inv(x) != ZERO
  {
  }

  lemma Additive(x: Symbol, y: Symbol)
    ensures Add(x, y) == Add(y, x) && Add(x, x) == ZERO && Add(x, ZERO) == x && (Add(x, y) == ZERO <==> x == y)
  {
  }

  lemma Exchange(p: Symbol, q: Symbol, r: Symbol, s: Symbol)
    ensures Add(Add(p, q), Add(r, s)) == Add(Add(p, r), Add(q, s))
  {
  }

  lemma Commutes(x: Symbol, y: Symbol)
    ensures Mul(x, y) == Mul(y, x)
  {
  }

  lemma ScaleAdds(p: bool, q: bool, t: Symbol)
    ensures Scale(p != q, t) == Add(Scale(p, t), Scale(q, t))
  {
  }

  lemma MulIs(x: Symbol, y: Symbol)
    ensures Mul(x, y) == Add(Add(Scale(y.a, x), Scale(y.b, Double(x))),
                             Add(Scale(y.c, Double(Double(x))), Scale(y.d, Double(Double(Double(x))))))
  {
  }

  lemma AddParts(y: Symbol, z: Symbol)
    ensures
      var s := Add(y, z);
      s.a == (y.a != z.a) && s.b == (y.b != z.b) && s.c == (y.c != z.c) && s.d == (y.d != z.d)
  {
  }

  lemma DistributesRight(x: Symbol, y: Symbol, z: Symbol)
    ensures Mul(x, Add(y, z)) == Add(Mul(x, y), Mul(x, z))
  {
    hide Mul, Double, Scale, Add;
    var x1, x2, x3 := Double(x), Double(Double(x)), Double(Double(Double(x)));
    AddParts(y, z);
    MulIs(x, Add(y, z));
    MulIs(x, y);
    MulIs(x, z);
    ScaleAdds(y.a, z.a, x);
    ScaleAdds(y.b, z.b, x1);
    ScaleAdds(y.c, z.c, x2);
    ScaleAdds(y.d, z.d, x3);
    Exchange(Scale(y.a, x), Scale(z.a, x), Scale(y.b, x1), Scale(z.b, x1));
    Exchange(Scale(y.c, x2), Scale(z.c, x2), Scale(y.d, x3), Scale(z.d, x3));
    Exchange(Add(Scale(y.a, x), Scale(y.b, x1)), Add(Scale(z.a, x), Scale(z.b, x1)),
             Add(Scale(y.c, x2), Scale(y.d, x3)), Add(Scale(z.c, x2), Scale(z.d, x3)));
  }

  lemma Distributes(x: Symbol, y: Symbol, z: Symbol)
    ensures Mul(x, Add(y, z)) == Add(Mul(x, y), Mul(x, z)) && Mul(Add(y, z), x) == Add(Mul(y, x), Mul(z, x))
  {
    hide Mul, Add;
    DistributesRight(x, y, z);
    Commutes(Add(y, z), x);
    Commutes(y, x);
    Commutes(z, x);
  }

  lemma DoubleAdds(x: Symbol, y: Symbol)
    ensures Double(Add(x, y)) == Add(Double(x), Double(y))
  {
  }

  lemma DoubleScales(k: bool, x: Symbol)
    ensures Double(Scale(k, x)) == Scale(k, Double(x))
  {
  }

  lemma Reduce(x: Symbol)
    ensures Double(Double(Double(Double(x)))) == Add(x, Double(x))
  {
  }

  lemma ScaleOver(k: bool, x: Symbol, y: Symbol)
    ensures Scale(k, Add(x, y)) == Add(Scale(k, x), Scale(k, y))
  {
  }

  lemma Rotate(p: Symbol, q: Symbol, r: Symbol, s: Symbol, t: Symbol)
    ensures Add(Add(p, q), Add(r, Add(s, t))) == Add(Add(s, Add(p, t)), Add(q, r))
  {
  }

  lemma DoubleParts(y: Symbol)
    ensures Double(y).a == y.d && Double(y).b == (y.a != y.d) && Double(y).c == y.b && Double(y).d == y.c
  {
  }

  lemma DoubleMoves(x: Symbol, y: Symbol)
    ensures Double(Mul(x, y)) == Mul(x, Double(y))
  {
    hide Mul, Double, Scale, Add;
    var x1, x2, x3 := Double(x), Double(Double(x)), Double(Double(Double(x)));
    MulIs(x, y);
    MulIs(x, Double(y));
    DoubleParts(y);
    DoubleAdds(Add(Scale(y.a, x), Scale(y.b, x1)), Add(Scale(y.c, x2), Scale(y.d, x3)));
    DoubleAdds(Scale(y.a, x), Scale(y.b, x1));
    DoubleAdds(Scale(y.c, x2), Scale(y.d, x3));
    DoubleScales(y.a, x);
    DoubleScales(y.b, x1);
    DoubleScales(y.c, x2);
    DoubleScales(y.d, x3);
    Reduce(x);
    ScaleOver(y.d, x, x1);
    ScaleAdds(y.a, y.d, x1);
    Rotate(Scale(y.a, x1), Scale(y.b, x2), Scale(y.c, x3), Scale(y.d, x), Scale(y.d, x1));
  }

  lemma ScaleMoves(k: bool, x: Symbol, t: Symbol)
    ensures Scale(k, Mul(x, t)) == Mul(x, Scale(k, t))
  {
  }

  lemma Associates(x: Symbol, y: Symbol, z: Symbol)
    ensures Mul(Mul(x, y), z) == Mul(x, Mul(y, z))
  {
    hide Mul, Double, Scale, Add;
    var y1, y2, y3 := Double(y), Double(Double(y)), Double(Double(Double(y)));
    MulIs(Mul(x, y), z);
    MulIs(y, z);
    DoubleMoves(x, y);
    DoubleMoves(x, y1);
    DoubleMoves(x, y2);
    ScaleMoves(z.a, x, y);
    ScaleMoves(z.b, x, y1);
    ScaleMoves(z.c, x, y2);
    ScaleMoves(z.d, x, y3);
    Distributes(x, Add(Scale(z.a, y), Scale(z.b, y1)), Add(Scale(z.c, y2), Scale(z.d, y3)));
    Distributes(x, Scale(z.a, y), Scale(z.b, y1));
    Distributes(x, Scale(z.c, y2), Scale(z.d, y3));
  }

  lemma Units(x: Symbol)
    ensures Mul(x, ONE) == x && Mul(ONE, x) == x && Mul(x, ZERO) == ZERO && Mul(ZERO, x) == ZERO
  {
    hide Mul;
    TimesOne(x);
    TimesZero(x);
    Commutes(x, ONE);
    Commutes(x, ZERO);
  }

  lemma TimesOne(x: Symbol)
    ensures Mul(x, ONE) == x
  {
  }

  lemma TimesZero(x: Symbol)
    ensures Mul(x, ZERO) == ZERO
  {
  }

  lemma NoZeroDivisors(x: Symbol, y: Symbol)
    requires Mul(x, y) == ZERO && x != ZERO
    ensures y == ZERO
  {
  }
}
