/**
  Exact rational arithmetic of marsksim/boost/rational.hpp: the compound assignments keep
  fractions in lowest terms without a final normalisation, and the ordering is decided
  by comparing continued-fraction expansions.  The component type is the unbounded `int`.
 */
module Rationals {

  // ---------- greatest common divisor ----------

  function Abs(x: int): nat {
    if x < 0 then -x else x
  }

  /** The mathematical meaning of integer::gcd: non-negative, and gcd(0, n) == |n|. */
  function Gcd(a: int, b: int): nat
    decreases Abs(b)
  {
    if b == 0 then Abs(a) else Gcd(b, a % b)
  }

  ghost predicate Divides(d: int, a: int) {
    exists k :: Scaled(d, k, a)
  }

  ghost predicate Scaled(d: int, k: int, a: int) {
    a == d * k
  }

  /** x and y are Bezout coefficients that express g from a and b. */
  ghost predicate Bezout(a: int, b: int, x: int, y: int, g: int) {
    a * x + b * y == g
  }

  ghost predicate Coprime(a: int, b: int) {
    exists x, y :: Bezout(a, b, x, y, 1)
  }

  lemma {:induction false} GcdIsCombination(a: int, b: int) returns (x: int, y: int)
    ensures Bezout(a, b, x, y, Gcd(a, b))
    decreases Abs(b)
  {
    if b == 0 {
      x, y := if a < 0 then -1 else 1, 0;
    } else {
      var u, v := GcdIsCombination(b, a % b);
      x, y := v, u - (a / b) * v;
      calc {
        a * x + b * y;
        a * v + b * (u - (a / b) * v);
        a * v + b * u - b * ((a / b) * v);
        { assert b * ((a / b) * v) == (b * (a / b)) * v; }
        a * v + b * u - (b * (a / b)) * v;
        { assert a == b * (a / b) + a % b;
          assert a * v - (b * (a / b)) * v == (a - b * (a / b)) * v; }
        b * u + (a % b) * v;
      }
    }
  }

  lemma {:induction false} GcdDivides(a: int, b: int)
    ensures Divides(Gcd(a, b), a) && Divides(Gcd(a, b), b)
    ensures a != 0 || b != 0 ==> Gcd(a, b) > 0
    decreases Abs(b)
  {
    var g := Gcd(a, b);
    if b == 0 {
      assert Scaled(g, if a < 0 then -1 else 1, a);
      assert Scaled(g, 0, b);
    } else {
      GcdDivides(b, a % b);
      DividesCombination(g, b, a % b, a / b, 1);
      assert b * (a / b) + (a % b) * 1 == a;
    }
  }

  lemma MultipleBounds(d: int, k: int)
    requires d >= 0
    ensures k >= 1 ==> d * k >= d
    ensures k <= 0 ==> d * k <= 0
    ensures k <= -1 ==> d * k <= -d
  {
  }

  lemma UnitDivisor(d: int)
    requires Divides(d, 1) && d >= 0
    ensures d == 1
  {
    var k :| Scaled(d, k, 1);
    MultipleBounds(d, k);
  }

  /** A common divisor of a and b divides every combination of them. */
  lemma DividesCombination(d: int, a: int, b: int, x: int, y: int)
    requires Divides(d, a) && Divides(d, b)
    ensures Divides(d, a * x + b * y)
  {
    var k :| Scaled(d, k, a);
    var m :| Scaled(d, m, b);
    calc {
      a * x + b * y;
      (d * k) * x + (d * m) * y;
      { assert (d * k) * x == d * (k * x); assert (d * m) * y == d * (m * y); }
      d * (k * x) + d * (m * y);
      d * (k * x + m * y);
    }
    assert Scaled(d, k * x + m * y, a * x + b * y);
  }

  /** Gcd is the greatest common divisor: every common divisor divides it. */
  lemma GcdGreatest(a: int, b: int, d: int)
    requires Divides(d, a) && Divides(d, b)
    ensures Divides(d, Gcd(a, b))
  {
    var x, y := GcdIsCombination(a, b);
    DividesCombination(d, a, b, x, y);
  }

  lemma CoprimeIffGcdOne(a: int, b: int)
    ensures Coprime(a, b) <==> Gcd(a, b) == 1
  {
    if Coprime(a, b) {
      var u, v :| Bezout(a, b, u, v, 1);
      GcdDivides(a, b);
      DividesCombination(Gcd(a, b), a, b, u, v);
      UnitDivisor(Gcd(a, b));
    } else {
      var x, y := GcdIsCombination(a, b);
    }
  }

  // ---------- coprimality calculus ----------

  lemma CoprimeSymmetric(a: int, b: int)
    requires Coprime(a, b)
    ensures Coprime(b, a)
  {
    var x, y :| Bezout(a, b, x, y, 1);
    assert Bezout(b, a, y, x, 1);
  }

  lemma CoprimeProduct(a: int, b: int, c: int)
    requires Coprime(a, c) && Coprime(b, c)
    ensures Coprime(a * b, c)
  {
    var x, y :| Bezout(a, c, x, y, 1);
    var z, w :| Bezout(b, c, z, w, 1);
    var t := y * (b * z) + y * (c * w) + (a * x) * w;
    calc {
      1;
      (a * x + c * y) * (b * z + c * w);
      (a * x) * (b * z) + (a * x) * (c * w) + (c * y) * (b * z + c * w);
      { assert (a * x) * (b * z) == (a * b) * (x * z); }
      { assert (a * x) * (c * w) == c * ((a * x) * w); }
      { assert (c * y) * (b * z + c * w) == c * (y * (b * z) + y * (c * w)); }
      (a * b) * (x * z) + c * ((a * x) * w) + c * (y * (b * z) + y * (c * w));
      (a * b) * (x * z) + c * t;
    }
    assert Bezout(a * b, c, x * z, t, 1);
  }

  /** Adding a multiple of c to a keeps it coprime to c. */
  lemma CoprimeShift(a: int, k: int, c: int)
    requires Coprime(a, c)
    ensures Coprime(a + k * c, c)
  {
    var x, y :| Bezout(a, c, x, y, 1);
    calc {
      (a + k * c) * x + c * (y - k * x);
      a * x + (k * c) * x + c * y - c * (k * x);
      { assert (k * c) * x == c * (k * x); }
      a * x + c * y;
    }
    assert Bezout(a + k * c, c, x, y - k * x, 1);
  }

  lemma CoprimeFactor(a: int, k: int, c: int)
    requires Coprime(a * k, c)
    ensures Coprime(a, c)
  {
    var x, y :| Bezout(a * k, c, x, y, 1);
    assert (a * k) * x == a * (k * x);
    assert Bezout(a, c, k * x, y, 1);
  }

  lemma DivideCombination(g: int, k: int, m: int, x: int, y: int)
    requires g > 0 && (g * k) * x + (g * m) * y == g
    ensures Bezout(k, m, x, y, 1)
  {
    assert (g * k) * x == g * (k * x);
    assert (g * m) * y == g * (m * y);
    CancelFactor(g, k * x + m * y, 1);
  }

  /** Dividing both numbers by their gcd leaves coprime quotients. */
  lemma QuotientsCoprime(a: int, b: int) returns (g: int, k: int, m: int)
    requires a != 0 || b != 0
    ensures g == Gcd(a, b) > 0 && k == a / g && m == b / g
    ensures a == g * k && b == g * m && Coprime(k, m)
  {
    g := Gcd(a, b);
    GcdDivides(a, b);
    ExactQuotient(g, a);
    ExactQuotient(g, b);
    k, m := a / g, b / g;
    var x, y := GcdIsCombination(a, b);
    DivideCombination(g, k, m, x, y);
  }

  lemma ExactQuotient(g: int, a: int)
    requires g > 0 && Divides(g, a)
    ensures a == g * (a / g)
  {
    var k :| Scaled(g, k, a);
    var q, r := a / g, a % g;
    assert g * (k - q) == r;
    MultipleBounds(g, k - q);
  }

  lemma CancelFactor(g: int, a: int, b: int)
    requires g != 0 && g * a == g * b
    ensures a == b
  {
    assert g * (a - b) == 0;
  }

  lemma CoprimeNegate(a: int, b: int)
    requires Coprime(a, b)
    ensures Coprime(-a, b) && Coprime(a, -b) && Coprime(-a, -b)
  {
    var x, y :| Bezout(a, b, x, y, 1);
    assert Bezout(-a, b, -x, y, 1);
    assert Bezout(a, -b, x, -y, 1);
    assert Bezout(-a, -b, -x, -y, 1);
  }

  // ---------- lowest terms ----------

  /** Normalised form of a fraction: a positive denominator and nothing left to cancel. */
  ghost predicate LowestTerms(n: int, d: int) {
    d > 0 && Gcd(n, d) == 1
  }

  /** n/d and p/q denote the same number. */
  predicate SameValue(n: int, d: int, p: int, q: int) {
    n * q == p * d
  }

  /** If d divides k * a and is coprime to a, then d divides k. */
  lemma CoprimeCancel(d: int, a: int, k: int)
    requires Coprime(a, d) && Divides(d, k * a)
    ensures Divides(d, k)
  {
    var x, y :| Bezout(a, d, x, y, 1);
    var m :| Scaled(d, m, k * a);
    calc {
      k;
      k * (a * x + d * y);
      (k * a) * x + k * (d * y);
      (d * m) * x + k * (d * y);
      { assert (d * m) * x == d * (m * x); assert k * (d * y) == d * (k * y); }
      d * (m * x + k * y);
    }
    assert Scaled(d, m * x + k * y, k);
  }

  lemma DividesEachOther(a: int, b: int)
    requires a > 0 && b > 0 && Divides(a, b) && Divides(b, a)
    ensures a == b
  {
    var k :| Scaled(a, k, b);
    var m :| Scaled(b, m, a);
    MultipleBounds(a, k);
    MultipleBounds(b, m);
  }

  /** Every number has exactly one representation in lowest terms, so componentwise
      equality (operator==) decides equality of values. */
  lemma LowestTermsUnique(n: int, d: int, p: int, q: int)
    requires LowestTerms(n, d) && LowestTerms(p, q)
    ensures SameValue(n, d, p, q) <==> n == p && d == q
  {
    if SameValue(n, d, p, q) {
      CoprimeIffGcdOne(n, d);
      CoprimeIffGcdOne(p, q);
      assert Scaled(d, p, q * n);
      CoprimeCancel(d, n, q);
      assert Scaled(q, n, d * p);
      CoprimeCancel(q, p, d);
      DividesEachOther(d, q);
      assert d * n == d * p;
      CancelFactor(d, n, p);
    }
  }

  lemma Regroup(g: int, h: int, n1: int, b1: int, d1: int, g1: int)
    ensures (g * (h * n1)) * (b1 * (d1 * g1)) == n1 * ((g * b1) * ((h * g1) * d1))
  {
  }

  lemma SumValue(a: int, b1: int, c: int, d1: int, g: int, h: int, n1: int, g1: int)
    requires g == h * g1 && a * d1 + c * b1 == h * n1
    ensures SameValue(n1, b1 * (d1 * g1), a * (g * d1) + c * (g * b1), (g * b1) * (g * d1))
  {
    assert a * (g * d1) + c * (g * b1) == g * (h * n1) by {
      assert a * (g * d1) == g * (a * d1);
      assert c * (g * b1) == g * (c * b1);
    }
    Regroup(g, h, n1, b1, d1, g1);
  }

  /** The step the source argues informally (rational.hpp:284-297): after dividing by
      h = gcd(a*d1 + c*b1, g) nothing is left to cancel in the sum. */
  lemma SumInLowestTerms(a: int, b1: int, c: int, d1: int, g: int, h: int, n1: int, g1: int)
    requires Coprime(a, g * b1) && Coprime(c, g * d1) && Coprime(b1, d1)
    requires g == h * g1 && a * d1 + c * b1 == h * n1 && Coprime(n1, g1)
    ensures Coprime(n1, b1 * (d1 * g1))
  {
    CoprimeToNumerator(a, b1, c, d1, g);
    assert a * d1 + c * b1 == n1 * h;
    CoprimeFactor(n1, h, b1);
    CoprimeSymmetric(b1, d1);
    CoprimeToNumerator(c, d1, a, b1, g);
    CoprimeFactor(n1, h, d1);
    CoprimeSymmetric(n1, b1);
    CoprimeSymmetric(n1, d1);
    CoprimeSymmetric(n1, g1);
    CoprimeProduct(d1, g1, n1);
    CoprimeProduct(b1, d1 * g1, n1);
    CoprimeSymmetric(b1 * (d1 * g1), n1);
  }

  lemma CoprimeToNumerator(a: int, b1: int, c: int, d1: int, g: int)
    requires Coprime(a, g * b1) && Coprime(b1, d1)
    ensures Coprime(a * d1 + c * b1, b1)
  {
    assert g * b1 == b1 * g;
    CoprimeSymmetric(a, b1 * g);
    CoprimeFactor(b1, g, a);
    CoprimeSymmetric(b1, a);
    CoprimeSymmetric(b1, d1);
    CoprimeProduct(a, d1, b1);
    CoprimeShift(a * d1, c, b1);
  }

  /** Cross-cancelling the factors first leaves a product in lowest terms. */
  lemma ProductInLowestTerms(a: int, b: int, c: int, d: int, g1: int, g2: int, a1: int, b1: int, c1: int, d1: int)
    requires Coprime(a, b) && Coprime(c, d)
    requires a == g1 * a1 && d == g1 * d1 && Coprime(a1, d1)
    requires c == g2 * c1 && b == g2 * b1 && Coprime(c1, b1)
    ensures Coprime(a1 * c1, b1 * d1)
    ensures SameValue(a1 * c1, b1 * d1, a * c, b * d)
  {
    CoprimeCofactors(g1, a1, g2, b1);
    CoprimeCofactors(g2, c1, g1, d1);
    CoprimeProduct(a1, c1, b1);
    CoprimeProduct(a1, c1, d1);
    CoprimeSymmetric(a1 * c1, b1);
    CoprimeSymmetric(a1 * c1, d1);
    CoprimeProduct(b1, d1, a1 * c1);
    CoprimeSymmetric(b1 * d1, a1 * c1);
    ProductValue(g1, a1, d1, g2, c1, b1);
  }

  lemma ProductValue(g1: int, a1: int, d1: int, g2: int, c1: int, b1: int)
    ensures SameValue(a1 * c1, b1 * d1, (g1 * a1) * (g2 * c1), (g2 * b1) * (g1 * d1))
  {
    var g := g1 * g2;
    assert (g1 * a1) * (g2 * c1) == g * (a1 * c1);
    assert (g2 * b1) * (g1 * d1) == g * (b1 * d1);
    assert (a1 * c1) * (g * (b1 * d1)) == (g * (a1 * c1)) * (b1 * d1);
  }

  lemma CoprimeCofactors(g: int, a: int, h: int, b: int)
    requires Coprime(g * a, h * b)
    ensures Coprime(a, b)
  {
    assert g * a == a * g && h * b == b * h;
    CoprimeFactor(a, g, h * b);
    CoprimeSymmetric(a, b * h);
    CoprimeFactor(b, h, a);
    CoprimeSymmetric(b, a);
  }

  lemma SumResult(a: int, b: int, c: int, d: int, g: int, b1: int, d1: int, h: int, n1: int, g1: int)
    requires b1 > 0 && d1 > 0 && g1 > 0 && Coprime(a, b) && Coprime(c, d) && Coprime(b1, d1)
    requires b == g * b1 && d == g * d1 && g == h * g1
    requires a * d1 + c * b1 == h * n1 && Coprime(n1, g1)
    ensures LowestTerms(n1, b1 * (d1 * g1))
    ensures SameValue(n1, b1 * (d1 * g1), a * d + c * b, b * d)
  {
    SumInLowestTerms(a, b1, c, d1, g, h, n1, g1);
    SumValue(a, b1, c, d1, g, h, n1, g1);
    CoprimeIffGcdOne(n1, b1 * (d1 * g1));
    PositiveProduct(d1, g1);
    PositiveProduct(b1, d1 * g1);
  }

  lemma PositiveProduct(a: int, b: int)
    requires a > 0 && b > 0
    ensures a * b > 0
  {
  }

  lemma RescaledDenominator(h: int, g1: int, d1: int)
    requires h > 0
    ensures TruncDiv((h * g1) * d1, h) == d1 * g1
  {
    assert (h * g1) * d1 == h * (d1 * g1);
    TruncExact(h, d1 * g1);
  }

  lemma FlipSigns(n: int, d: int, p: int, q: int)
    requires Coprime(n, d) && d != 0 && SameValue(n, d, p, q)
    ensures d > 0 ==> LowestTerms(n, d)
    ensures d < 0 ==> LowestTerms(-n, -d)
    ensures SameValue(-n, -d, p, q)
  {
    CoprimeNegate(n, d);
    CoprimeIffGcdOne(n, d);
    CoprimeIffGcdOne(-n, -d);
    assert (-n) * q == -(n * q);
    assert p * (-d) == -(p * d);
  }

  lemma NonzeroProduct(a: int, b: int)
    requires a != 0 && b != 0
    ensures a * b != 0
  {
  }

  // ---------- C++ division ----------

  /** Integer division of C++, truncating toward zero, by a positive divisor. */
  function TruncDiv(a: int, b: int): int
    requires b > 0
  {
    if a >= 0 then a / b else -((-a) / b)
  }

  function TruncMod(a: int, b: int): int
    requires b > 0
  {
    a - b * TruncDiv(a, b)
  }

  lemma TruncExact(g: int, k: int)
    requires g > 0
    ensures TruncDiv(g * k, g) == k
  {
    if g * k >= 0 {
      QuotientOfMultiple(g, k);
    } else {
      assert -(g * k) == g * (-k);
      QuotientOfMultiple(g, -k);
    }
  }

  lemma QuotientOfMultiple(g: int, k: int)
    requires g > 0
    ensures (g * k) / g == k
  {
    assert Scaled(g, k, g * k);
    ExactQuotient(g, g * k);
    CancelFactor(g, (g * k) / g, k);
  }

  // ---------- inner_gcd and is_normalized ----------

  /** C++ remainder for any non-zero divisor: it takes the sign of the dividend. */
  function TruncRem(a: int, b: int): int
    requires b != 0
  {
    if a >= 0 then a % Abs(b) else -((-a) % Abs(b))
  }

  /** inner_gcd: Euclid's recursion on C++ remainders, so the result may be negative. */
  function InnerGcd(a: int, b: int): int
    decreases Abs(b)
  {
    if b == 0 then a else InnerGcd(b, TruncRem(a, b))
  }

  predicate IsNormalized(n: int, d: int) {
    d > 0 && (n != 0 || d == 1) && Abs(InnerGcd(n, d)) == 1
  }

  lemma CommonDivisorStep(d: int, a: int, b: int, q: int, r: int)
    requires a == b * q + r && Divides(d, b) && (Divides(d, a) || Divides(d, r))
    ensures Divides(d, a) && Divides(d, r)
  {
    if Divides(d, a) {
      DividesCombination(d, a, b, 1, -q);
      assert a * 1 + b * (-q) == r;
    } else {
      DividesCombination(d, b, r, q, 1);
    }
  }

  /** A positive common divisor that every other one divides is the gcd. */
  lemma GcdCharacterised(a: int, b: int, g: int)
    requires g > 0 && Divides(g, a) && Divides(g, b) && Divides(Gcd(a, b), g)
    ensures g == Gcd(a, b)
  {
    GcdGreatest(a, b, g);
    var k :| Scaled(Gcd(a, b), k, g);
    assert Gcd(a, b) != 0;
    DividesEachOther(g, Gcd(a, b));
  }

  lemma GcdStep(a: int, b: int, q: int, r: int)
    requires b != 0 && a == b * q + r
    ensures Gcd(b, r) == Gcd(a, b)
  {
    var g := Gcd(a, b);
    GcdDivides(a, b);
    GcdDivides(b, r);
    CommonDivisorStep(g, a, b, q, r);
    CommonDivisorStep(Gcd(b, r), a, b, q, r);
    GcdGreatest(a, b, Gcd(b, r));
    GcdCharacterised(b, r, g);
  }

  lemma TruncQuotient(a: int, b: int) returns (q: int)
    requires b != 0
    ensures a == b * q + TruncRem(a, b)
  {
    var m := Abs(b);
    if a >= 0 {
      q := if b > 0 then a / m else -(a / m);
    } else {
      q := if b > 0 then -((-a) / m) else (-a) / m;
    }
  }

  lemma {:induction false} InnerGcdMagnitude(a: int, b: int)
    ensures Abs(InnerGcd(a, b)) == Gcd(a, b)
    decreases Abs(b)
  {
    if b != 0 {
      var q := TruncQuotient(a, b);
      GcdStep(a, b, q, TruncRem(a, b));
      InnerGcdMagnitude(b, TruncRem(a, b));
    }
  }

  /** is_normalized accepts exactly the fractions in lowest terms. */
  lemma IsNormalizedDecides(n: int, d: int)
    ensures IsNormalized(n, d) <==> LowestTerms(n, d)
  {
    InnerGcdMagnitude(n, d);
    if d > 0 {
      GcdDivides(n, d);
      if n == 0 {
        assert Scaled(d, 0, n) && Scaled(d, 1, d);
        GcdGreatest(n, d, d);
        DividesEachOther(d, Gcd(n, d));
      }
    }
  }

  // ---------- the rational class ----------

  class Rational {
    var num: int
    var den: int

    ghost predicate Valid()
      reads this
    {
      LowestTerms(num, den)
    }

    /** rational(n, d) with normalize(); a zero denominator is the bad_rational exception. */
    static method Make(n: int, d: int) returns (r: Rational?)
      ensures r == null <==> d == 0
      ensures r != null ==> fresh(r) && r.Valid() && SameValue(r.num, r.den, n, d)
    {
      if d == 0 {
        return null;
      }
      r := new Rational;
      r.num, r.den := Normalized(n, d);
    }

    /** normalize(): the same value in lowest terms. */
    static method Normalized(n: int, d: int) returns (num: int, den: int)
      requires d != 0
      ensures LowestTerms(num, den) && SameValue(num, den, n, d)
    {
      if n == 0 {
        return 0, 1;
      }
      var g, k, m := Cancel(n, d);
      assert SameValue(k, m, n, d) by { assert k * (g * m) == (g * k) * m; }
      FlipSigns(k, m, n, d);
      num, den := k, m;
      if den < 0 {
        num, den := -num, -den;
      }
    }

    /** Both numbers divided by integer::gcd of the two. */
    static method Cancel(a: int, b: int) returns (g: int, k: int, m: int)
      requires a != 0 || b != 0
      ensures g == Gcd(a, b) > 0 && a == g * k && b == g * m && Coprime(k, m)
      ensures b > 0 ==> m > 0
      ensures b < 0 ==> m < 0
    {
      g := Gcd(a, b);
      ghost var g', k', m' := QuotientsCoprime(a, b);
      TruncExact(g, k');
      TruncExact(g, m');
      k, m := TruncDiv(a, g), TruncDiv(b, g);
      MultipleBounds(g, m);
    }

    /** operator+= ; r may be this object itself. */
    method AddAssign(r: Rational)
      requires Valid() && r.Valid()
      modifies this
      ensures Valid()
      ensures SameValue(num, den, old(num) * old(r.den) + old(r.num) * old(den), old(den) * old(r.den))
    {
      AddSigned(r, 1);
    }

    /** operator-= ; r may be this object itself. */
    method SubtractAssign(r: Rational)
      requires Valid() && r.Valid()
      modifies this
      ensures Valid()
      ensures SameValue(num, den, old(num) * old(r.den) + (-old(r.num)) * old(den), old(den) * old(r.den))
    {
      AddSigned(r, -1);
    }

    /** The body that += (sign 1) and -= (sign -1) share line by line. */
    method AddSigned(r: Rational, sign: int)
      requires Valid() && r.Valid() && (sign == 1 || sign == -1)
      modifies this
      ensures Valid()
      ensures SameValue(num, den, old(num) * old(r.den) + (sign * old(r.num)) * old(den), old(den) * old(r.den))
    {
      var rNum, rDen := r.num, r.den;
      ghost var a, b, c := num, den, sign * rNum;
      assert Coprime(a, b) && Coprime(c, rDen) by {
        CoprimeIffGcdOne(a, b);
        CoprimeIffGcdOne(rNum, rDen);
        CoprimeNegate(rNum, rDen);
      }
      var g, b1, d1 := Cancel(den, rDen);
      den := b1;
      num := num * d1 + (sign * rNum) * den;
      var h, n1, g1 := Cancel(num, g);
      num := n1;
      RescaledDenominator(h, g1, d1);
      den := den * TruncDiv(rDen, h);
      SumResult(a, b, c, rDen, g, b1, d1, h, n1, g1);
    }

    /** operator*= ; r may be this object itself. */
    method MultiplyAssign(r: Rational)
      requires Valid() && r.Valid()
      modifies this
      ensures Valid()
      ensures SameValue(num, den, old(num) * old(r.num), old(den) * old(r.den))
    {
      var rNum, rDen := r.num, r.den;
      CoprimeIffGcdOne(num, den);
      CoprimeIffGcdOne(rNum, rDen);
      var gcd1, a1, d1 := Cancel(num, rDen);
      var gcd2, c1, b1 := Cancel(rNum, den);
      ProductInLowestTerms(num, den, rNum, rDen, gcd1, gcd2, a1, b1, c1, d1);
      num := a1 * c1;
      den := b1 * d1;
      CoprimeIffGcdOne(num, den);
    }

    /** operator/= ; dividing by zero is the bad_rational exception and changes nothing. */
    method DivideAssign(r: Rational) returns (ok: bool)
      requires Valid() && r.Valid()
      modifies this
      ensures Valid()
      ensures ok <==> old(r.num) != 0
      ensures !ok ==> num == old(num) && den == old(den)
      ensures ok ==> SameValue(num, den, old(num) * old(r.den), old(den) * old(r.num))
    {
      var rNum, rDen := r.num, r.den;
      if rNum == 0 {
        return false;
      }
      if num == 0 {
        return true;
      }
      CoprimeIffGcdOne(num, den);
      CoprimeIffGcdOne(rNum, rDen);
      CoprimeSymmetric(rNum, rDen);
      var gcd1, a1, c1 := Cancel(num, rNum);
      var gcd2, d1, b1 := Cancel(rDen, den);
      ProductInLowestTerms(num, den, rDen, rNum, gcd1, gcd2, a1, b1, d1, c1);
      NonzeroProduct(b1, c1);
      FlipSigns(a1 * d1, b1 * c1, num * rDen, den * rNum);
      num := a1 * d1;
      den := b1 * c1;
      if den < 0 {
        num, den := -num, -den;
      }
      return true;
    }

    /** operator== on components. */
    method Equals(r: Rational) returns (b: bool)
      requires Valid() && r.Valid()
      ensures b <==> SameValue(num, den, r.num, r.den)
    {
      LowestTermsUnique(num, den, r.num, r.den);
      b := num == r.num && den == r.den;
    }

    /** operator< : the first differing continued-fraction term decides. */
    method LessThan(r: Rational) returns (b: bool)
      requires den > 0 && r.den > 0
      ensures b <==> num * r.den < r.num * den
    {
      var tn, td := num, den;
      var rn, rd := r.num, r.den;
      var tq, tr := FloorDivMod(tn, td);
      var rq, rr := FloorDivMod(rn, rd);
      var reverse := false;
      ghost var answer := Less(tn, td, rn, rd);
      while true
        invariant td > 0 && rd > 0 && 0 <= tr < td && 0 <= rr < rd
        invariant Parts(tn, tq, td, tr) && Parts(rn, rq, rd, rr)
        invariant answer == if reverse then Less(rn, rd, tn, td) else Less(tn, td, rn, rd)
        decreases td
      {
        CompareParts(tn, tq, td, tr, rn, rq, rd, rr);
        if tq != rq {
          return if reverse then tq > rq else tq < rq;
        }
        reverse := !reverse;
        if tr == 0 || rr == 0 {
          break;
        }
        tn, td := td, tr;
        tq, tr := DivMod(tn, td);
        rn, rd := rd, rr;
        rq, rr := DivMod(rn, rd);
      }
      if tr == rr {
        return false;
      }
      return (tr != 0) != reverse;
    }

    /** operator<(int) : the floor alone decides. */
    method LessThanInt(i: int) returns (b: bool)
      requires den > 0
      ensures b <==> num < i * den
    {
      var q, r := FloorDivMod(num, den);
      CompareQuotients(q, den, r, i, 1, 0);
      CompareQuotients(i, 1, 0, q, den, r);
      b := q < i;
    }

    /** Quotient and remainder of numbers that are not negative. */
    static method DivMod(n: int, d: int) returns (q: int, r: int)
      requires n >= 0 && d > 0
      ensures Parts(n, q, d, r) && 0 <= r < d
    {
      q, r := TruncDiv(n, d), TruncMod(n, d);
    }

    /** Quotient and remainder with the remainder made non-negative by the source's loop. */
    static method FloorDivMod(n: int, d: int) returns (q: int, r: int)
      requires d > 0
      ensures Parts(n, q, d, r) && 0 <= r < d
    {
      q, r := TruncDiv(n, d), TruncMod(n, d);
      while r < 0
        invariant n == q * d + r && -d < r < d
        decreases d - r
      {
        r := r + d;
        q := q - 1;
      }
    }
  }

  ghost predicate Parts(n: int, q: int, d: int, r: int) {
    n == q * d + r
  }

  /** n / d < m / e for positive denominators. */
  ghost predicate Less(n: int, d: int, m: int, e: int) {
    n * e < m * d
  }

  /** One turn of the comparison: different whole parts decide it; equal ones leave the reciprocals of
      the fractional parts to be compared the other way round, and a part that is zero decides that. */
  lemma CompareParts(tn: int, tq: int, td: int, tr: int, rn: int, rq: int, rd: int, rr: int)
    requires td > 0 && rd > 0 && 0 <= tr < td && 0 <= rr < rd && Parts(tn, tq, td, tr) && Parts(rn, rq, rd, rr)
    ensures tq != rq ==> Less(tn, td, rn, rd) == (tq < rq) && Less(rn, rd, tn, td) == (rq < tq)
    ensures tq == rq ==> Less(tn, td, rn, rd) == Less(rd, rr, td, tr) && Less(rn, rd, tn, td) == Less(td, tr, rd, rr)
    ensures tq == rq && (tr == 0 || rr == 0) ==>
      Less(tn, td, rn, rd) == (tr == 0 && rr != 0) && Less(rn, rd, tn, td) == (rr == 0 && tr != 0)
  {
    CompareQuotients(tq, td, tr, rq, rd, rr);
    CompareQuotients(rq, rd, rr, tq, td, tr);
    if tq == rq {
      ZeroPart(td, tr, rd, rr);
    }
  }

  lemma ZeroPart(td: int, tr: int, rd: int, rr: int)
    requires td > 0 && rd > 0 && 0 <= tr < td && 0 <= rr < rd
    ensures tr == 0 || rr == 0
      ==> ((tr * rd < rr * td <==> tr == 0 && rr != 0) && (rr * td < tr * rd <==> rr == 0 && tr != 0))
  {
    MultipleBounds(td, rr);
    MultipleBounds(rd, tr);
  }

  /** One continued-fraction step: the whole parts decide unless they are equal, and then the
      comparison is the one between the reciprocals of the fractional parts, reversed. */
  lemma CompareQuotients(tq: int, td: int, tr: int, rq: int, rd: int, rr: int)
    requires td > 0 && rd > 0 && 0 <= tr < td && 0 <= rr < rd
    ensures tq < rq ==> (tq * td + tr) * rd < (rq * rd + rr) * td
    ensures tq == rq ==> ((tq * td + tr) * rd < (rq * rd + rr) * td <==> tr * rd < rr * td)
  {
    assert (tq * td + tr) * rd == tq * (td * rd) + tr * rd;
    assert (rq * rd + rr) * td == rq * (td * rd) + rr * td;
    if tq < rq {
      assert (rq - tq) * (td * rd) >= td * rd by { MultipleBounds(td * rd, rq - tq); }
      assert tr * rd < td * rd by { assert (td - tr) * rd > 0; }
      assert rr * td >= 0;
    }
  }
}
