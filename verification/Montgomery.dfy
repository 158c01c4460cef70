/** What a rung of the ladder computes, in coordinates: doubling and differential addition
    on y^2 = x^3 + 486662 x^2 + x (RFC 7748, section 4.1), with the intermediate terms
    multiplied out. */
module Montgomery {
  import opened Bits
  import opened Fe25519
  import opened FeInverse
  import opened LittleEndian
  import opened X25519

  /** x is y plus k times p. */
  predicate Apart(x: int, y: int, k: int) {
    x == y + P * k
  }

  /** The same element of the field. */
  ghost predicate Same(x: int, y: int) {
    exists k :: Apart(x, y, k)
  }

  lemma SameSum(a: int, b: int, x: int, y: int)
    requires Same(a, x) && Same(b, y)
    ensures Same(a + b, x + y) && Same(a - b, x - y)
  {
    var k :| Apart(a, x, k);
    var l :| Apart(b, y, l);
    assert Apart(a + b, x + y, k + l) && Apart(a - b, x - y, k - l);
  }

  lemma SameProduct(a: int, b: int, x: int, y: int)
    requires Same(a, x) && Same(b, y)
    ensures Same(a * b, x * y)
  {
    var k :| Apart(a, x, k);
    var l :| Apart(b, y, l);
    MultiplesOut(P, k, x, l, y);
    assert Apart(a * b, x * y, k * y + x * l + P * (k * l));
  }

  lemma SameResidue(x: int)
    ensures Same(x % P, x)
  {
    assert Apart(x % P, x, -(x / P));
  }

  lemma SameTrans(x: int, y: int, z: int)
    requires Same(x, y) && Same(y, z)
    ensures Same(x, z)
  {
    var k :| Apart(x, y, k);
    var l :| Apart(y, z, l);
    assert Apart(x, z, k + l);
  }

  lemma SameSelf(x: int)
    ensures Same(x, x)
  {
    assert Apart(x, x, 0);
  }

  // ----- the field operations ---------------------------------------------------------------

  lemma Plus(a: int, b: int, x: int, y: int)
    requires Same(a, x) && Same(b, y)
    ensures Same(FAdd(a, b), x + y) && Same(FSub(a, b), x - y)
  {
    hide Same;
    SameSum(a, b, x, y);
    SameResidue(a + b);
    SameTrans(FAdd(a, b), a + b, x + y);
    SameResidue(a - b);
    SameTrans(FSub(a, b), a - b, x - y);
  }

  lemma Times(a: int, b: int, x: int, y: int)
    requires Same(a, x) && Same(b, y)
    ensures Same(FMul(a, b), x * y)
  {
    hide Same;
    SameProduct(a, b, x, y);
    SameResidue(a * b);
    SameTrans(FMul(a, b), a * b, x * y);
  }

  // ----- doubling and differential addition -------------------------------------------------

  /** An x-coordinate as a fraction. */
  datatype Fraction = Fraction(x: int, z: int)

  /** Twice a point. */
  function Double(f: Fraction): Fraction {
    Fraction(
      (f.x * f.x - f.z * f.z) * (f.x * f.x - f.z * f.z) % P,
      4 * (f.x * f.z) * (f.x * f.x + 486662 * (f.x * f.z) + f.z * f.z) % P)
  }

  /** The sum of two points whose difference has x-coordinate u. */
  function Sum(u: int, f: Fraction, g: Fraction): Fraction {
    var v, w := f.x * g.x - f.z * g.z, f.x * g.z - f.z * g.x;
    Fraction(4 * (v * v) % P, 4 * u * (w * w) % P)
  }

  lemma Squares(x: int, z: int)
    ensures (x + z) * (x + z) == x * x + 2 * (x * z) + z * z
    ensures (x - z) * (x - z) == x * x - 2 * (x * z) + z * z
    ensures (x + z) * (x + z) * ((x - z) * (x - z)) == (x * x - z * z) * (x * x - z * z)
  {
    var s, d := x + z, x - z;
    assert s * d == x * x - z * z;
    assert s * s * (d * d) == (s * d) * (s * d);
  }

  lemma Cross(x2: int, z2: int, x3: int, z3: int)
    ensures (x2 + z2) * (x3 - z3) + (x2 - z2) * (x3 + z3) == 2 * (x2 * x3 - z2 * z3)
    ensures (x2 + z2) * (x3 - z3) - (x2 - z2) * (x3 + z3) == -2 * (x2 * z3 - z2 * x3)
  {}

  lemma FourSquares(v: int)
    ensures (2 * v) * (2 * v) == 4 * (v * v) == (-2 * v) * (-2 * v)
  {}

  lemma ReducedProduct(a: int, b: int, x: int)
    requires Same(FMul(a, b), x)
    ensures FMul(a, b) == x % P
  {
    var k :| Apart(FMul(a, b), x, k);
  }

  /** From the squares of the sum and the difference. */
  lemma DoubledTerms(x: int, z: int, aa: int, bb: int)
    requires Same(aa, (x + z) * (x + z)) && Same(bb, (x - z) * (x - z))
    ensures Same(FMul(aa, bb), (x * x - z * z) * (x * x - z * z))
    ensures var e := FSub(aa, bb);
      Same(FMul(e, FAdd(aa, FMul(e, 121665))), 4 * (x * z) * (x * x + 486662 * (x * z) + z * z))
  {
    hide Same, FAdd, FSub, FMul;
    Squares(x, z);
    Times(aa, bb, (x + z) * (x + z), (x - z) * (x - z));
    var e := FSub(aa, bb);
    Plus(aa, bb, (x + z) * (x + z), (x - z) * (x - z));
    SameSelf(121665);
    Times(e, 121665, 4 * (x * z), 121665);
    var f := FAdd(aa, FMul(e, 121665));
    Plus(aa, FMul(e, 121665), x * x + 2 * (x * z) + z * z, 4 * (x * z) * 121665);
    Times(e, f, 4 * (x * z), x * x + 486662 * (x * z) + z * z);
  }

  /** From the two mixed products. */
  lemma AddedTerms(u: int, v: int, w: int, da: int, cb: int)
    requires Same(FAdd(da, cb), 2 * v) && Same(FSub(da, cb), -2 * w)
    ensures Same(FMul(FAdd(da, cb), FAdd(da, cb)), 4 * (v * v))
    ensures Same(FMul(FMul(FSub(da, cb), FSub(da, cb)), u), 4 * u * (w * w))
  {
    hide Same, FAdd, FSub, FMul;
    FourSquares(v);
    Times(FAdd(da, cb), FAdd(da, cb), 2 * v, 2 * v);
    FourSquares(w);
    Times(FSub(da, cb), FSub(da, cb), -2 * w, -2 * w);
    SameSelf(u);
    Times(FMul(FSub(da, cb), FSub(da, cb)), u, 4 * (w * w), u);
    assert 4 * (w * w) * u == 4 * u * (w * w);
  }

  function Both(f: Fraction, g: Fraction): Points {
    Points(f.x, f.z, g.x, g.z)
  }

  /** A step doubles the first point and adds the second to it. */
  lemma StepLaw(u: int, f: Fraction, g: Fraction)
    ensures Step(u, Both(f, g)) == Both(Double(f), Sum(u, f, g))
  {
    hide Same, FAdd, FSub, FMul;
    SameSelf(f.x);
    SameSelf(f.z);
    SameSelf(g.x);
    SameSelf(g.z);
    var a, b, c, d := FAdd(f.x, f.z), FSub(f.x, f.z), FAdd(g.x, g.z), FSub(g.x, g.z);
    Plus(f.x, f.z, f.x, f.z);
    Plus(g.x, g.z, g.x, g.z);
    var aa, bb := FMul(a, a), FMul(b, b);
    Times(a, a, f.x + f.z, f.x + f.z);
    Times(b, b, f.x - f.z, f.x - f.z);
    DoubledTerms(f.x, f.z, aa, bb);
    var e := FSub(aa, bb);
    ReducedProduct(aa, bb, (f.x * f.x - f.z * f.z) * (f.x * f.x - f.z * f.z));
    ReducedProduct(e, FAdd(aa, FMul(e, 121665)), 4 * (f.x * f.z) * (f.x * f.x + 486662 * (f.x * f.z) + f.z * f.z));
    var da, cb := FMul(a, d), FMul(b, c);
    Times(a, d, f.x + f.z, g.x - g.z);
    Times(b, c, f.x - f.z, g.x + g.z);
    Plus(da, cb, (f.x + f.z) * (g.x - g.z), (f.x - f.z) * (g.x + g.z));
    Cross(f.x, f.z, g.x, g.z);
    var v, w := f.x * g.x - f.z * g.z, f.x * g.z - f.z * g.x;
    AddedTerms(u, v, w, da, cb);
    ReducedProduct(FAdd(da, cb), FAdd(da, cb), 4 * (v * v));
    ReducedProduct(FMul(FSub(da, cb), FSub(da, cb)), u, 4 * u * (w * w));
  }

  // ----- the ladder as multiples of a point -----------------------------------------------------

  /** The n-fold multiple of the point with x-coordinate u, by halving n j times. */
  function Multiple(u: int, n: nat, j: nat): Fraction {
    if j == 0 then (if n == 0 then Fraction(1, 0) else Fraction(u, 1))
    else if n % 2 == 0 then Double(Multiple(u, n / 2, j - 1))
    else Sum(u, Multiple(u, n / 2, j - 1), Multiple(u, n / 2 + 1, j - 1))
  }

  lemma SumSymmetric(u: int, f: Fraction, g: Fraction)
    ensures Sum(u, f, g) == Sum(u, g, f)
  {
    var v, w := f.x * g.x - f.z * g.z, f.x * g.z - f.z * g.x;
    assert g.x * f.x - g.z * f.z == v && g.x * f.z - g.z * f.x == -w;
    assert -w * -w == w * w;
  }


  /** A rung doubles the one point and adds both. */
  lemma RungDoublesAndAdds(u: int, f: Fraction, g: Fraction, b: Bit)
    ensures Rung(u, Both(f, g), b)
      == if b == 0 then Both(Double(f), Sum(u, f, g)) else Both(Sum(u, f, g), Double(g))
  {
    hide Step, Double, Sum;
    if b == 0 {
      StepLaw(u, f, g);
    } else {
      StepLaw(u, g, f);
      SumSymmetric(u, f, g);
    }
  }

  /** The number without its t low bits. */
  function Leading(k: nat, t: nat): nat {
    hide Pow2;
    QuotientIsNat(k, Pow2(t));
    k / Pow2(t)
  }

  lemma QuotientIsNat(k: nat, m: nat)
    requires m > 0
    ensures k / m >= 0
  {}

  lemma LeadingStep(k: nat, t: nat)
    ensures Leading(k, t) == 2 * Leading(k, t + 1) + BitAt(k, t)
  {
    hide Pow2;
    Pow2Step(t + 1);
    DivideTwice(k, Pow2(t), 2, Pow2(t + 1));
  }

  lemma LeadingEnds(k: nat)
    requires k < Pow2(255)
    ensures Leading(k, 255) == 0 && Leading(k, 0) == k
  {
    hide Pow2;
    Pow2Step(0);
    SmallQuotient(k, Pow2(255));
  }

  lemma SmallQuotient(k: nat, m: nat)
    requires k < m
    ensures k / m == 0
  {}

  lemma LadderStep(u: int, k: nat, t: nat)
    requires t < 255
    ensures LadderTo(u, k, t) == Rung(u, LadderTo(u, k, t + 1), BitAt(k, t))
    ensures LadderTo(u, k, 255) == Points(1, 0, u, 1)
  {
    hide Rung, BitAt;
  }

  lemma MultipleStep(u: int, n: nat, j: nat)
    ensures Multiple(u, 2 * n, j + 1) == Double(Multiple(u, n, j))
    ensures Multiple(u, 2 * n + 1, j + 1) == Sum(u, Multiple(u, n, j), Multiple(u, n + 1, j))
  {
    hide Double, Sum;
    assert (2 * n) / 2 == n && (2 * n) % 2 == 0 && (2 * n + 1) / 2 == n && (2 * n + 1) % 2 == 1;
  }

  /** After the bits from 254 down to t, the two points are the n-fold and the next
      multiple, where n is the scalar without its t low bits. */
  lemma {:induction false} LadderIsMultiples(u: int, k: nat, t: nat)
    requires t <= 255 && k < Pow2(255)
    ensures LadderTo(u, k, t) == Both(Multiple(u, Leading(k, t), 255 - t), Multiple(u, Leading(k, t) + 1, 255 - t))
    decreases 255 - t
  {
    hide Pow2, Double, Sum, Rung, Leading, Multiple, LadderTo, BitAt;
    LeadingEnds(k);
    if t == 255 {
      LadderStart(u, k);
      assert Multiple(u, 0, 0) == Fraction(1, 0) && Multiple(u, 1, 0) == Fraction(u, 1) by { MultipleStart(u); }
    } else {
      LadderIsMultiples(u, k, t + 1);
      var n, b := Leading(k, t + 1), BitAt(k, t);
      LeadingStep(k, t);
      LadderStep(u, k, t);
      RungDoublesAndAdds(u, Multiple(u, n, 254 - t), Multiple(u, n + 1, 254 - t), b);
      MultipleStep(u, n, 254 - t);
      MultipleStep(u, n + 1, 254 - t);
    }
  }

  lemma MultipleStart(u: int)
    ensures Multiple(u, 0, 0) == Fraction(1, 0) && Multiple(u, 1, 0) == Fraction(u, 1)
  {}

  lemma ScalarBound(s: seq<Byte>)
    ensures DecodeScalar(s) < Pow2(255)
  {
    hide Pow2, FromLe;
    Pow2Step(255);
    ScalarParts(FromLe(s), Pow2(254));
  }

  lemma ScalarParts(x: nat, p: nat)
    requires p > 0
    ensures x % p - x % 8 < p
  {}

  /** The function of the RFC is the affine x-coordinate of the multiple by the scalar. */
  lemma ScalarMultIsMultiple(s: seq<Byte>, u: int)
    ensures var f := Multiple(u, DecodeScalar(s), 255); ScalarMult(DecodeScalar(s), u) == f.x * FPow(f.z, P - 2) % P
  {
    hide Pow2, FPow, Multiple, LadderTo, Leading, DecodeScalar;
    ScalarBound(s);
    LadderIsMultiples(u, DecodeScalar(s), 0);
    LeadingEnds(DecodeScalar(s));
  }
}
