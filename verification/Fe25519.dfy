/** Field elements of crypto.c: five signed 51-bit limbs modulo 2^255 - 19. */
module Fe25519 {
  import opened Int128
  import opened FiveLimbs

  const P: int := 0x7fffffff_ffffffff_ffffffff_ffffffff_ffffffff_ffffffff_ffffffff_ffffffed
  const W2: int := 0x40_0000_0000_0000_0000_0000_0000
  const W3: int := 0x200_0000_0000_0000_0000_0000_0000_0000_0000_0000
  const W4: int := 0x1000_0000_0000_0000_0000_0000_0000_0000_0000_0000_0000_0000_0000
  const LIMB: int := 0x20_0000_0000_0000 // 2^53

  type Fe = f: seq<Int64> | |f| == 5 witness [0, 0, 0, 0, 0]

  /** The integer with the given limbs. */
  function Horner(f0: int, f1: int, f2: int, f3: int, f4: int): int {
    f0 + f1 * TWO51 + f2 * W2 + f3 * W3 + f4 * W4
  }

  function Limbs(f: Fe): int {
    Horner(f[0], f[1], f[2], f[3], f[4])
  }

  /** The field element that f stands for: an integer in [0, p). */
  function Field(f: Fe): (x: int)
    ensures 0 <= x < P
  {
    Limbs(f) % P
  }

  function FAdd(x: int, y: int): int { (x + y) % P }
  function FSub(x: int, y: int): int { (x - y) % P }
  function FMul(x: int, y: int): int { (x * y) % P }

  lemma SameField(x: int, y: int, k: int)
    requires x == y + P * k
    ensures x % P == y % P
  {}

  lemma FieldSum(x: int, y: int)
    ensures FAdd(x % P, y % P) == (x + y) % P
    ensures FSub(x % P, y % P) == (x - y) % P
  {
    SameField(x % P + y % P, x + y, -(x / P) - y / P);
    SameField(x % P - y % P, x - y, -(x / P) + y / P);
  }

  lemma MultiplesOut(p: int, k: int, u: int, l: int, v: int)
    ensures (p * k + u) * (p * l + v) == u * v + p * (k * v + u * l + p * (k * l))
  {}

  /** Every limb at most b in absolute value. */
  predicate Bounded(f: Fe, b: int) {
    forall i :: 0 <= i < 5 ==> -b <= f[i] <= b
  }

  /** What fe_mul leaves: only limb 1 can leave [0, 2^51), by at most 2^11. */
  predicate Carried(f: Fe) {
    && (forall i :: 0 <= i < 5 && i != 1 ==> 0 <= f[i] < TWO51)
    && -2048 <= f[1] < TWO51 + 2048
  }

  // ----- addition and subtraction -----------------------------------------------------

  predicate SumsFit(f: Fe, g: Fe) {
    forall i :: 0 <= i < 5 ==> var x: int, y: int := f[i], g[i]; -TWO63 <= x + y < TWO63
  }

  predicate DifferencesFit(f: Fe, g: Fe) {
    forall i :: 0 <= i < 5 ==> var x: int, y: int := f[i], g[i]; -TWO63 <= x - y < TWO63
  }

  lemma CarriedFit(f: Fe, g: Fe)
    requires Carried(f) && Carried(g)
    ensures SumsFit(f, g) && DifferencesFit(f, g)
  {}

  /** fe_add. One sum of carried elements stays within the bound of fe_mul. */
  method FeAdd(f: Fe, g: Fe) returns (h: Fe)
    requires SumsFit(f, g)
    ensures forall i :: 0 <= i < 5 ==> var x: int, y: int := f[i], g[i]; h[i] == x + y
    ensures Field(h) == FAdd(Field(f), Field(g))
    ensures Carried(f) && Carried(g) ==> Bounded(h, LIMB)
  {
    hide Field;
    var r: seq<Int64> := [];
    for i := 0 to 5
      invariant |r| == i && forall k :: 0 <= k < i ==> r[k] == f[k] + g[k]
    {
      r := r + [f[i] + g[i]];
    }
    h := r;
    FieldOfSum(f, g, h);
  }

  lemma FieldOfSum(f: Fe, g: Fe, h: Fe)
    requires forall k :: 0 <= k < 5 ==> var x: int, y: int := f[k], g[k]; h[k] == x + y
    ensures Field(h) == FAdd(Field(f), Field(g))
  {
    hide FAdd;
    FieldSum(Limbs(f), Limbs(g));
  }

  method FeSub(f: Fe, g: Fe) returns (h: Fe)
    requires DifferencesFit(f, g)
    ensures forall i :: 0 <= i < 5 ==> var x: int, y: int := f[i], g[i]; h[i] == x - y
    ensures Field(h) == FSub(Field(f), Field(g))
    ensures Carried(f) && Carried(g) ==> Bounded(h, LIMB)
  {
    hide Field;
    var r: seq<Int64> := [];
    for i := 0 to 5
      invariant |r| == i && forall k :: 0 <= k < i ==> r[k] == f[k] - g[k]
    {
      r := r + [f[i] - g[i]];
    }
    h := r;
    FieldOfDifference(f, g, h);
  }

  lemma FieldOfDifference(f: Fe, g: Fe, h: Fe)
    requires forall k :: 0 <= k < 5 ==> var x: int, y: int := f[k], g[k]; h[k] == x - y
    ensures Field(h) == FSub(Field(f), Field(g))
  {
    hide FSub;
    FieldSum(Limbs(f), Limbs(g));
  }

  // ----- multiplication -----------------------------------------------------------------

  lemma AbsProduct(a: int, b: int, l: int, m: int)
    requires -l <= a <= l && -m <= b <= m
    ensures -(l * m) <= a * b <= l * m
  {
    var p, q, r, s := l * m, l * b, a * m, a * b;
    assert (l - a) * (m + b) == p + q - r - s;
    assert (l + a) * (m - b) == p - q + r - s;
    assert (l - a) * (m - b) == p - q - r + s;
    assert (l + a) * (m + b) == p + q + r + s;
    NonNegative(l - a, m + b);
    NonNegative(l + a, m - b);
    NonNegative(l - a, m - b);
    NonNegative(l + a, m + b);
  }

  lemma NonNegative(x: int, y: int)
    requires x >= 0 && y >= 0
    ensures x * y >= 0
  {}

  /** Five products added in 128 bits; m bounds the second factors. */
  function Dot5(a0: Int64, b0: Int64, a1: Int64, b1: Int64, a2: Int64, b2: Int64, a3: Int64, b3: Int64,
                a4: Int64, b4: Int64, ghost m: int): (r: I128)
    requires -LIMB <= a0 <= LIMB && -LIMB <= a1 <= LIMB && -LIMB <= a2 <= LIMB && -LIMB <= a3 <= LIMB
    requires -LIMB <= a4 <= LIMB && -m <= b0 <= m && -m <= b1 <= m && m <= 19 * LIMB
    requires -m <= b2 <= m && -m <= b3 <= m && -m <= b4 <= m
    ensures Value(r) == Sum5(a0, b0, a1, b1, a2, b2, a3, b3, a4, b4)
    ensures -5 * (LIMB * m) <= Value(r) <= 5 * (LIMB * m)
  {
    hide Value, Mul128, Add128;
    AbsProduct(a0, b0, LIMB, m);
    AbsProduct(a1, b1, LIMB, m);
    AbsProduct(a2, b2, LIMB, m);
    AbsProduct(a3, b3, LIMB, m);
    AbsProduct(a4, b4, LIMB, m);
    Add128(Add128(Add128(Add128(Mul128(a0, b0), Mul128(a1, b1)), Mul128(a2, b2)), Mul128(a3, b3)), Mul128(a4, b4))
  }

  /** The low word of a small 128-bit value, read as int64_t. */
  lemma LowWord(c: I128)
    requires -TWO63 <= Value(c) < TWO63
    ensures ToInt64(c.lo) == Value(c)
  {}

  /** Carries keep the value; the one out of the top comes back 19 times. */
  lemma ChainValue(r0: int, r1: int, r2: int, r3: int, r4: int, h0: int, h1: int, h2: int, h3: int, h4: int,
                   c0: int, c1: int, c2: int, c3: int, c4: int, q: int, h0x: int)
    requires r0 == c0 * TWO51 + h0 && r1 + c0 == c1 * TWO51 + h1 && r2 + c1 == c2 * TWO51 + h2
    requires r3 + c2 == c3 * TWO51 + h3 && r4 + c3 == c4 * TWO51 + h4 && h0 + c4 * 19 == q * TWO51 + h0x
    ensures Horner(r0, r1, r2, r3, r4) == Horner(h0x, h1 + q, h2, h3, h4) + P * c4
  {}

  lemma Split51(x: int) returns (q: int, r: int)
    ensures x == q * TWO51 + r && 0 <= r < TWO51 && q == x / TWO51 && r == x % TWO51
  {
    q, r := x / TWO51, x % TWO51;
  }

  lemma CarriedLimbs(h: Fe)
    requires 0 <= h[0] < TWO51 && -2048 <= h[1] < TWO51 + 2048
    requires 0 <= h[2] < TWO51 && 0 <= h[3] < TWO51 && 0 <= h[4] < TWO51
    ensures Carried(h) && Limbs(h) == Horner(h[0], h[1], h[2], h[3], h[4]) && Field(h) == Limbs(h) % P
  {}

  /** The carry chain at the end of fe_mul. The carry out of limb 4 can exceed 2^54,
      but 19 times it fits in 64 bits. */
  method CarryChain(r0: I128, s1: I128, s2: I128, s3: I128, s4: I128) returns (h: Fe)
    requires -95 * (LIMB * LIMB) <= Value(r0) <= 95 * (LIMB * LIMB)
    requires -95 * (LIMB * LIMB) <= Value(s1) <= 95 * (LIMB * LIMB)
    requires -95 * (LIMB * LIMB) <= Value(s2) <= 95 * (LIMB * LIMB)
    requires -95 * (LIMB * LIMB) <= Value(s3) <= 95 * (LIMB * LIMB)
    requires -5 * (LIMB * LIMB) <= Value(s4) <= 5 * (LIMB * LIMB)
    ensures Field(h) == Horner(Value(r0), Value(s1), Value(s2), Value(s3), Value(s4)) % P
    ensures Carried(h)
  {
    hide Value, Add128, ToInt64, Horner, Limbs, Field, Carried;
    var c0, h0 := ShiftAndMask(r0);
    var r1 := Add128(s1, c0);
    var c1, h1 := ShiftAndMask(r1);
    var r2 := Add128(s2, c1);
    var c2, h2 := ShiftAndMask(r2);
    var r3 := Add128(s3, c2);
    var c3, h3 := ShiftAndMask(r3);
    var r4 := Add128(s4, c3);
    var c4, h4 := ShiftAndMask(r4);
    LowWord(c4);
    var top: int := ToInt64(c4.lo);
    var h0x: Int64 := h0 + top * 19;
    ghost var q, r := Split51(h0x);
    h := [h0x % TWO51, h1 + h0x / TWO51, h2, h3, h4];
    CarriedLimbs(h);
    ChainValue(Value(r0), Value(s1), Value(s2), Value(s3), Value(s4), h0, h1, h2, h3, h4,
      Value(c0), Value(c1), Value(c2), Value(c3), Value(c4), q, r);
    SameField(Horner(Value(r0), Value(s1), Value(s2), Value(s3), Value(s4)), Limbs(h), Value(c4));
  }

  /** i128_shr51 and i128_mask51 of the same value. */
  method ShiftAndMask(a: I128) returns (c: I128, m: nat)
    ensures Value(a) == Value(c) * TWO51 + m && m < TWO51
  {
    hide Value, Shr51, Mask51;
    c, m := Shr51(a), Mask51(a);
    ghost var q, r := Split51(Value(a));
  }

  /** fe_mul: exact modulo p for limbs up to 2^53, with every intermediate value in
      its word. */
  method FeMul(f: Fe, g: Fe) returns (h: Fe)
    requires Bounded(f, LIMB) && Bounded(g, LIMB)
    ensures Field(h) == FMul(Field(f), Field(g))
    ensures Carried(h)
  {
    hide Value, Dot5, Field, FMul, Carried, Horner, Sum5, Limbs;
    var f0, f1, f2, f3, f4 := f[0], f[1], f[2], f[3], f[4];
    var g0, g1, g2, g3, g4 := g[0], g[1], g[2], g[3], g[4];
    var g119: Int64, g219: Int64, g319: Int64, g419: Int64 := g1 * 19, g2 * 19, g3 * 19, g4 * 19;
    var r0 := Dot5(f0, g0, f1, g419, f2, g319, f3, g219, f4, g119, 19 * LIMB);
    var r1 := Dot5(f0, g1, f1, g0, f2, g419, f3, g319, f4, g219, 19 * LIMB);
    var r2 := Dot5(f0, g2, f1, g1, f2, g0, f3, g419, f4, g319, 19 * LIMB);
    var r3 := Dot5(f0, g3, f1, g2, f2, g1, f3, g0, f4, g419, 19 * LIMB);
    var r4 := Dot5(f0, g4, f1, g3, f2, g2, f3, g1, f4, g0, LIMB);
    h := CarryChain(r0, r1, r2, r3, r4);
    ghost var k := Folded(f, g, r0, r1, r2, r3, r4);
    ProductField(f, g, Horner(Value(r0), Value(r1), Value(r2), Value(r3), Value(r4)), k);
  }

  /** The five sums of fe_mul are the product, up to a multiple of p. */
  lemma Folded(f: Fe, g: Fe, r0: I128, r1: I128, r2: I128, r3: I128, r4: I128) returns (k: int)
    requires var f0: int, f1: int, f2: int, f3: int, f4: int := f[0], f[1], f[2], f[3], f[4];
      var g0: int, g1: int, g2: int, g3: int, g4: int := g[0], g[1], g[2], g[3], g[4];
      && Value(r0) == Sum5(f0, g0, f1, g4 * 19, f2, g3 * 19, f3, g2 * 19, f4, g1 * 19)
      && Value(r1) == Sum5(f0, g1, f1, g0, f2, g4 * 19, f3, g3 * 19, f4, g2 * 19)
      && Value(r2) == Sum5(f0, g2, f1, g1, f2, g0, f3, g4 * 19, f4, g3 * 19)
      && Value(r3) == Sum5(f0, g3, f1, g2, f2, g1, f3, g0, f4, g4 * 19)
      && Value(r4) == Sum5(f0, g4, f1, g3, f2, g2, f3, g1, f4, g0)
    ensures Limbs(f) * Limbs(g) == Horner(Value(r0), Value(r1), Value(r2), Value(r3), Value(r4)) + P * k
  {
    hide Value, Horner, Sum5, Radix, Folds;
    LimbsRadix(0, 0, 0, 0, 0);
    var f0: int, f1: int, f2: int, f3: int, f4: int := f[0], f[1], f[2], f[3], f[4];
    var g0: int, g1: int, g2: int, g3: int, g4: int := g[0], g[1], g[2], g[3], g[4];
    k := Product(TWO51, 19, P, f0, f1, f2, f3, f4, g0, g1, g2, g3, g4);
    LimbsRadix(f0, f1, f2, f3, f4);
    LimbsRadix(g0, g1, g2, g3, g4);
    LimbsRadix(Value(r0), Value(r1), Value(r2), Value(r3), Value(r4));
  }

  lemma LimbsRadix(f0: int, f1: int, f2: int, f3: int, f4: int)
    ensures Horner(f0, f1, f2, f3, f4) == Radix(TWO51, f0, f1, f2, f3, f4)
    ensures Folds(TWO51, 19, P)
  {}

  /** A product of limbs, folded by multiples of p, is the product of the elements. */
  lemma ProductField(f: Fe, g: Fe, r: int, k: int)
    requires Limbs(f) * Limbs(g) == r + P * k
    ensures FMul(Field(f), Field(g)) == r % P
  {
    hide Horner;
    var x, y := Limbs(f), Limbs(g);
    var c, u, d, v := x / P, x % P, y / P, y % P;
    MultiplesOut(P, c, u, d, v);
    SameField(x * y, u * v, c * v + u * d + P * (c * d));
    SameField(x * y, r, k);
  }
}
