/** fe_inv: the addition chain for the exponent p - 2. */
module FeInverse {
  import opened Bits
  import opened Fe25519

  function Power(x: int, e: nat): int {
    if e == 0 then 1 else x * Power(x, e - 1)
  }

  /** x^e modulo p. */
  function FPow(x: int, e: nat): (r: int)
    ensures 0 <= r < P
  {
    Power(x, e) % P
  }

  lemma {:induction false} PowerAdd(x: int, a: nat, b: nat)
    ensures Power(x, a + b) == Power(x, a) * Power(x, b)
  {
    if a > 0 {
      PowerAdd(x, a - 1, b);
      MulThree(x, Power(x, a - 1), Power(x, b));
    }
  }

  lemma MulThree(x: int, y: int, z: int)
    ensures x * (y * z) == (x * y) * z
  {}

  lemma FPowAdd(x: int, a: nat, b: nat)
    ensures FPow(x, a + b) == FMul(FPow(x, a), FPow(x, b))
  {
    hide Power;
    PowerAdd(x, a, b);
    var y, z := Power(x, a), Power(x, b);
    var k, u, l, v := y / P, y % P, z / P, z % P;
    MultiplesOut(P, k, u, l, v);
    SameField(y * z, u * v, k * v + u * l + P * (k * l));
  }

  lemma Reduced(x: int)
    requires 0 <= x < P
    ensures x % P == x
  {}

  lemma FPowOne(x: int)
    requires 0 <= x < P
    ensures FPow(x, 1) == x
  {
    Reduced(x);
    assert Power(x, 1) == x * Power(x, 0);
  }

  /** A field element that is a power of z and may be multiplied. */
  ghost predicate IsPow(f: Fe, z: int, e: nat) {
    Bounded(f, LIMB) && Field(f) == FPow(z, e)
  }

  lemma CarriedBounded(f: Fe)
    requires Carried(f)
    ensures Bounded(f, LIMB)
  {}

  method MulPow(f: Fe, g: Fe, ghost z: int, ghost a: nat, ghost b: nat) returns (h: Fe)
    requires IsPow(f, z, a) && IsPow(g, z, b)
    ensures IsPow(h, z, a + b) && Carried(h)
  {
    hide Field, FMul, FPow, Carried, Bounded;
    h := FeMul(f, g);
    CarriedBounded(h);
    FPowAdd(z, a, b);
  }

  /** n squarings. */
  method Squarings(f: Fe, n: nat, ghost z: int, ghost a: nat) returns (h: Fe)
    requires IsPow(f, z, a)
    ensures IsPow(h, z, a * Pow2(n))
  {
    hide IsPow, Pow2;
    h := f;
    assert Pow2(0) == 1 by { Powers(); }
    for i := 0 to n
      invariant IsPow(h, z, a * Pow2(i))
    {
      h := MulPow(h, h, z, a * Pow2(i), a * Pow2(i));
      Doubling(a, i);
    }
  }

  lemma Doubling(a: nat, i: nat)
    ensures a * Pow2(i) + a * Pow2(i) == a * Pow2(i + 1)
  {
    assert Pow2(i + 1) == 2 * Pow2(i);
    assert a * (2 * Pow2(i)) == 2 * (a * Pow2(i));
  }

  /** From 2^n - 1 to 2^(m + n) - 1. */
  lemma Ones(m: nat, n: nat)
    ensures (Pow2(m) - 1) * Pow2(n) + (Pow2(n) - 1) == Pow2(m + n) - 1
  {
    Pow2Add(m, n);
    assert (Pow2(m) - 1) * Pow2(n) == Pow2(m) * Pow2(n) - Pow2(n);
  }

  lemma ExponentValue()
    ensures (Pow2(250) - 1) * Pow2(5) + 11 == P - 2
  {
    hide Pow2;
    Powers();
    Pow2Add(5, 5);
    Pow2Add(10, 10);
    Pow2Add(20, 20);
    Pow2Add(40, 10);
    Pow2Add(50, 50);
    Pow2Add(100, 100);
    Pow2Add(200, 50);
  }

  lemma AsPow(z: Fe)
    requires Bounded(z, LIMB)
    ensures IsPow(z, Field(z), 1)
  {
    hide Field;
    FPowOne(Field(z));
  }

  lemma PowAs(f: Fe, z: int, e: nat)
    requires IsPow(f, z, e)
    ensures Field(f) == FPow(z, e)
  {}

  /** fe_inv computes z^(p - 2). */
  method FeInv(z: Fe) returns (out: Fe)
    requires Bounded(z, LIMB)
    ensures Carried(out) && Field(out) == FPow(Field(z), P - 2)
  {
    hide IsPow, Pow2, Field, Carried, Bounded, FPow;
    ghost var x := Field(z);
    AsPow(z);
    Powers();
    var z2 := Squarings(z, 1, x, 1);
    var t := Squarings(z2, 2, x, 2);
    var z9 := MulPow(t, z, x, 8, 1);
    var z11 := MulPow(z9, z2, x, 9, 2);
    t := Squarings(z11, 1, x, 11);
    var z2_5_0 := MulPow(t, z9, x, 22, 9);
    t := Squarings(z2_5_0, 5, x, 31);
    var z2_10_0 := MulOnes(t, z2_5_0, x, 5, 5);
    t := Squarings(z2_10_0, 10, x, Pow2(10) - 1);
    var z2_20_0 := MulOnes(t, z2_10_0, x, 10, 10);
    t := Squarings(z2_20_0, 20, x, Pow2(20) - 1);
    t := MulOnes(t, z2_20_0, x, 20, 20);
    t := Squarings(t, 10, x, Pow2(40) - 1);
    var z2_50_0 := MulOnes(t, z2_10_0, x, 40, 10);
    t := Squarings(z2_50_0, 50, x, Pow2(50) - 1);
    var z2_100_0 := MulOnes(t, z2_50_0, x, 50, 50);
    t := Squarings(z2_100_0, 100, x, Pow2(100) - 1);
    t := MulOnes(t, z2_100_0, x, 100, 100);
    t := Squarings(t, 50, x, Pow2(200) - 1);
    t := MulOnes(t, z2_50_0, x, 200, 50);
    t := Squarings(t, 5, x, Pow2(250) - 1);
    out := MulPow(t, z11, x, (Pow2(250) - 1) * Pow2(5), 11);
    ExponentValue();
    PowAs(out, x, P - 2);
  }

  /** Exponents 2^m - 1 and 2^n - 1, the first already shifted. */
  method MulOnes(f: Fe, g: Fe, ghost z: int, ghost m: nat, ghost n: nat) returns (h: Fe)
    requires IsPow(f, z, (Pow2(m) - 1) * Pow2(n)) && IsPow(g, z, Pow2(n) - 1)
    ensures IsPow(h, z, Pow2(m + n) - 1)
  {
    hide IsPow, Pow2;
    Ones(m, n);
    h := MulPow(f, g, z, (Pow2(m) - 1) * Pow2(n), Pow2(n) - 1);
  }
}
