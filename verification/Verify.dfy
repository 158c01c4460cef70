/** verify.c: comparison and conditional copy without branches. */
module Verify {
  import opened Bits

  /** Bitwise exclusive OR. */
  function Xor(a: nat, b: nat): nat
    decreases a + b
  {
    if a == 0 then b else if b == 0 then a
    else (if a % 2 != b % 2 then 1 else 0) + 2 * Xor(a / 2, b / 2)
  }

  lemma {:induction false} XorZero(a: nat, b: nat)
    ensures Xor(a, b) == 0 <==> a == b
    decreases a + b
  {
    if a > 0 && b > 0 {
      XorZero(a / 2, b / 2);
    }
  }

  lemma XorNothing(a: nat)
    ensures Xor(a, 0) == a && Xor(0, a) == a
  {}

  lemma {:induction false} XorBound(a: nat, b: nat, n: nat)
    requires a < Pow2(n) && b < Pow2(n)
    ensures Xor(a, b) < Pow2(n)
    decreases a + b
  {
    if a > 0 && b > 0 {
      XorBound(a / 2, b / 2, n - 1);
    }
  }

  lemma XorStep(a: nat, b: nat)
    ensures Xor(a, b) == (if a % 2 != b % 2 then 1 else 0) + 2 * Xor(a / 2, b / 2)
  {}

  lemma {:induction false} XorParted(a: nat, b: nat, x: nat, y: nat, n: nat)
    requires x < Pow2(n) && y < Pow2(n)
    ensures Xor(a * Pow2(n) + x, b * Pow2(n) + y) == Xor(a, b) * Pow2(n) + Xor(x, y)
  {
    hide Xor, Pow2;
    Pow2Step(n);
    if n == 0 {
      XorZero(0, 0);
    } else {
      var p := Pow2(n - 1);
      XorParted(a, b, x / 2, y / 2, n - 1);
      TwiceProduct(a, p);
      TwiceProduct(b, p);
      TwiceProduct(Xor(a, b), p);
      XorHalf(a * p, b * p, x, y);
      XorStep(x, y);
    }
  }

  lemma XorHalf(s: nat, t: nat, x: nat, y: nat)
    ensures Xor(2 * s + x, 2 * t + y) == (if x % 2 != y % 2 then 1 else 0) + 2 * Xor(s + x / 2, t + y / 2)
  {
    hide Xor;
    XorStep(2 * s + x, 2 * t + y);
    assert (2 * s + x) / 2 == s + x / 2 && (2 * t + y) / 2 == t + y / 2;
  }

  lemma {:induction false} XorTwice(a: nat, b: nat)
    ensures Xor(a, Xor(a, b)) == b
    decreases a + b
  {
    hide Xor;
    if a > 0 || b > 0 {
      XorTwice(a / 2, b / 2);
      XorParts(a, b);
      XorParts(a, Xor(a, b));
    } else {
      XorZero(0, 0);
    }
  }

  lemma {:induction false} XorSymmetric(a: nat, b: nat)
    ensures Xor(a, b) == Xor(b, a)
    decreases a + b
  {
    if a > 0 && b > 0 {
      XorSymmetric(a / 2, b / 2);
    }
  }

  lemma XorParts(a: nat, b: nat)
    ensures Xor(a, b) / 2 == Xor(a / 2, b / 2)
    ensures Xor(a, b) % 2 == if a % 2 != b % 2 then 1 else 0
  {
    XorStep(a, b);
  }

  lemma {:induction false} XorAssociative(a: nat, b: nat, c: nat)
    ensures Xor(Xor(a, b), c) == Xor(a, Xor(b, c))
    decreases a + b + c
  {
    hide Xor;
    if a + b + c > 0 {
      XorAssociative(a / 2, b / 2, c / 2);
      XorParts(a, b);
      XorParts(b, c);
      XorParts(Xor(a, b), c);
      XorParts(a, Xor(b, c));
    } else {
      XorZero(0, 0);
    }
  }

  lemma {:induction false} OrBound(a: nat, b: nat, n: nat)
    requires a < Pow2(n) && b < Pow2(n)
    ensures Or(a, b) < Pow2(n)
    decreases a + b
  {
    if a > 0 && b > 0 {
      OrBound(a / 2, b / 2, n - 1);
    }
  }

  lemma {:induction false} OrZero(a: nat, b: nat)
    ensures Or(a, b) == 0 <==> a == 0 && b == 0
    decreases a + b
  {
    if a > 0 && b > 0 {
      OrZero(a / 2, b / 2);
    }
  }

  /** Masking with n ones keeps the low n bits. */
  lemma {:induction false} AndOnes(n: nat, b: nat)
    requires b < Pow2(n)
    ensures And(Pow2(n) - 1, b) == b
    decreases n
  {
    if n > 0 && b > 0 {
      AndOnes(n - 1, b / 2);
      assert (Pow2(n) - 1) / 2 == Pow2(n - 1) - 1;
    }
  }

  /** verify: 0 if the first len bytes agree, 1 if they differ. The result is the sign
      bit of the negated 64-bit accumulator. */
  method Compare(a: seq<Byte>, b: seq<Byte>, len: nat) returns (fail: nat)
    requires len <= |a| && len <= |b|
    ensures fail == if a[..len] == b[..len] then 0 else 1
  {
    hide Or, Xor, Pow2;
    Powers();
    var r: nat := 0;
    var i := 0;
    while i < len
      invariant 0 <= i <= len && r < 256
      invariant r == 0 <==> a[..i] == b[..i]
    {
      var x: nat, y: nat := a[i], b[i];
      XorZero(x, y);
      XorBound(x, y, 8);
      OrZero(r, Xor(x, y));
      OrBound(r, Xor(x, y), 8);
      assert a[..i + 1] == a[..i] + [a[i]] && b[..i + 1] == b[..i] + [b[i]];
      r := Or(r, Xor(x, y));
      i := i + 1;
    }
    fail := (0x1_0000_0000_0000_0000 - r) % 0x1_0000_0000_0000_0000 / 0x8000_0000_0000_0000;
  }

  /** One byte of cmov. */
  function CmovByte(r: Byte, x: Byte, b: Bit): (z: Byte)
    ensures z == if b == 1 then x else r
  {
    var mask := (256 - b) % 256;
    var rn: nat, xn: nat := r, x;
    CmovCases(rn, xn, mask);
    Xor(rn, And(mask, Xor(rn, xn)))
  }

  lemma CmovCases(r: nat, x: nat, mask: nat)
    requires r < 256 && x < 256 && (mask == 0 || mask == 255)
    ensures Xor(r, And(mask, Xor(r, x))) == if mask == 255 then x else r
  {
    hide Pow2, Xor, And;
    Powers();
    if mask == 255 {
      XorBound(r, x, 8);
      AndOnes(8, Xor(r, x));
      XorTwice(r, x);
    } else {
      NoMask(r, Xor(r, x));
    }
  }

  lemma NoMask(r: nat, y: nat)
    ensures And(0, y) == 0 && Xor(r, 0) == r
  {}

  /** cmov: the first len bytes become those of x if b is set; nothing changes otherwise. */
  method Cmov(r: array<Byte>, x: seq<Byte>, len: nat, b: Bit)
    requires len <= r.Length && len <= |x|
    modifies r
    ensures r[..] == if b == 1 then x[..len] + old(r[len..]) else old(r[..])
  {
    hide CmovByte;
    var i := 0;
    while i < len
      invariant 0 <= i <= len
      invariant forall k :: 0 <= k < i ==> r[k] == if b == 1 then x[k] else old(r[k])
      invariant forall k :: i <= k < r.Length ==> r[k] == old(r[k])
    {
      r[i] := CmovByte(r[i], x[i], b);
      i := i + 1;
    }
  }

  // ----- bytes ------------------------------------------------------------------------------

  function XorByte(a: Byte, b: Byte): (c: Byte) {
    Powers();
    XorBound(a, b, 8);
    Xor(a, b)
  }

  function XorBytes(a: seq<Byte>, b: seq<Byte>): (c: seq<Byte>)
    requires |a| <= |b|
    ensures |c| == |a| && forall i :: 0 <= i < |a| ==> c[i] == XorByte(a[i], b[i])
  {
    seq(|a|, i requires 0 <= i < |a| => XorByte(a[i], b[i]))
  }

  lemma XorAgain(a: Byte, b: Byte)
    ensures XorByte(XorByte(a, b), b) == a
  {
    XorSymmetric(b, a);
    XorTwice(b, a);
    XorSymmetric(Xor(a, b), b);
  }

  lemma XorBytesTwice(x: seq<Byte>, k: seq<Byte>)
    requires |x| <= |k|
    ensures XorBytes(XorBytes(x, k), k) == x
  {
    hide XorByte;
    forall i | 0 <= i < |x| ensures XorBytes(XorBytes(x, k), k)[i] == x[i] {
      XorAgain(x[i], k[i]);
    }
  }

  lemma XorJoin(x: seq<Byte>, y: seq<Byte>, a: seq<Byte>, b: seq<Byte>)
    requires |x| == |a| && |y| <= |b|
    ensures XorBytes(x + y, a + b) == XorBytes(x, a) + XorBytes(y, b)
  {
    hide XorByte;
  }
}
