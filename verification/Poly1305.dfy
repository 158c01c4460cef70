/** Poly1305 on five 26-bit limbs (section 2.5 of RFC 8439). */
module Poly1305 {
  import opened Bits
  import opened LittleEndian
  import FiveLimbs

  const W: int := 0x400_0000
  const X2: int := 0x10_0000_0000_0000
  const X3: int := 0x4000_0000_0000_0000_0000
  const X4: int := 0x100_0000_0000_0000_0000_0000_0000
  const P: int := 0x3_ffff_ffff_ffff_ffff_ffff_ffff_ffff_fffb
  const TWO32: int := 0x1_0000_0000
  const TWO64: int := 0x1_0000_0000_0000_0000
  const TWO128: int := 0x1_0000_0000_0000_0000_0000_0000_0000_0000
  const CLAMP: nat := 0x0fff_fffc_0fff_fffc_0fff_fffc_0fff_ffff

  type Uint32 = x: int | 0 <= x < 0x1_0000_0000
  type Uint64 = x: int | 0 <= x < 0x1_0000_0000_0000_0000
  type Limbs = h: seq<Uint32> | |h| == 5 witness [0, 0, 0, 0, 0]

  function Horner(h0: int, h1: int, h2: int, h3: int, h4: int): int {
    h0 + h1 * W + h2 * X2 + h3 * X3 + h4 * X4
  }

  function Number(h: Limbs): nat {
    h[0] + h[1] * W + h[2] * X2 + h[3] * X3 + h[4] * X4
  }

  // ----- the integer definition ------------------------------------------------------------

  /** The accumulator after the blocks of msg; every block gets a bit on top. */
  function Accumulate(a: nat, r: nat, msg: seq<Byte>): nat
    decreases |msg|
  {
    if |msg| == 0 then a
    else
      var n := if |msg| < 16 then |msg| else 16;
      Accumulate((a + FromLe(msg[..n]) + Pow2(8 * n)) * r % P, r, msg[n..])
  }

  function ClampedR(key: seq<Byte>): nat
    requires |key| == 32
  {
    And(FromLe(key[..16]), CLAMP)
  }

  /** poly1305_mac. */
  function Mac(key: seq<Byte>, msg: seq<Byte>): seq<Byte>
    requires |key| == 32
  {
    ToLe((Accumulate(0, ClampedR(key), msg) + FromLe(key[16..])) % TWO128, 16)
  }

  function Pad16(x: seq<Byte>): (p: seq<Byte>)
    ensures (|x| + |p|) % 16 == 0 && |p| < 16
  {
    seq(-|x| % 16, i => 0)
  }

  /** The message that section 2.8 of RFC 8439 authenticates. */
  function MacData(aad: seq<Byte>, ct: seq<Byte>, aadLen: nat, ctLen: nat): seq<Byte> {
    aad + Pad16(aad) + ct + Pad16(ct) + ToLe(aadLen, 8) + ToLe(ctLen, 8)
  }

  // ----- limbs of the key and of a block ---------------------------------------------------

  /** Four bytes read at offset k are 32 bits of the whole number. */
  lemma WordAt(s: seq<Byte>, k: nat)
    requires k + 4 <= |s|
    ensures Word(s, k) == FromLe(s) / Pow2(8 * k) % 0x1_0000_0000
  {
    hide FromLe, Word, Pow2;
    var p := Pow2(8 * k);
    assert s == s[..k] + s[k..];
    FromLeAppend(s[..k], s[k..]);
    FromLeBound(s[..k]);
    WordFirst(s, k);
    var rest := FromLe(s[k + 4..]);
    QuotientUnique(FromLe(s), p, FromLe(s[k..]), FromLe(s[..k]));
    QuotientUnique(FromLe(s[k..]), 0x1_0000_0000, rest, Word(s, k));
  }

  /** Bits 26 i to 26 i + 25. */
  function Digit(x: nat, i: nat): (d: nat)
    ensures d < W
  {
    x / Pow2(26 * i) % W
  }

  /** A word read at byte k and shifted right by s bits starts with digit i of the number. */
  lemma DigitOfWord(b: seq<Byte>, k: nat, s: nat, p: nat, i: nat)
    requires k + 4 <= |b| && 8 * k + s == 26 * i && s <= 6 && p == Pow2(s)
    ensures Word(b, k) / p % W == Digit(FromLe(b), i)
  {
    hide FromLe, Word, Pow2;
    WordAt(b, k);
    Powers();
    Pow2Add(8 * k, s);
    Pow2Add(s, 6 - s);
    DigitShift(FromLe(b), Pow2(8 * k), p, Pow2(6 - s), Pow2(26 * i));
  }

  lemma DigitShift(x: nat, d: nat, p: nat, m: nat, e: nat)
    requires d > 0 && p > 0 && p * m == 64 && e == d * p
    ensures x / d % 0x1_0000_0000 / p % W == x / e % W
  {
    LowOfShifted(x / d, p, m);
    DivideTwice(x, d, p, e);
  }

  /** Cutting y to 32 bits does not touch the 26 bits above the lowest s. */
  lemma LowOfShifted(y: nat, p: nat, m: nat)
    requires p > 0 && p * m == 64
    ensures y % 0x1_0000_0000 / p % W == y / p % W
  {
    var a, b := y / 0x1_0000_0000, y % 0x1_0000_0000;
    var q, r := b / p, b % p;
    assert y == (a * (m * W) + q) * p + r by {
      assert (a * (m * W) + q) * p == a * (p * m * W) + q * p;
    }
    QuotientUnique(y, p, a * (m * W) + q, r);
    assert a * (m * W) + q == (a * m) * W + q;
    QuotientUnique((a * m) * W + q, W, a * m + q / W, q % W);
  }

  /** The last word of 16 bytes, shifted right by 8, is digit 4. */
  lemma TopDigit(b: seq<Byte>)
    requires |b| == 16
    ensures Word(b, 12) / 256 == Digit(FromLe(b), 4)
  {
    hide FromLe, Word, Pow2;
    assert b == b[..12] + b[12..];
    FromLeAppend(b[..12], b[12..]);
    FromLeBound(b[..12]);
    WordFirst(b, 12);
    NoBytes();
    assert b[16..] == [];
    Powers();
    Pow2Add(96, 8);
    TopQuotient(FromLe(b[..12]), Word(b, 12), Pow2(96), Pow2(104));
  }

  lemma TopQuotient(a: nat, w: nat, d: nat, e: nat)
    requires a < d && e == 256 * d && w < 0x1_0000_0000
    ensures (a + d * w) / e % W == w / 256
  {
    assert d * w == w / 256 * e + w % 256 * d;
    MulAtLeast(255 - w % 256, d);
    assert (255 - w % 256) * d == e - d - w % 256 * d;
    QuotientUnique(a + d * w, e, w / 256, a + w % 256 * d);
  }

  lemma QuotientBelow(x: nat, d: nat, k: nat)
    requires d > 0 && x < d * k
    ensures x / d < k
  {
    var q, r := Divide(x, d);
    MulAtLeast(q - k + 1, d);
    assert (q - k + 1) * d == q * d - d * k + d;
  }

  /** A number below 2^130 is the number of its digits. */
  lemma DigitsOf(x: nat)
    requires x < W * X4
    ensures Horner(Digit(x, 0), Digit(x, 1), Digit(x, 2), Digit(x, 3), Digit(x, 4)) == x
  {
    hide Pow2;
    LimbPowers();
    CutQuotient(x, 1, W, W);
    CutQuotient(x, W, W, X2);
    CutQuotient(x, X2, W, X3);
    CutQuotient(x, X3, W, X4);
    QuotientBelow(x, X4, W);
  }

  lemma LimbPowers()
    ensures Pow2(0) == 1 && Pow2(26) == W && Pow2(52) == X2 && Pow2(78) == X3 && Pow2(104) == X4
    ensures Pow2(128) == TWO128 && Pow2(24) == 0x100_0000 && Pow2(8) == 256
  {
    hide Pow2;
    Powers();
    Pow2Add(12, 12);
    Pow2Add(24, 2);
    Pow2Add(26, 26);
    Pow2Add(52, 26);
    Pow2Add(78, 26);
    Pow2Add(104, 24);
  }

  /** The words that the source reads from 16 bytes, shifted, are their digits. */
  lemma BlockDigits(b: seq<Byte>)
    requires |b| == 16
    ensures Word(b, 0) % W == Digit(FromLe(b), 0) && Word(b, 3) / 4 % W == Digit(FromLe(b), 1)
    ensures Word(b, 6) / 16 % W == Digit(FromLe(b), 2) && Word(b, 9) / 64 % W == Digit(FromLe(b), 3)
    ensures Word(b, 12) / 256 == Digit(FromLe(b), 4) < 0x100_0000 && FromLe(b) < TWO128
  {
    hide FromLe, Word, Digit, Pow2;
    LimbPowers();
    Powers();
    DigitOfWord(b, 0, 0, 1, 0);
    DigitOfWord(b, 3, 2, 4, 1);
    DigitOfWord(b, 6, 4, 16, 2);
    DigitOfWord(b, 9, 6, 64, 3);
    TopDigit(b);
    FromLeBound(b);
  }

  lemma TopBit(x: nat)
    requires x < 0x100_0000
    ensures Or(x, 0x100_0000) == x + 0x100_0000
  {
    hide Or, Pow2;
    LimbPowers();
    OrAdds(x, 1, 24);
  }

  /** The limbs of a block: its 128 bits and the bit above them. */
  function BlockLimbs(b: seq<Byte>): (n: Limbs)
    requires |b| == 16
    ensures n[0] < W && n[1] < W && n[2] < W && n[3] < W && n[4] < 0x200_0000
    ensures Number(n) == FromLe(b) + TWO128
  {
    BlockValue(b);
    [Word(b, 0) % W, Word(b, 3) / 4 % W, Word(b, 6) / 16 % W, Word(b, 9) / 64 % W,
     Or(Word(b, 12) / 256, 0x100_0000)]
  }

  lemma BlockValue(b: seq<Byte>)
    requires |b| == 16
    ensures Or(Word(b, 12) / 256, 0x100_0000) < 0x200_0000
    ensures Horner(Word(b, 0) % W, Word(b, 3) / 4 % W, Word(b, 6) / 16 % W, Word(b, 9) / 64 % W,
              Or(Word(b, 12) / 256, 0x100_0000)) == FromLe(b) + TWO128
  {
    hide FromLe, Word, Digit, Or;
    BlockDigits(b);
    TopBit(Word(b, 12) / 256);
    DigitsOf(FromLe(b));
  }

  lemma {:induction false} AndBelow(a: nat, b: nat)
    ensures And(a, b) <= b
    decreases a + b
  {
    if a > 0 && b > 0 {
      AndBelow(a / 2, b / 2);
    }
  }

  /** A mask of 26 bits sees 26 bits. */
  lemma AndDigit(y: nat, m: nat)
    requires m < W
    ensures And(y, m) == And(y % W, m) < W
  {
    hide And, Pow2;
    LimbPowers();
    AndSplit(y % W, y / W, m, 0, 26);
    AndNothing(y / W);
    AndBelow(y, m);
  }

  /** The mask of the whole number, digit by digit. */
  lemma AndDigits(d0: nat, d1: nat, d2: nat, d3: nat, d4: nat)
    requires d0 < W && d1 < W && d2 < W && d3 < W
    ensures And(Horner(d0, d1, d2, d3, d4), CLAMP) == Horner(And(d0, 0x3ff_ffff), And(d1, 0x3ff_ff03),
              And(d2, 0x3ff_c0ff), And(d3, 0x3f0_3fff), And(d4, 0x00f_ffff))
  {
    hide And, Pow2;
    LimbPowers();
    AndSplit(d3, d4, 0x3f0_3fff, 0x00f_ffff, 26);
    AndSplit(d2, d3 + W * d4, 0x3ff_c0ff, 0x3f0_3fff + W * 0x00f_ffff, 26);
    AndSplit(d1, d2 + W * (d3 + W * d4), 0x3ff_ff03, 0x3ff_c0ff + W * (0x3f0_3fff + W * 0x00f_ffff), 26);
    AndSplit(d0, d1 + W * (d2 + W * (d3 + W * d4)), 0x3ff_ffff,
             0x3ff_ff03 + W * (0x3ff_c0ff + W * (0x3f0_3fff + W * 0x00f_ffff)), 26);
    assert CLAMP == 0x3ff_ffff + W * (0x3ff_ff03 + W * (0x3ff_c0ff + W * (0x3f0_3fff + W * 0x00f_ffff)));
    assert Horner(d0, d1, d2, d3, d4) == d0 + W * (d1 + W * (d2 + W * (d3 + W * d4)));
  }

  lemma KeyDigits(b: seq<Byte>)
    requires |b| == 16
    ensures And(Word(b, 0), 0x3ff_ffff) < W && And(Word(b, 3) / 4, 0x3ff_ff03) < W
    ensures And(Word(b, 6) / 16, 0x3ff_c0ff) < W && And(Word(b, 9) / 64, 0x3f0_3fff) < W
    ensures And(Word(b, 12) / 256, 0x00f_ffff) < W
    ensures Horner(And(Word(b, 0), 0x3ff_ffff), And(Word(b, 3) / 4, 0x3ff_ff03), And(Word(b, 6) / 16, 0x3ff_c0ff),
              And(Word(b, 9) / 64, 0x3f0_3fff), And(Word(b, 12) / 256, 0x00f_ffff)) == And(FromLe(b), CLAMP)
  {
    hide FromLe, Word, Digit, And, Horner;
    BlockDigits(b);
    AndDigit(Word(b, 0), 0x3ff_ffff);
    AndDigit(Word(b, 3) / 4, 0x3ff_ff03);
    AndDigit(Word(b, 6) / 16, 0x3ff_c0ff);
    AndDigit(Word(b, 9) / 64, 0x3f0_3fff);
    AndDigit(Word(b, 12) / 256, 0x00f_ffff);
    DigitsOf(FromLe(b));
    AndDigits(Digit(FromLe(b), 0), Digit(FromLe(b), 1), Digit(FromLe(b), 2), Digit(FromLe(b), 3), Digit(FromLe(b), 4));
  }

  /** The limbs of r, masked one by one as poly1305_setup does. */
  function KeyLimbs(key: seq<Byte>): (r: Limbs)
    requires |key| == 32
    ensures forall i :: 0 <= i < 5 ==> r[i] < W
    ensures Number(r) == ClampedR(key)
  {
    hide FromLe, Word, And;
    SameWords(key, key[..16]);
    KeyDigits(key[..16]);
    [And(Word(key, 0), 0x3ff_ffff), And(Word(key, 3) / 4, 0x3ff_ff03), And(Word(key, 6) / 16, 0x3ff_c0ff),
     And(Word(key, 9) / 64, 0x3f0_3fff), And(Word(key, 12) / 256, 0x00f_ffff)]
  }

  lemma SameWords(key: seq<Byte>, b: seq<Byte>)
    requires |key| == 32 && b == key[..16]
    ensures Word(key, 0) == Word(b, 0) && Word(key, 3) == Word(b, 3) && Word(key, 6) == Word(b, 6)
    ensures Word(key, 9) == Word(b, 9) && Word(key, 12) == Word(b, 12)
  {}

  // ----- one block ----------------------------------------------------------------------------

  /** The limbs as digits of radix 2^26, whose fifth power is 5 modulo p. */
  lemma LimbsRadix(f0: int, f1: int, f2: int, f3: int, f4: int)
    ensures Horner(f0, f1, f2, f3, f4) == FiveLimbs.Radix(W, f0, f1, f2, f3, f4)
    ensures FiveLimbs.Folds(W, 5, P)
  {}
}
