/** The two-word 128-bit integers of crypto.c: each operation is its integer meaning. */
module Int128 {
  import opened Bits

  const TWO32: int := 0x1_0000_0000
  const TWO51: int := 0x8_0000_0000_0000
  const TWO63: int := 0x8000_0000_0000_0000
  const TWO64: int := 0x1_0000_0000_0000_0000

  const TWO126: int := 0x4000_0000_0000_0000_0000_0000_0000_0000

  type Int64 = x: int | -0x8000_0000_0000_0000 <= x < 0x8000_0000_0000_0000
  type Uint64 = x: int | 0 <= x < 0x1_0000_0000_0000_0000

  /** i128: lo is unsigned, hi is signed. */
  datatype I128 = I128(lo: Uint64, hi: Int64)

  function Value(a: I128): int {
    a.hi * TWO64 + a.lo
  }

  /** Conversion of any integer to int64_t. */
  function ToInt64(x: int): (r: Int64)
    ensures -TWO63 <= x < TWO63 ==> r == x
    ensures (x - r) % TWO64 == 0
  {
    (x + TWO63) % TWO64 - TWO63
  }

  lemma PowersOfWords()
    ensures Pow2(32) == TWO32 && Pow2(51) == TWO51 && Pow2(13) == 8192
  {
    hide Pow2;
    Powers();
    Pow2Add(8, 8);
    Pow2Add(16, 16);
    Pow2Add(32, 12);
    Pow2Add(44, 7);
    Pow2Add(12, 1);
  }

  /** The schoolbook product of two words given by 32-bit halves. */
  lemma FourProducts(a0: nat, a1: nat, b0: nat, b1: nat)
    ensures (a0 + a1 * TWO32) * (b0 + b1 * TWO32)
         == a0 * b0 + (a0 * b1 + a1 * b0) * TWO32 + a1 * b1 * TWO64
  {
    assert (a0 + a1 * TWO32) * (b0 + b1 * TWO32) == a0 * (b0 + b1 * TWO32) + (a1 * TWO32) * (b0 + b1 * TWO32);
    assert a0 * (b0 + b1 * TWO32) == a0 * b0 + a0 * b1 * TWO32;
    assert (a1 * TWO32) * (b0 + b1 * TWO32) == a1 * b0 * TWO32 + a1 * b1 * TWO64;
  }

  lemma WordParts(x: int) returns (q: int, r: int)
    ensures x == q * TWO32 + r && 0 <= r < TWO32 && q == x / TWO32 && r == x % TWO32
  {
    q, r := x / TWO32, x % TWO32;
  }

  lemma ShiftUp(mid: nat)
    ensures mid * TWO32 % TWO64 == mid % TWO32 * TWO32
  {
    var q, r := WordParts(mid);
    var k, s := q, r * TWO32;
    assert mid * TWO32 == k * TWO64 + s;
  }

  lemma OrHalves(a: nat, b: nat)
    requires a < TWO32
    ensures Or(a, b * TWO32) == a + b * TWO32
  {
    hide Or, Pow2;
    PowersOfWords();
    OrAdds(a, b, 32);
  }

  /** The four partial products of i128_mul put together. */
  function Combine(p00: Uint64, p01: Uint64, p10: Uint64, p11: Uint64): (p: (nat, nat))
    ensures p.0 < TWO64
    ensures p.0 + p.1 * TWO64 == p00 + (p01 + p10) * TWO32 + p11 * TWO64
  {
    hide Or, Pow2;
    var mid := p00 / TWO32 + p01 % TWO32 + p10 % TWO32;
    ShiftUp(mid);
    OrHalves(p00 % TWO32, mid % TWO32);
    (Or(p00 % TWO32, mid * TWO32 % TWO64), p11 + p01 / TWO32 + p10 / TWO32 + mid / TWO32)
  }

  /** The partial products and every sum of them fit in 64 bits. */
  lemma PartialsFit(a0: nat, a1: nat, b0: nat, b1: nat)
    requires a0 < TWO32 && a1 < TWO32 && b0 < TWO32 && b1 < TWO32
    ensures a0 * b0 < TWO64 && a0 * b1 < TWO64 && a1 * b0 < TWO64 && a1 * b1 < TWO64
  {
    ProductBound(a0, b0, TWO32 - 1, TWO32 - 1);
    ProductBound(a0, b1, TWO32 - 1, TWO32 - 1);
    ProductBound(a1, b0, TWO32 - 1, TWO32 - 1);
    ProductBound(a1, b1, TWO32 - 1, TWO32 - 1);
  }

  /** The unsigned product of i128_mul, before the sign is applied. */
  function MulUnsigned(ua: nat, ub: nat): (p: (nat, nat))
    requires ua < TWO63 && ub < TWO63
    ensures p.0 < TWO64 && p.1 <= 0x4000_0000_0000_0000
    ensures p.0 + p.1 * TWO64 == ua * ub
  {
    hide Combine;
    var a0, a1, b0, b1 := ua % TWO32, ua / TWO32, ub % TWO32, ub / TWO32;
    FourProducts(a0, a1, b0, b1);
    assert ua * ub == (a0 + a1 * TWO32) * (b0 + b1 * TWO32);
    PartialsFit(a0, a1, b0, b1);
    var p := Combine(a0 * b0, a0 * b1, a1 * b0, a1 * b1);
    HighWord(p.0, p.1, ua, ub);
    p
  }

  lemma HighWord(lo: nat, hi: nat, ua: nat, ub: nat)
    requires ua < TWO63 && ub < TWO63 && lo + hi * TWO64 == ua * ub
    ensures hi <= 0x4000_0000_0000_0000
  {
    ProductBound(ua, ub, TWO63 - 1, TWO63 - 1);
  }

  /** i128_mul: sign and magnitude, then two's complement negation of both words. */
  function Mul128(a: Int64, b: Int64): (r: I128)
    requires a > -TWO63 && b > -TWO63
    ensures Value(r) == a * b
  {
    hide MulUnsigned;
    var ua, ub := if a < 0 then -a else a, if b < 0 then -b else b;
    var p := MulUnsigned(ua, ub);
    SignedProduct(a, b, ua, ub);
    if (a < 0) != (b < 0) then Negate(p.0, p.1) else I128(p.0, p.1)
  }

  /** Two's complement negation of both words. */
  function Negate(lo: nat, hi: nat): (r: I128)
    requires lo < TWO64 && hi <= 0x4000_0000_0000_0000
    ensures Value(r) == -(lo + hi * TWO64)
  {
    var lo1 := (TWO64 - 1 - lo + 1) % TWO64;
    var hi1 := (TWO64 - 1 - hi + if lo1 == 0 then 1 else 0) % TWO64;
    I128(lo1, ToInt64(hi1))
  }

  lemma SignedProduct(a: int, b: int, ua: int, ub: int)
    requires ua == (if a < 0 then -a else a) && ub == (if b < 0 then -b else b)
    ensures a * b == if (a < 0) != (b < 0) then -(ua * ub) else ua * ub
  {}

  /** i128_add: the carry out of the low words is propagated. */
  function Add128(a: I128, b: I128): (r: I128)
    requires -TWO126 <= Value(a) < TWO126 && -TWO126 <= Value(b) < TWO126
    ensures Value(r) == Value(a) + Value(b)
  {
    var lo := (a.lo + b.lo) % TWO64;
    I128(lo, a.hi + b.hi + if lo < a.lo then 1 else 0)
  }

  lemma ShiftHigh(hi: Int64)
    ensures hi % TWO64 * 8192 % TWO64 == hi % TWO51 * 8192
  {
    var q, u := hi / TWO64, hi % TWO64;
    var t, v := u / TWO51, u % TWO51;
    assert hi == (q * 8192 + t) * TWO51 + v;
    assert hi % TWO51 == v;
    assert u * 8192 == t * TWO64 + v * 8192;
  }

  lemma OrShifted(lo: nat, v: nat)
    requires lo < TWO64
    ensures Or(lo / TWO51, v * 8192) == lo / TWO51 + v * 8192
  {
    hide Or, Pow2;
    PowersOfWords();
    OrAdds(lo / TWO51, v, 13);
  }

  /** i128_shr51: an arithmetic shift over both words. */
  function Shr51(a: I128): (r: I128)
    ensures Value(r) == Value(a) / TWO51
  {
    hide Or, Pow2;
    ShiftHigh(a.hi);
    OrShifted(a.lo, a.hi % TWO51);
    ShiftedValue(a.lo, a.hi);
    I128(Or(a.lo / TWO51, a.hi % TWO64 * 8192 % TWO64), a.hi / TWO51)
  }

  lemma ShiftedValue(lo: Uint64, hi: Int64)
    ensures (hi * TWO64 + lo) / TWO51 == hi / TWO51 * TWO64 + lo / TWO51 + hi % TWO51 * 8192
    ensures 0 <= lo / TWO51 + hi % TWO51 * 8192 < TWO64
  {
    var q, r := lo / TWO51, lo % TWO51;
    assert hi * TWO64 + lo == (hi * 8192 + q) * TWO51 + r;
    assert (hi * TWO64 + lo) / TWO51 == hi * 8192 + q;
  }

  /** i128_mask51. */
  function Mask51(a: I128): (r: nat)
    ensures r == Value(a) % TWO51
  {
    a.lo % TWO51
  }
}
