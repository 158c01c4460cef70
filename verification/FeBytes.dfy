/** Field elements from and to 32 bytes. */
module FeBytes {
  import opened Bits
  import opened LittleEndian
  import opened Int128
  import opened Fe25519

  const TWO255: int := 0x80000000_00000000_00000000_00000000_00000000_00000000_00000000_00000000

  lemma BytePowers()
    ensures Pow2(7) == 128 && Pow2(13) == 8192 && Pow2(19) == 0x8_0000 && Pow2(20) == 0x10_0000
    ensures Pow2(25) == 0x200_0000 && Pow2(26) == 0x400_0000 && Pow2(32) == 0x1_0000_0000
    ensures Pow2(39) == 0x80_0000_0000 && Pow2(45) == 0x2000_0000_0000
  {
    hide Pow2;
    Powers();
    Pow2Add(12, 1);
    Pow2Add(12, 7);
    Pow2Add(12, 8);
    Pow2Add(20, 5);
    Pow2Add(20, 6);
    Pow2Add(20, 12);
    Pow2Add(32, 7);
    Pow2Add(32, 13);
  }

  // ----- from bytes -------------------------------------------------------------------

  /** Eight words in base 2^32, least significant first. */
  function Words(x0: nat, x1: nat, x2: nat, x3: nat, x4: nat, x5: nat, x6: nat, x7: nat): nat {
    x0 + TWO32 * (x1 + TWO32 * (x2 + TWO32 * (x3 + TWO32 * (x4 + TWO32 * (x5 + TWO32 * (x6 + TWO32 * x7))))))
  }

  lemma EightWords(s: seq<Byte>)
    requires |s| == 32
    ensures FromLe(s) == Words(Word(s, 0), Word(s, 4), Word(s, 8), Word(s, 12),
                               Word(s, 16), Word(s, 20), Word(s, 24), Word(s, 28))
  {
    hide FromLe, Word;
    WordFirst(s, 0);
    WordFirst(s, 4);
    WordFirst(s, 8);
    WordFirst(s, 12);
    WordFirst(s, 16);
    WordFirst(s, 20);
    WordFirst(s, 24);
    WordFirst(s, 28);
    assert s[0..] == s;
    assert FromLe(s[32..]) == 0 by { NoBytes(); assert s[32..] == []; }
  }

  /** Two words of 32 bits into one of 64, masked to 51 bits. */
  lemma Mask2(a: nat, b: nat, n: nat, p: nat, low: nat)
    requires p == Pow2(n) && a < p && p * low == TWO51
    ensures Or(a, b * p) % TWO51 == a + p * (b % low)
  {
    hide Or, Pow2;
    OrAdds(a, b, n);
    assert low > 0;
    QuotientOfShift(a, b, p, low);
  }

  /** Three words: the third is cut to 64 bits before the mask. */
  lemma Mask3(a: nat, b: nat, c: nat, m: nat, n: nat, pm: nat, pn: nat, cut: nat, low: nat)
    requires pm == Pow2(m) && pn == Pow2(n) && a < pm && a + b * pm < pn
    requires pn * cut == TWO64 && pn * low == TWO51 && cut == low * 8192
    ensures Or(Or(a, b * pm), c * pn % TWO64) % TWO51 == a + b * pm + pn * (c % low)
  {
    hide Or, Pow2;
    OrAdds(a, b, m);
    assert low > 0 && cut > 0;
    QuotientOfShift(0, c, pn, cut);
    Mask2(a + b * pm, c % cut, n, pn, low);
    RemainderOfRemainder(c, low, 8192);
  }

  lemma LowLimbs(x0: nat, x1: nat, x2: nat, x3: nat)
    requires x0 < TWO32 && x1 < TWO32 && x2 < TWO32
    ensures Or(x0, x1 * 0x1_0000_0000) % TWO51 == x0 + 0x1_0000_0000 * (x1 % 0x8_0000)
    ensures Or(Or(x1 / 0x8_0000, x2 * 8192), x3 * 0x2000_0000_0000 % TWO64) % TWO51
         == x1 / 0x8_0000 + x2 * 8192 + 0x2000_0000_0000 * (x3 % 64)
  {
    hide Or, Pow2;
    BytePowers();
    Mask2(x0, x1, 32, 0x1_0000_0000, 0x8_0000);
    Mask3(x1 / 0x8_0000, x2, x3, 13, 45, 8192, 0x2000_0000_0000, 0x8_0000, 64);
  }

  lemma HighLimbs(x3: nat, x4: nat, x5: nat, x6: nat, x7: nat)
    requires x3 < TWO32 && x4 < TWO32 && x5 < TWO32 && x6 < TWO32
    ensures Or(x3 / 64, x4 * 0x400_0000) % TWO51 == x3 / 64 + 0x400_0000 * (x4 % 0x200_0000)
    ensures Or(Or(x4 / 0x200_0000, x5 * 128), x6 * 0x80_0000_0000 % TWO64) % TWO51
         == x4 / 0x200_0000 + x5 * 128 + 0x80_0000_0000 * (x6 % 4096)
    ensures Or(x6 / 4096, x7 * 0x10_0000) % TWO51 == x6 / 4096 + 0x10_0000 * (x7 % 0x8000_0000)
  {
    hide Or, Pow2;
    BytePowers();
    Mask2(x3 / 64, x4, 26, 0x400_0000, 0x200_0000);
    Mask3(x4 / 0x200_0000, x5, x6, 7, 39, 128, 0x80_0000_0000, 0x200_0000, 4096);
    Mask2(x6 / 4096, x7, 20, 0x10_0000, 0x8000_0000);
  }

  /** fe_frombytes: the top bit is ignored. */
  method FeFromBytes(s: seq<Byte>) returns (h: Fe)
    requires |s| == 32
    ensures Carried(h) && Limbs(h) == FromLe(s) % TWO255
  {
    hide FromLe, Word, Words, Or, Horner, Limbs, Carried;
    EightWords(s);
    var x0, x1, x2, x3 := Word(s, 0), Word(s, 4), Word(s, 8), Word(s, 12);
    var x4, x5, x6, x7 := Word(s, 16), Word(s, 20), Word(s, 24), Word(s, 28);
    var h0 := Or(x0, x1 * 0x1_0000_0000) % TWO51;
    var h1 := Or(Or(x1 / 0x8_0000, x2 * 8192), x3 * 0x2000_0000_0000 % TWO64) % TWO51;
    var h2 := Or(x3 / 64, x4 * 0x400_0000) % TWO51;
    var h3 := Or(Or(x4 / 0x200_0000, x5 * 128), x6 * 0x80_0000_0000 % TWO64) % TWO51;
    var h4 := Or(x6 / 4096, x7 * 0x10_0000) % TWO51;
    UnpackedLimbs(x0, x1, x2, x3, x4, x5, x6, x7, h0, h1, h2, h3, h4);
    h := [h0, h1, h2, h3, h4];
    CarriedLimbs(h);
  }

  /** The limbs of eight words. */
  lemma UnpackedLimbs(x0: nat, x1: nat, x2: nat, x3: nat, x4: nat, x5: nat, x6: nat, x7: nat,
                      h0: nat, h1: nat, h2: nat, h3: nat, h4: nat)
    requires x0 < TWO32 && x1 < TWO32 && x2 < TWO32 && x3 < TWO32
    requires x4 < TWO32 && x5 < TWO32 && x6 < TWO32 && x7 < TWO32
    requires h0 == Or(x0, x1 * 0x1_0000_0000) % TWO51
    requires h1 == Or(Or(x1 / 0x8_0000, x2 * 8192), x3 * 0x2000_0000_0000 % TWO64) % TWO51
    requires h2 == Or(x3 / 64, x4 * 0x400_0000) % TWO51
    requires h3 == Or(Or(x4 / 0x200_0000, x5 * 128), x6 * 0x80_0000_0000 % TWO64) % TWO51
    requires h4 == Or(x6 / 4096, x7 * 0x10_0000) % TWO51
    ensures Words(x0, x1, x2, x3, x4, x5, x6, x7) % TWO255 == Horner(h0, h1, h2, h3, h4)
  {
    hide Or, Horner, Words;
    LowLimbs(x0, x1, x2, x3);
    HighLimbs(x3, x4, x5, x6, x7);
    LimbsOfWords(x0, x1, x2, x3, x4, x5, x6, x7);
  }

  lemma LimbsOfWords(x0: nat, x1: nat, x2: nat, x3: nat, x4: nat, x5: nat, x6: nat, x7: nat)
    requires x0 < TWO32 && x1 < TWO32 && x2 < TWO32 && x3 < TWO32
    requires x4 < TWO32 && x5 < TWO32 && x6 < TWO32 && x7 < TWO32
    ensures Words(x0, x1, x2, x3, x4, x5, x6, x7) % TWO255 == Horner(
      x0 + 0x1_0000_0000 * (x1 % 0x8_0000),
      x1 / 0x8_0000 + x2 * 8192 + 0x2000_0000_0000 * (x3 % 64),
      x3 / 64 + 0x400_0000 * (x4 % 0x200_0000),
      x4 / 0x200_0000 + x5 * 128 + 0x80_0000_0000 * (x6 % 4096),
      x6 / 4096 + 0x10_0000 * (x7 % 0x8000_0000))
  {
    var v := Words(x0, x1, x2, x3, x4, x5, x6, x7);
    var r := v - x7 / 0x8000_0000 * TWO255;
    assert r == Horner(
      x0 + 0x1_0000_0000 * (x1 % 0x8_0000),
      x1 / 0x8_0000 + x2 * 8192 + 0x2000_0000_0000 * (x3 % 64),
      x3 / 64 + 0x400_0000 * (x4 % 0x200_0000),
      x4 / 0x200_0000 + x5 * 128 + 0x80_0000_0000 * (x6 % 4096),
      x6 / 4096 + 0x10_0000 * (x7 % 0x8000_0000));
    QuotientUnique(v, TWO255, x7 / 0x8000_0000, r);
  }

  // ----- to bytes ---------------------------------------------------------------------

  /** Limbs 0 to 3 are digits in base 2^51. */
  predicate Digits(f: Fe) {
    forall i :: 0 <= i < 4 ==> 0 <= f[i] < TWO51
  }

  /** Moving a carry up one limb keeps the value. */
  lemma CarryKeeps(f: Fe, i: nat, q: int, r: int, t: int)
    requires i < 4 && f[i] == q * TWO51 + r
    requires -TWO63 <= r < TWO63 && -TWO63 <= t < TWO63
    requires var g: int := f[i + 1]; t == g + q
    ensures Limbs(f[i := r][i + 1 := t]) == Limbs(f)
  {
    if i == 0 {
    } else if i == 1 {
    } else if i == 2 {
    }
  }

  /** One pass of fe_tobytes: the carry out of limb 4 comes back 19 times. */
  method CarryPass(h: Fe) returns (f: Fe)
    requires Bounded(h, 2 * LIMB)
    ensures Digits(f) && -4 * LIMB <= f[4] <= 4 * LIMB
    ensures Limbs(f) == Limbs(h) - P * (h[4] / TWO51)
  {
    hide Limbs;
    f := h;
    var q: Int64 := f[4] / TWO51;
    var w: Int64, t: Int64 := f[4] % TWO51, f[0] + q * 19;
    f := f[4 := w][0 := t];
    WrapKeeps(h, q, w, t);
    for i := 0 to 4
      invariant forall k :: 0 <= k < i ==> 0 <= f[k] < TWO51
      invariant forall k :: i < k < 5 ==> -2 * LIMB <= f[k] <= 2 * LIMB
      invariant -3 * LIMB <= f[i] <= 3 * LIMB
      invariant Limbs(f) == Limbs(h) - P * (h[4] / TWO51)
    {
      q := f[i] / TWO51;
      w, t := f[i] % TWO51, f[i + 1] + q;
      CarryKeeps(f, i, q, w, t);
      f := f[i := w][i + 1 := t];
    }
  }

  lemma WrapKeeps(h: Fe, q: int, w: Int64, t: Int64)
    requires h[4] == q * TWO51 + w
    requires var g: int := h[0]; t == g + q * 19
    ensures Limbs(h[4 := w][0 := t]) == Limbs(h) - P * q
  {}

  /** After one pass the value is nearly in range; after the next it is. */
  lemma FirstPass(h: Fe, f: Fe)
    requires Bounded(h, LIMB) && Digits(f) && Limbs(f) == Limbs(h) - P * (h[4] / TWO51)
    ensures -8 <= f[4] <= TWO51 + 8
  {
    var q: int, r: int := h[4] / TWO51, h[4] % TWO51;
    assert h[4] == q * TWO51 + r;
  }

  lemma LaterPass(h: Fe, f: Fe)
    requires Digits(h) && -8 <= h[4] <= TWO51 + 8
    requires Digits(f) && Limbs(f) == Limbs(h) - P * (h[4] / TWO51)
    ensures 0 <= f[4] < TWO51
  {
    var q: int, r: int := h[4] / TWO51, h[4] % TWO51;
    assert h[4] == q * TWO51 + r && -1 <= q <= 1;
  }

  /** The five passes of fe_tobytes: two of them bring the value into [0, 2^255). */
  method FullCarry(h: Fe) returns (f: Fe)
    requires Bounded(h, LIMB)
    ensures Digits(f) && 0 <= f[4] < TWO51 && Field(f) == Field(h)
  {
    hide Limbs, Horner, Digits;
    f := h;
    for j := 0 to 5
      invariant j == 0 ==> f == h
      invariant Limbs(f) % P == Limbs(h) % P
      invariant j >= 1 ==> Digits(f) && -8 <= f[4] <= TWO51 + 8
      invariant j >= 2 ==> 0 <= f[4] < TWO51
    {
      ghost var was := f;
      if j > 0 {
        DigitsBounded(f);
      }
      f := CarryPass(f);
      SameField(Limbs(was), Limbs(f), was[4] / TWO51);
      if j == 0 {
        FirstPass(was, f);
      } else {
        LaterPass(was, f);
      }
    }
  }

  lemma DigitsBounded(f: Fe)
    requires Digits(f) && -8 <= f[4] <= TWO51 + 8
    ensures Bounded(f, 2 * LIMB)
  {}

  /** Whether v or v - p is the representative: v + 19 overflows 255 bits exactly when
      v is at least p. */
  method Canonical(f: Fe) returns (r: Fe)
    requires Digits(f) && 0 <= f[4] < TWO51
    ensures Digits(r) && 0 <= r[4] < TWO51 && Limbs(r) == Field(f)
  {
    hide Limbs;
    var m: Fe := f[0 := f[0] + 19];
    PlusNineteen(f, m);
    for i := 0 to 4
      invariant forall k :: 0 <= k < i ==> 0 <= m[k] < TWO51
      invariant forall k :: i < k < 5 ==> m[k] == f[k]
      invariant 0 <= m[i] <= TWO51 + 18
      invariant Limbs(m) == Limbs(f) + 19
    {
      var q: Int64 := m[i] / TWO51;
      var w: Int64, t: Int64 := m[i] % TWO51, m[i + 1] + q;
      CarryKeeps(m, i, q, w, t);
      m := m[i := w][i + 1 := t];
    }
    ChooseRepresentative(f, m);
    if m[4] / TWO51 > 0 {
      r := m[4 := m[4] % TWO51];
    } else {
      r := f;
    }
  }

  lemma PlusNineteen(f: Fe, m: Fe)
    requires 0 <= f[0] < TWO51 && m == f[0 := f[0] + 19]
    ensures Limbs(m) == Limbs(f) + 19
  {}

  lemma ChooseRepresentative(f: Fe, m: Fe)
    requires Digits(f) && 0 <= f[4] < TWO51
    requires Digits(m) && 0 <= m[4] <= TWO51 + 18 && Limbs(m) == Limbs(f) + 19
    ensures m[4] / TWO51 > 0 ==> Limbs(m[4 := m[4] % TWO51]) == Limbs(f) - P == Field(f)
    ensures m[4] / TWO51 <= 0 ==> Limbs(f) == Field(f)
  {
    hide Horner, Field;
    RangeOfLimbs(f);
    RangeOfLimbs(m);
    if m[4] >= TWO51 {
      TopCarried(m);
      InField(f, Limbs(f) - P, 1);
    } else {
      assert m[4] / TWO51 == 0;
      InField(f, Limbs(f), 0);
    }
  }

  lemma RangeOfLimbs(f: Fe)
    requires Digits(f) && 0 <= f[4] <= TWO51 + 18
    ensures 0 <= Limbs(f) < TWO255 + 20 * W4
    ensures Limbs(f) < TWO255 <==> f[4] < TWO51
  {}

  lemma TopCarried(m: Fe)
    requires TWO51 <= m[4] <= TWO51 + 18
    ensures m[4] / TWO51 == 1 && Limbs(m[4 := m[4] % TWO51]) == Limbs(m) - TWO255
  {
    assert m[4] % TWO51 == m[4] - TWO51;
  }

  lemma InField(f: Fe, x: int, k: int)
    requires 0 <= x < P && Limbs(f) == x + P * k
    ensures Field(f) == x
  {
    hide Limbs;
    SameField(Limbs(f), x, k);
  }

  lemma SixBytes(a: Byte, b: Byte, c: Byte, d: Byte, e: Byte, f: Byte)
    ensures FromLe([a, b, c, d, e, f]) == a + 256 * (b + 256 * (c + 256 * (d + 256 * (e + 256 * f))))
  {
    hide FromLe;
    var s: seq<Byte> := [a, b, c, d, e, f];
    FirstByte(s, 0);
    FirstByte(s, 1);
    FirstByte(s, 2);
    FirstByte(s, 3);
    FirstByte(s, 4);
    FirstByte(s, 5);
    NoBytes();
    assert s[0..] == s && s[6..] == [];
  }

  lemma SevenBytes(a: Byte, b: Byte, c: Byte, d: Byte, e: Byte, f: Byte, g: Byte)
    ensures FromLe([a, b, c, d, e, f, g])
         == a + 256 * (b + 256 * (c + 256 * (d + 256 * (e + 256 * (f + 256 * g)))))
  {
    hide FromLe;
    SixBytes(b, c, d, e, f, g);
    var s: seq<Byte> := [a, b, c, d, e, f, g];
    FirstByte(s, 0);
    assert s[0..] == s && s[1..] == [b, c, d, e, f, g];
  }

  /** The bytes of y, as C takes them out with shifts. */
  lemma ByteDigits(y: nat)
    ensures y == y % 256 + 256 * (y / 256 % 256 + 256 * (y / 65536 % 256 + 256 * (y / 0x100_0000 % 256
      + 256 * (y / 0x1_0000_0000 % 256 + 256 * (y / 0x100_0000_0000)))))
    ensures y / 0x100_0000_0000 == y / 0x100_0000_0000 % 256 + 256 * (y / 0x1_0000_0000_0000)
  {
    CutQuotient(y, 256, 256, 65536);
    CutQuotient(y, 65536, 256, 0x100_0000);
    CutQuotient(y, 0x100_0000, 256, 0x1_0000_0000);
    CutQuotient(y, 0x1_0000_0000, 256, 0x100_0000_0000);
    CutQuotient(y, 0x100_0000_0000, 256, 0x1_0000_0000_0000);
  }

  function Group7(y: nat, top: Byte): (s: seq<Byte>)
    requires y < 0x8_0000_0000_0000
    ensures |s| == 7 && FromLe(s) == y % 0x1_0000_0000_0000 + 0x1_0000_0000_0000 * top
  {
    hide FromLe;
    var s: seq<Byte> := [y % 256, y / 256 % 256, y / 65536 % 256, y / 0x100_0000 % 256,
      y / 0x1_0000_0000 % 256, y / 0x100_0000_0000 % 256, top];
    ByteDigits(y);
    SevenBytes(s[0], s[1], s[2], s[3], s[4], s[5], s[6]);
    s
  }

  function Group6(y: nat, top: Byte): (s: seq<Byte>)
    ensures |s| == 6 && FromLe(s) == y % 0x100_0000_0000 + 0x100_0000_0000 * top
  {
    hide FromLe;
    var s: seq<Byte> := [y % 256, y / 256 % 256, y / 65536 % 256, y / 0x100_0000 % 256,
      y / 0x1_0000_0000 % 256, top];
    ByteDigits(y);
    SixBytes(s[0], s[1], s[2], s[3], s[4], s[5]);
    s
  }

  /** A byte shared by two limbs. */
  lemma SharedByte(a: nat, b: nat, n: nat, p: nat, low: nat)
    requires p == Pow2(n) && a < p && p * low == 256
    ensures Or(a, b * p) % 256 == a + p * (b % low)
  {
    hide Or, Pow2;
    OrAdds(a, b, n);
    assert low > 0;
    QuotientOfShift(a, b, p, low);
  }

  lemma SharedBytes(x0: nat, x1: nat, x2: nat, x3: nat, x4: nat)
    requires x0 < TWO51 && x1 < TWO51 && x2 < TWO51 && x3 < TWO51
    ensures Or(x0 / 0x1_0000_0000_0000, x1 * 8) % 256 == x0 / 0x1_0000_0000_0000 + 8 * (x1 % 32)
    ensures Or(x1 / 0x2000_0000_0000, x2 * 64) % 256 == x1 / 0x2000_0000_0000 + 64 * (x2 % 4)
    ensures Or(x2 / 0x4_0000_0000_0000, x3 * 2) % 256 == x2 / 0x4_0000_0000_0000 + 2 * (x3 % 128)
    ensures Or(x3 / 0x8000_0000_0000, x4 * 16) % 256 == x3 / 0x8000_0000_0000 + 16 * (x4 % 16)
  {
    hide Or, Pow2;
    Powers();
    SharedByte(x0 / 0x1_0000_0000_0000, x1, 3, 8, 32);
    SharedByte(x1 / 0x2000_0000_0000, x2, 6, 64, 4);
    SharedByte(x2 / 0x4_0000_0000_0000, x3, 1, 2, 128);
    SharedByte(x3 / 0x8000_0000_0000, x4, 4, 16, 16);
  }

  /** Two pieces appended to n bytes. */
  lemma TwoMore(s: seq<Byte>, a: seq<Byte>, b: seq<Byte>, m: nat, p: nat, q: nat)
    requires |a| == m && p == Pow2(8 * |s|) && q == Pow2(8 * m)
    ensures FromLe(s + a + b) == FromLe(s) + p * (FromLe(a) + q * FromLe(b))
  {
    hide FromLe, Pow2;
    FromLeAppend(a, b);
    FromLeAppend(s, a + b);
    assert s + a + b == s + (a + b);
  }

  lemma FiveGroups(a: seq<Byte>, b: seq<Byte>, c: seq<Byte>, d: seq<Byte>, e: seq<Byte>)
    requires |a| == |c| == 7 && |b| == |d| == |e| == 6
    ensures FromLe(a + b + c + d + e) == FromLe(a) + 0x100_0000_0000_0000 * (FromLe(b) + 0x1_0000_0000_0000
      * (FromLe(c) + 0x100_0000_0000_0000 * (FromLe(d) + 0x1_0000_0000_0000 * FromLe(e))))
  {
    hide FromLe, Pow2;
    GroupPowers();
    var s := a + b + c;
    TwoMore(a, b, c, 6, 0x100_0000_0000_0000, 0x1_0000_0000_0000);
    TwoMore(s, d, e, 6, 0x1_0000_0000_0000_0000_0000_0000_0000_0000_0000_0000, 0x1_0000_0000_0000);
    GroupSum(FromLe(a), FromLe(b), FromLe(c), FromLe(d), FromLe(e));
  }

  lemma GroupSum(a: nat, b: nat, c: nat, d: nat, e: nat)
    ensures a + 0x100_0000_0000_0000 * (b + 0x1_0000_0000_0000 * c)
      + 0x1_0000_0000_0000_0000_0000_0000_0000_0000_0000_0000 * (d + 0x1_0000_0000_0000 * e)
      == a + 0x100_0000_0000_0000 * (b + 0x1_0000_0000_0000
      * (c + 0x100_0000_0000_0000 * (d + 0x1_0000_0000_0000 * e)))
  {}

  lemma GroupPowers()
    ensures Pow2(48) == 0x1_0000_0000_0000 && Pow2(56) == 0x100_0000_0000_0000
    ensures Pow2(160) == 0x1_0000_0000_0000_0000_0000_0000_0000_0000_0000_0000
  {
    hide Pow2;
    Powers();
    Pow2Add(8, 8);
    Pow2Add(16, 16);
    Pow2Add(16, 32);
    Pow2Add(48, 8);
    Pow2Add(48, 32);
    Pow2Add(80, 80);
  }

  lemma GroupsAreLimbs(x0: nat, x1: nat, x2: nat, x3: nat, x4: nat)
    requires x0 < TWO51 && x1 < TWO51 && x2 < TWO51 && x3 < TWO51 && x4 < TWO51
    ensures (x0 % 0x1_0000_0000_0000 + 0x1_0000_0000_0000 * (x0 / 0x1_0000_0000_0000 + 8 * (x1 % 32)))
      + 0x100_0000_0000_0000 * ((x1 / 32 % 0x100_0000_0000
          + 0x100_0000_0000 * (x1 / 0x2000_0000_0000 + 64 * (x2 % 4)))
      + 0x1_0000_0000_0000 * ((x2 / 4 % 0x1_0000_0000_0000
          + 0x1_0000_0000_0000 * (x2 / 0x4_0000_0000_0000 + 2 * (x3 % 128)))
      + 0x100_0000_0000_0000 * ((x3 / 128 % 0x100_0000_0000
          + 0x100_0000_0000 * (x3 / 0x8000_0000_0000 + 16 * (x4 % 16)))
      + 0x1_0000_0000_0000 * (x4 / 16 % 0x100_0000_0000 + 0x100_0000_0000 * (x4 / 16 / 0x100_0000_0000)))))
      == Horner(x0, x1, x2, x3, x4)
  {
    CutQuotient(x1, 32, 0x100_0000_0000, 0x2000_0000_0000);
    CutQuotient(x2, 4, 0x1_0000_0000_0000, 0x4_0000_0000_0000);
    CutQuotient(x3, 128, 0x100_0000_0000, 0x8000_0000_0000);
  }

  /** The bytes that fe_tobytes writes for five digits. */
  function Packed(x0: nat, x1: nat, x2: nat, x3: nat, x4: nat): (s: seq<Byte>)
    requires x0 < TWO51 && x1 < TWO51 && x2 < TWO51 && x3 < TWO51 && x4 < TWO51
    ensures |s| == 32 && FromLe(s) == Horner(x0, x1, x2, x3, x4)
  {
    hide Or, FromLe, Group6, Group7, Horner;
    SharedBytes(x0, x1, x2, x3, x4);
    assert x4 / 0x1000_0000_0000 % 256 == x4 / 16 / 0x100_0000_0000 by { CutTop(x4); }
    GroupsAreLimbs(x0, x1, x2, x3, x4);
    var a := Group7(x0, Or(x0 / 0x1_0000_0000_0000, x1 * 8) % 256);
    var b := Group6(x1 / 32, Or(x1 / 0x2000_0000_0000, x2 * 64) % 256);
    var c := Group7(x2 / 4, Or(x2 / 0x4_0000_0000_0000, x3 * 2) % 256);
    var d := Group6(x3 / 128, Or(x3 / 0x8000_0000_0000, x4 * 16) % 256);
    var e := Group6(x4 / 16, x4 / 0x1000_0000_0000 % 256);
    FiveGroups(a, b, c, d, e);
    a + b + c + d + e
  }

  lemma CutTop(x4: nat)
    requires x4 < TWO51
    ensures x4 / 0x1000_0000_0000 % 256 == x4 / 16 / 0x100_0000_0000
  {}

  /** fe_tobytes: the 32 bytes of the unique representative in [0, p). */
  method FeToBytes(h: Fe) returns (s: seq<Byte>)
    requires Bounded(h, LIMB)
    ensures s == ToLe(Field(h), 32)
  {
    hide FromLe, Field, Packed, ToLe, Horner;
    var f := FullCarry(h);
    f := Canonical(f);
    s := Packed(f[0], f[1], f[2], f[3], f[4]);
    ToFromLe(s);
  }
}
