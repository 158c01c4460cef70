/** The incremental state of Poly1305 and the tag of the AEAD. */
module Poly1305State {
  import opened Bits
  import opened LittleEndian
  import opened Poly1305
  import opened FiveLimbs

  const BIG: int := 0x800_0040 // 2^27 + 64: a limb after a block is added

  /** Carries keep the value; the one out of limb 4 comes back five times. */
  lemma ChainValue(d0: int, d1: int, d2: int, d3: int, d4: int, h0: int, h1: int, h2: int, h3: int, h4: int,
                   c1: int, c2: int, c3: int, c4: int, c0: int, q: int, h0x: int)
    requires d0 == c1 * W + h0 && d1 + c1 == c2 * W + h1 && d2 + c2 == c3 * W + h2
    requires d3 + c3 == c4 * W + h3 && d4 + c4 == c0 * W + h4 && h0 + c0 * 5 == q * W + h0x
    ensures Horner(d0, d1, d2, d3, d4) == Horner(h0x, h1 + q, h2, h3, h4) + P * c0
  {}

  /** A sum of five products; m bounds the second factors. */
  function Dot5(a0: Uint32, b0: Uint32, a1: Uint32, b1: Uint32, a2: Uint32, b2: Uint32, a3: Uint32, b3: Uint32,
                a4: Uint32, b4: Uint32, ghost m: int): (d: Uint64)
    requires a0 < BIG && a1 < BIG && a2 < BIG && a3 < BIG && a4 < BIG && m <= 5 * W
    requires b0 <= m && b1 <= m && b2 <= m && b3 <= m && b4 <= m
    ensures d == Sum5(a0, b0, a1, b1, a2, b2, a3, b3, a4, b4) <= 5 * (BIG * m)
  {
    ProductBound(a0, b0, BIG, m);
    ProductBound(a1, b1, BIG, m);
    ProductBound(a2, b2, BIG, m);
    ProductBound(a3, b3, BIG, m);
    ProductBound(a4, b4, BIG, m);
    var p0: int, p1: int, p2: int, p3: int, p4: int := a0, a1, a2, a3, a4;
    p0 * b0 + p1 * b1 + p2 * b2 + p3 * b3 + p4 * b4
  }

  lemma SplitW(x: nat) returns (q: nat, r: nat)
    ensures x == q * W + r && r < W && q == x / W && r == x % W
  {
    q, r := x / W, x % W;
  }

  predicate Digits(n: Limbs) {
    n[0] < W && n[1] < W + 64 && n[2] < W && n[3] < W && n[4] < W
  }

  /** The carries of poly1305_block16: nothing is lost in the conversions to 32 bits. */
  method CarryDigits(d0: Uint64, e1: Uint64, e2: Uint64, e3: Uint64, e4: Uint64) returns (n: Limbs)
    requires d0 <= 25 * (BIG * W) && e1 <= 25 * (BIG * W) && e2 <= 25 * (BIG * W) && e3 <= 25 * (BIG * W)
    requires e4 <= 5 * (BIG * W)
    ensures Digits(n) && Number(n) % P == Horner(d0, e1, e2, e3, e4) % P
  {
    hide Horner;
    var c1: Uint32 := d0 / W;
    ghost var q0, h0 := SplitW(d0);
    var d1: Uint64 := e1 + c1;
    var c2: Uint32 := d1 / W;
    ghost var q1, h1 := SplitW(d1);
    var d2: Uint64 := e2 + c2;
    var c3: Uint32 := d2 / W;
    ghost var q2, h2 := SplitW(d2);
    var d3: Uint64 := e3 + c3;
    var c4: Uint32 := d3 / W;
    ghost var q3, h3 := SplitW(d3);
    var d4: Uint64 := e4 + c4;
    var c0: Uint32 := d4 / W;
    ghost var q4, h4 := SplitW(d4);
    var carry: Uint32 := c0 * 5;
    var t: Uint32 := d0 % W + carry;
    ghost var q, r := SplitW(t);
    n := [t % W, d1 % W + t / W, d2 % W, d3 % W, d4 % W];
    ChainValue(d0, e1, e2, e3, e4, h0, h1, h2, h3, h4, c1, c2, c3, c4, c0, q, r);
    NumberOf(n);
    SameResidue(Horner(d0, e1, e2, e3, e4), Number(n), c0);
  }

  lemma NumberOf(n: Limbs)
    ensures Number(n) == Horner(n[0], n[1], n[2], n[3], n[4])
  {}

  /** (h + block) * r on limbs. */
  method MulReduce(h: Limbs, r: Limbs, s: seq<Uint32>) returns (n: Limbs)
    requires |s| == 4 && forall i :: 0 <= i < 5 ==> h[i] < BIG && r[i] < W
    requires forall i :: 0 <= i < 4 ==> var x: int := r[i + 1]; s[i] == x * 5
    ensures Digits(n) && Number(n) % P == Number(h) * Number(r) % P
  {
    hide Number, Dot5, Sum5, Digits, Horner, Radix, Folds;
    var d0 := Dot5(h[0], r[0], h[1], s[3], h[2], s[2], h[3], s[1], h[4], s[0], 5 * W);
    var d1 := Dot5(h[0], r[1], h[1], r[0], h[2], s[3], h[3], s[2], h[4], s[1], 5 * W);
    var d2 := Dot5(h[0], r[2], h[1], r[1], h[2], r[0], h[3], s[3], h[4], s[2], 5 * W);
    var d3 := Dot5(h[0], r[3], h[1], r[2], h[2], r[1], h[3], r[0], h[4], s[3], 5 * W);
    var d4 := Dot5(h[0], r[4], h[1], r[3], h[2], r[2], h[3], r[1], h[4], r[0], W);
    n := CarryDigits(d0, d1, d2, d3, d4);
    NumberOf(h);
    NumberOf(r);
    LimbsRadix(0, 0, 0, 0, 0);
    ghost var h0, h1, h2, h3, h4, r0, r1, r2, r3, r4: int := h[0], h[1], h[2], h[3], h[4], r[0], r[1], r[2], r[3], r[4];
    ghost var k := Product(W, 5, P, h0, h1, h2, h3, h4, r0, r1, r2, r3, r4);
    LimbsRadix(h0, h1, h2, h3, h4);
    LimbsRadix(r0, r1, r2, r3, r4);
    LimbsRadix(d0, d1, d2, d3, d4);
    SameResidue(Number(h) * Number(r), Horner(d0, d1, d2, d3, d4), k);
  }

  lemma SameResidue(x: int, y: int, k: int)
    requires x == y + P * k
    ensures x % P == y % P
  {}

  function AddLimbs(h: Limbs, b: Limbs): (n: Limbs)
    requires Digits(h) && b[0] < W && b[1] < W && b[2] < W && b[3] < W && b[4] < W
    ensures Number(n) == Number(h) + Number(b)
    ensures forall i :: 0 <= i < 5 ==> n[i] < BIG
  {
    [h[0] + b[0], h[1] + b[1], h[2] + b[2], h[3] + b[3], h[4] + b[4]]
  }

  lemma MultipleOut(p: int, k: int, u: int, y: int, r: int)
    ensures (p * k + u + y) * r == (u + y) * r + p * (k * r)
  {}

  // ----- the final reduction ----------------------------------------------------------------

  /** The partial carry of poly1305_done. One pass is enough: if the carry comes all the
      way round, limb 1 has become small before it receives the last one. */
  method FinalCarry(h: Limbs) returns (n: Limbs)
    requires Digits(h)
    ensures forall i :: 0 <= i < 5 ==> n[i] < W
    ensures Number(n) % P == Number(h) % P
  {
    hide Horner, Number;
    var c1: Uint32 := h[1] / W;
    ghost var q1, r1 := SplitW(h[1]);
    var h2: Uint32 := h[2] + c1;
    var c2: Uint32 := h2 / W;
    ghost var q2, r2 := SplitW(h2);
    var h3: Uint32 := h[3] + c2;
    var c3: Uint32 := h3 / W;
    ghost var q3, r3 := SplitW(h3);
    var h4: Uint32 := h[4] + c3;
    var c4: Uint32 := h4 / W;
    ghost var q4, r4 := SplitW(h4);
    var h0: Uint32 := h[0] + c4 * 5;
    var c0: Uint32 := h0 / W;
    ghost var q0, r0 := SplitW(h0);
    RoomForLast(q1, r1, q2, r2, q3, r3, q4, r4, q0, r0, h[0], h[1], h[2], h[3], h[4]);
    n := [h0 % W, h[1] % W + c0, h2 % W, h3 % W, h4 % W];
    FinalValue(h[0], h[1], h[2], h[3], h[4], q1, r1, q2, r2, q3, r3, q4, r4, q0, r0);
    NumberOf(h);
    NumberOf(n);
    SameResidue(Number(h), Number(n), c4);
  }

  /** If the carry comes all the way round, limb 1 has room for the last one. */
  lemma RoomForLast(q1: nat, r1: nat, q2: nat, r2: nat, q3: nat, r3: nat, q4: nat, r4: nat, q0: nat, r0: nat,
                    h0: nat, h1: nat, h2: nat, h3: nat, h4: nat)
    requires h0 < W && h1 < W + 64 && h2 < W && h3 < W && h4 < W
    requires h1 == q1 * W + r1 && h2 + q1 == q2 * W + r2 && h3 + q2 == q3 * W + r3 && h4 + q3 == q4 * W + r4
    requires h0 + q4 * 5 == q0 * W + r0 && r0 < W && r1 < W && r2 < W && r3 < W && r4 < W
    ensures r1 + q0 < W
  {
    assert q1 <= 1;
    assert q2 <= q1;
    assert q3 <= q2;
    assert q4 <= q3;
    assert q0 <= q4;
  }

  lemma FinalValue(h0: int, h1: int, h2: int, h3: int, h4: int, q1: int, r1: int, q2: int, r2: int, q3: int, r3: int,
                   q4: int, r4: int, q0: int, r0: int)
    requires h1 == q1 * W + r1 && h2 + q1 == q2 * W + r2 && h3 + q2 == q3 * W + r3 && h4 + q3 == q4 * W + r4
    requires h0 + q4 * 5 == q0 * W + r0
    ensures Horner(h0, h1, h2, h3, h4) == Horner(r0, r1 + q0, r2, r3, r4) + P * q4
  {}

  /** (h & ~mask) | (g & mask) for a mask of all zeros or all ones. */
  function Select(h: Uint32, g: Uint32, mask: Uint32): (x: Uint32)
    requires mask == 0 || mask == TWO32 - 1
    ensures x == if mask == 0 then h else g
  {
    var hn: nat, gn: nat, m: nat := h, g, mask;
    SelectCases(hn, gn, m);
    Or(And(hn, TWO32 - 1 - m), And(gn, m))
  }

  lemma SelectCases(h: nat, g: nat, m: nat)
    requires h < TWO32 && g < TWO32 && (m == 0 || m == TWO32 - 1)
    ensures Or(And(h, TWO32 - 1 - m), And(g, m)) == if m == 0 then h else g
  {
    hide Or, And, Pow2;
    LimbPowers();
    Pow2Add(24, 8);
    AndLow(h, 32);
    AndLow(g, 32);
    AndNothing(h);
    AndNothing(g);
    OrNone(h);
    OrNone(g);
  }

  lemma OrNone(x: nat)
    ensures Or(x, 0) == x && Or(0, x) == x
  {}

  /** h or h - p: h + 5 reaches 2^130 exactly when h is at least p. */
  method ReduceOnce(h: Limbs) returns (n: Limbs)
    requires forall i :: 0 <= i < 5 ==> h[i] < W
    ensures forall i :: 0 <= i < 5 ==> n[i] < W
    ensures Number(n) == Number(h) % P
  {
    hide Select;
    var g0: Uint32 := h[0] + 5;
    var g1: Uint32 := h[1] + g0 / W;
    var g2: Uint32 := h[2] + g1 / W;
    var g3: Uint32 := h[3] + g2 / W;
    var top: int := h[4];
    var g4: Uint32 := (top + g3 / W - W) % TWO32;
    var mask: Uint32 := (g4 / 0x8000_0000 - 1) % TWO32;
    MaskOf(top + g3 / W - W, g4);
    n := [Select(h[0], g0 % W, mask), Select(h[1], g1 % W, mask), Select(h[2], g2 % W, mask),
          Select(h[3], g3 % W, mask), Select(h[4], g4, mask)];
    if mask == 0 {
      QuotientUnique(Number(h), P, 0, Number(n));
    } else {
      QuotientUnique(Number(h), P, 1, Number(n));
    }
  }

  lemma MaskOf(x: int, g: Uint32)
    requires -W <= x <= 0 && g == x % TWO32
    ensures (g / 0x8000_0000 - 1) % TWO32 == (if x < 0 then 0 else TWO32 - 1)
    ensures x == 0 ==> g == 0
  {}

  /** Two limbs in one 32-bit word: the shift left is cut to 32 bits. */
  lemma PackWord(a: nat, b: nat, n: nat, p: nat, cut: nat)
    requires p == Pow2(n) && a < p && cut > 0 && p * cut == TWO32
    ensures Or(a, b * p % TWO32) == a + p * (b % cut) < TWO32
  {
    hide Or, Pow2;
    ShiftCut(b, p, cut);
    var x := b % cut;
    OrAdds(a, x, n);
    ShiftBelow(a, x, p, cut);
  }

  lemma ShiftCut(b: nat, p: nat, cut: nat)
    requires cut > 0 && p * cut == TWO32
    ensures b * p % TWO32 == b % cut * p
  {
    var q, x := Divide(b, cut);
    assert (q * cut + x) * p == q * (p * cut) + x * p;
    ShiftBelow(0, x, p, cut);
    QuotientUnique(b * p, TWO32, q, x * p);
  }

  lemma ShiftBelow(a: nat, x: nat, p: nat, cut: nat)
    requires a < p && x < cut
    ensures a + p * x < p * cut
  {
    MulAtLeast(cut - x, p);
    assert (cut - x) * p == p * cut - p * x;
  }

  lemma PackedWords(h0: nat, h1: nat, h2: nat, h3: nat, h4: nat)
    requires h0 < W && h1 < W && h2 < W && h3 < W && h4 < W
    ensures Or(h0, h1 * W % TWO32) == h0 + W * (h1 % 64) < TWO32
    ensures Or(h1 / 64, h2 * 0x10_0000 % TWO32) == h1 / 64 + 0x10_0000 * (h2 % 4096) < TWO32
    ensures Or(h2 / 4096, h3 * 0x4000 % TWO32) == h2 / 4096 + 0x4000 * (h3 % 0x4_0000) < TWO32
    ensures Or(h3 / 0x4_0000, h4 * 256 % TWO32) == h3 / 0x4_0000 + 256 * (h4 % 0x100_0000) < TWO32
  {
    hide Or, Pow2;
    LimbPowers();
    ShiftPowers();
    PackWord(h0, h1, 26, W, 64);
    PackWord(h1 / 64, h2, 20, 0x10_0000, 4096);
    PackWord(h2 / 4096, h3, 14, 0x4000, 0x4_0000);
    PackWord(h3 / 0x4_0000, h4, 8, 256, 0x100_0000);
  }

  /** Four 32-bit words from five digits: the low 128 bits. */
  function PackWords(h0: nat, h1: nat, h2: nat, h3: nat, h4: nat): (w: seq<Uint32>)
    requires h0 < W && h1 < W && h2 < W && h3 < W && h4 < W
    ensures |w| == 4
    ensures Words(w[0], w[1], w[2], w[3]) == Horner(h0, h1, h2, h3, h4) % TWO128
  {
    hide Or, Horner, Words;
    PackedWords(h0, h1, h2, h3, h4);
    PackedValue(h0, h1, h2, h3, h4);
    [Or(h0, h1 * W % TWO32), Or(h1 / 64, h2 * 0x10_0000 % TWO32),
     Or(h2 / 4096, h3 * 0x4000 % TWO32), Or(h3 / 0x4_0000, h4 * 256 % TWO32)]
  }

  function Words(w0: int, w1: int, w2: int, w3: int): int {
    w0 + TWO32 * (w1 + TWO32 * (w2 + TWO32 * w3))
  }

  lemma ShiftPowers()
    ensures Pow2(20) == 0x10_0000 && Pow2(14) == 0x4000
  {
    hide Pow2;
    Powers();
    Pow2Add(12, 8);
    Pow2Add(12, 2);
  }

  lemma PackedValue(h0: nat, h1: nat, h2: nat, h3: nat, h4: nat)
    requires h0 < W && h1 < W && h2 < W && h3 < W && h4 < W
    ensures Words(h0 + W * (h1 % 64), h1 / 64 + 0x10_0000 * (h2 % 4096),
              h2 / 4096 + 0x4000 * (h3 % 0x4_0000), h3 / 0x4_0000 + 256 * (h4 % 0x100_0000))
         == Horner(h0, h1, h2, h3, h4) % TWO128
  {
    var w := Words(h0 + W * (h1 % 64), h1 / 64 + 0x10_0000 * (h2 % 4096),
      h2 / 4096 + 0x4000 * (h3 % 0x4_0000), h3 / 0x4_0000 + 256 * (h4 % 0x100_0000));
    QuotientUnique(Horner(h0, h1, h2, h3, h4), TWO128, h4 / 0x100_0000, w);
  }

  /** The four words of the key added with carries, and stored. */
  method AddKey(w: seq<Uint32>, key: seq<Byte>) returns (mac: seq<Byte>)
    requires |w| == 4 && |key| == 32
    ensures mac == ToLe((Words(w[0], w[1], w[2], w[3]) + FromLe(key[16..])) % TWO128, 16)
  {
    hide Word, FromLe, ToLe;
    var w0: int, w1: int, w2: int, w3: int := w[0], w[1], w[2], w[3];
    var f0: Uint64 := w0 + Word(key, 16);
    var f1: Uint64 := w1 + Word(key, 20) + f0 / TWO32;
    var f2: Uint64 := w2 + Word(key, 24) + f1 / TWO32;
    var f3: Uint64 := w3 + Word(key, 28) + f2 / TWO32;
    mac := ToLe(f0 % TWO32, 4) + ToLe(f1 % TWO32, 4) + ToLe(f2 % TWO32, 4) + ToLe(f3 % TWO32, 4);
    KeyWords(key);
    FourWords(f0 % TWO32, f1 % TWO32, f2 % TWO32, f3 % TWO32);
    AddedValue(w0, w1, w2, w3, Word(key, 16), Word(key, 20), Word(key, 24), Word(key, 28), f0, f1, f2, f3);
  }

  lemma KeyWords(key: seq<Byte>)
    requires |key| == 32
    ensures FromLe(key[16..]) == Words(Word(key, 16), Word(key, 20), Word(key, 24), Word(key, 28))
  {
    hide FromLe, Word;
    WordFirst(key, 16);
    WordFirst(key, 20);
    WordFirst(key, 24);
    WordFirst(key, 28);
    NoBytes();
    assert key[32..] == [];
  }

  lemma FourWords(a: nat, b: nat, c: nat, d: nat)
    requires a < TWO32 && b < TWO32 && c < TWO32 && d < TWO32
    ensures ToLe(Words(a, b, c, d), 16) == ToLe(a, 4) + ToLe(b, 4) + ToLe(c, 4) + ToLe(d, 4)
  {
    hide ToLe, Pow2;
    var cd := c + TWO32 * d;
    var bcd := b + TWO32 * cd;
    WordInFront(c, d, 4);
    WordInFront(b, cd, 8);
    WordInFront(a, bcd, 12);
    FourParts(ToLe(a, 4), ToLe(b, 4), ToLe(c, 4), ToLe(d, 4));
  }

  lemma WordInFront(a: nat, rest: nat, n: nat)
    requires a < TWO32
    ensures ToLe(a + TWO32 * rest, n + 4) == ToLe(a, 4) + ToLe(rest, n)
  {
    hide ToLe, Pow2;
    LimbPowers();
    Pow2Add(24, 8);
    ToLeJoin(a, 4, rest, n);
  }

  lemma FourParts(a: seq<Byte>, b: seq<Byte>, c: seq<Byte>, d: seq<Byte>)
    ensures a + b + c + d == a + (b + (c + d))
  {}

  lemma AddedValue(w0: int, w1: int, w2: int, w3: int, k0: int, k1: int, k2: int, k3: int,
                   f0: int, f1: int, f2: int, f3: int)
    requires f0 == w0 + k0 && f1 == w1 + k1 + f0 / TWO32 && f2 == w2 + k2 + f1 / TWO32
    requires f3 == w3 + k3 + f2 / TWO32
    ensures Words(f0 % TWO32, f1 % TWO32, f2 % TWO32, f3 % TWO32)
         == (Words(w0, w1, w2, w3) + Words(k0, k1, k2, k3)) % TWO128
  {
    QuotientUnique(Words(w0, w1, w2, w3) + Words(k0, k1, k2, k3), TWO128, f3 / TWO32,
      Words(f0 % TWO32, f1 % TWO32, f2 % TWO32, f3 % TWO32));
  }

  class State {
    var r: Limbs
    var s: seq<Uint32>
    var h: Limbs
    var key: seq<Byte>

    /** Between blocks: the limbs of h are digits, except that limb 1 may be a little
        larger. */
    ghost predicate Valid()
      reads this
    {
      && |key| == 32 && |s| == 4
      && (forall i :: 0 <= i < 5 ==> r[i] < W)
      && (forall i :: 0 <= i < 4 ==> var x: int := r[i + 1]; s[i] == x * 5)
      && Digits(h)
      && Number(r) == ClampedR(key)
    }

    /** The accumulator as a residue. */
    ghost function Acc(): int
      reads this
    {
      Number(h) % P
    }

    /** poly1305_setup. */
    constructor (k: seq<Byte>)
      requires |k| == 32
      ensures Valid() && key == k && Acc() == 0
    {
      r := KeyLimbs(k);
      h := [0, 0, 0, 0, 0];
      key := k;
      new;
      hide KeyLimbs, ClampedR, Number;
      s := [r[1] * 5, r[2] * 5, r[3] * 5, r[4] * 5];
      ZeroNumber();
    }

    /** poly1305_block16: a := (a + block + 2^128) * r, with every word in its type. */
    method Block16(block: seq<Byte>)
      requires Valid() && |block| == 16
      modifies `h
      ensures Valid()
      ensures Acc() == (old(Acc()) + FromLe(block) + TWO128) * ClampedR(key) % P
    {
      hide Number, BlockLimbs, FromLe, ClampedR;
      var b := BlockLimbs(block);
      var sum: Limbs := AddLimbs(h, b);
      h := MulReduce(sum, r, s);
      ghost var a, y, m := Number(old(h)), FromLe(block) + TWO128, ClampedR(key);
      MultipleOut(P, a / P, a % P, y, m);
      SameResidue((a + y) * m, (a % P + y) * m, a / P * m);
    }

    /** poly1305_done: the tag is a + s modulo 2^128. */
    method Done() returns (mac: seq<Byte>)
      requires Valid()
      modifies `h
      ensures mac == ToLe((old(Acc()) + FromLe(key[16..])) % TWO128, 16)
    {
      hide Number, Horner, FromLe, ToLe, PackWords;
      h := FinalCarry(h);
      h := ReduceOnce(h);
      NumberOf(h);
      var w := PackWords(h[0], h[1], h[2], h[3], h[4]);
      mac := AddKey(w, key);
      SumModulo(Number(h), FromLe(key[16..]));
    }
  }

  lemma SumModulo(x: int, y: int)
    ensures (x % TWO128 + y) % TWO128 == (x + y) % TWO128
  {}

  lemma ZeroNumber()
    ensures Number([0, 0, 0, 0, 0]) == 0
  {}

  // ----- the AEAD tag ---------------------------------------------------------------------------

  /** Full blocks accumulate one after the other. */
  lemma {:induction false} AccumulateAppend(a: nat, r: nat, s: seq<Byte>, t: seq<Byte>, k: nat)
    requires |s| == 16 * k
    ensures Accumulate(a, r, s + t) == Accumulate(Accumulate(a, r, s), r, t)
    decreases k
  {
    hide FromLe, Pow2;
    if k == 0 {
      assert s + t == t;
    } else {
      assert (s + t)[..16] == s[..16] && (s + t)[16..] == s[16..] + t;
      AccumulateAppend((a + FromLe(s[..16]) + Pow2(8 * 16)) * r % P, r, s[16..], t, k - 1);
    }
  }

  lemma AccumulateBlock(a: nat, r: nat, b: seq<Byte>)
    requires |b| == 16
    ensures Accumulate(a, r, b) == (a + FromLe(b) + TWO128) * r % P
  {
    hide FromLe, Pow2;
    LimbPowers();
    assert b[..16] == b && b[16..] == [];
    assert Accumulate((a + FromLe(b) + TWO128) * r % P, r, []) == (a + FromLe(b) + TWO128) * r % P;
  }

  /** Every full block of x, then the rest padded with zeros. */
  method Absorb(st: State, x: seq<Byte>, ghost done: seq<Byte>, ghost n: nat)
    requires st.Valid() && |done| == 16 * n
    requires st.Acc() == Accumulate(0, ClampedR(st.key), done)
    modifies st`h
    ensures st.Valid()
    ensures st.Acc() == Accumulate(0, ClampedR(st.key), done + x + Pad16(x))
  {
    hide FromLe, Accumulate, ClampedR, Digits;
    var i := 0;
    ghost var k := 0;
    ghost var r := ClampedR(st.key);
    assert done + x[..0] == done;
    while i + 16 <= |x|
      invariant i == 16 * k <= |x| && st.Valid()
      invariant st.Acc() == Accumulate(0, r, done + x[..i])
    {
      st.Block16(x[i..i + 16]);
      OneMore(r, done + x[..i], x[i..i + 16], n + k);
      assert done + x[..i + 16] == done + x[..i] + x[i..i + 16];
      i := i + 16;
      k := k + 1;
    }
    if i < |x| {
      var b := x[i..] + seq(16 - (|x| - i), j => 0);
      st.Block16(b);
      OneMore(r, done + x[..i], b, n + k);
      assert |Pad16(x)| == 16 - (|x| - i) by { PadLength(|x|, k); }
      assert done + x + Pad16(x) == done + x[..i] + b;
    } else {
      assert Pad16(x) == [] by { PadLength(|x|, k); }
      assert done + x + Pad16(x) == done + x[..i];
    }
  }

  lemma PadLength(n: int, k: nat)
    requires 16 * k <= n < 16 * k + 16
    ensures -n % 16 == if n == 16 * k then 0 else 16 * k + 16 - n
  {}

  lemma OneMore(r: nat, s: seq<Byte>, b: seq<Byte>, k: nat)
    requires |s| == 16 * k && |b| == 16
    ensures Accumulate(0, r, s + b) == (Accumulate(0, r, s) + FromLe(b) + TWO128) * r % P
  {
    hide FromLe, Accumulate;
    AccumulateAppend(0, r, s, b, k);
    AccumulateBlock(Accumulate(0, r, s), r, b);
  }

  /** poly1305_aead_tag, for every additional data and ciphertext. The lengths are
      stored as 32-bit words. */
  method AeadTag(polyKey: seq<Byte>, aad: seq<Byte>, ct: seq<Byte>) returns (tag: seq<Byte>)
    requires |polyKey| == 32
    ensures tag == Mac(polyKey, MacData(aad, ct, |aad| % TWO32, |ct| % TWO32))
  {
    hide FromLe, ToLe, Accumulate, ClampedR, Digits, Number, Pad16, MacData, State.Valid, State.Acc;
    var st := new State(polyKey);
    ghost var r := ClampedR(polyKey);
    AbsorbBoth(st, aad, ct);
    ghost var two := [] + aad + Pad16(aad) + ct + Pad16(ct);
    var lb := ToLe(|aad| % TWO32, 4) + ToLe(0, 4) + ToLe(|ct| % TWO32, 4) + ToLe(0, 4);
    st.Block16(lb);
    OneMore(r, two, lb, |two| / 16);
    MacDataIs(aad, ct, |aad| % TWO32, |ct| % TWO32);
    tag := st.Done();
  }

  /** The additional data, then the ciphertext. */
  method AbsorbBoth(st: State, aad: seq<Byte>, ct: seq<Byte>)
    requires st.Valid() && st.Acc() == 0
    modifies st`h
    ensures st.Valid()
    ensures st.Acc() == Accumulate(0, ClampedR(st.key), [] + aad + Pad16(aad) + ct + Pad16(ct))
  {
    hide Accumulate, ClampedR, Digits, Number;
    NoMessage(ClampedR(st.key));
    Absorb(st, aad, [], 0);
    ghost var one := [] + aad + Pad16(aad);
    Absorb(st, ct, one, |one| / 16);
  }

  lemma MacDataIs(aad: seq<Byte>, ct: seq<Byte>, a: nat, c: nat)
    requires a < TWO32 && c < TWO32
    ensures [] + aad + Pad16(aad) + ct + Pad16(ct) + (ToLe(a, 4) + ToLe(0, 4) + ToLe(c, 4) + ToLe(0, 4))
         == MacData(aad, ct, a, c)
  {
    hide ToLe, Pad16;
    LengthBlock(a, c);
    assert [] + aad == aad;
    var x := aad + Pad16(aad) + ct + Pad16(ct);
    assert x + (ToLe(a, 8) + ToLe(c, 8)) == x + ToLe(a, 8) + ToLe(c, 8);
  }

  lemma NoMessage(r: nat)
    ensures Accumulate(0, r, []) == 0
  {}

  lemma LengthBlock(a: nat, c: nat)
    requires a < TWO32 && c < TWO32
    ensures ToLe(a, 4) + ToLe(0, 4) + ToLe(c, 4) + ToLe(0, 4) == ToLe(a, 8) + ToLe(c, 8)
  {
    hide ToLe, Pow2;
    LimbPowers();
    Pow2Add(24, 8);
    ToLeJoin(a, 4, 0, 4);
    ToLeJoin(c, 4, 0, 4);
  }

  /** The authenticated data is that of RFC 8439 exactly when both lengths fit in 32
      bits; a 64-bit size is not stored in full. */
  lemma LengthsFit(aad: seq<Byte>, ct: seq<Byte>)
    requires |aad| < TWO64 && |ct| < TWO64
    ensures MacData(aad, ct, |aad| % TWO32, |ct| % TWO32) == MacData(aad, ct, |aad|, |ct|)
      <==> |aad| < TWO32 && |ct| < TWO32
  {
    hide ToLe, FromLe, Pow2, Pad16;
    var x := aad + Pad16(aad) + ct + Pad16(ct);
    var p, q := MacData(aad, ct, |aad| % TWO32, |ct| % TWO32), MacData(aad, ct, |aad|, |ct|);
    var n := |x|;
    assert p[n..n + 8] == ToLe(|aad| % TWO32, 8) && p[n + 8..] == ToLe(|ct| % TWO32, 8);
    assert q[n..n + 8] == ToLe(|aad|, 8) && q[n + 8..] == ToLe(|ct|, 8);
    LimbPowers();
    Pow2Add(24, 24);
    Pow2Add(48, 8);
    Pow2Add(56, 8);
    FromToLe(|aad|, 8);
    FromToLe(|ct|, 8);
    FromToLe(|aad| % TWO32, 8);
    FromToLe(|ct| % TWO32, 8);
  }
}
