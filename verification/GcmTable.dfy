/** GHASH by Shoup's 4-bit tables. */
module GcmTable {
  import opened Gf128

  function MulX4(v: Word): (w: Word)
    requires |v| == 128
    ensures |w| == 128
  {
    MulX(MulX(MulX(MulX(v))))
  }

  /** The number of a nibble. */
  function Index(b: Word): (n: nat)
    requires |b| == 4
    ensures n < 16
  {
    (if b[0] then 8 else 0) + (if b[1] then 4 else 0) + (if b[2] then 2 else 0) + (if b[3] then 1 else 0)
  }

  /** The sum of the chosen ones among four words. */
  function Chosen(c0: bool, v0: Word, c1: bool, v1: Word, c2: bool, v2: Word, c3: bool, v3: Word): (w: Word)
    requires |v0| == |v1| == |v2| == |v3|
    ensures |w| == |v0|
  {
    Xor(Xor(Pick(c0, v0), Pick(c1, v1)), Xor(Pick(c2, v2), Pick(c3, v3)))
  }

  /** The multiple of v by the four bits of n, x^0 first. */
  function Multiple(n: nat, v: Word): (w: Word)
    requires |v| == 128
    ensures |w| == 128
  {
    Chosen(n / 8 % 2 == 1, v, n / 4 % 2 == 1, MulX(v), n / 2 % 2 == 1, MulX(MulX(v)), n % 2 == 1, MulX(MulX(MulX(v))))
  }

  // ----- one nibble of the product ----------------------------------------------------------

  lemma ProductCons(b: bool, x: Word, v: Word)
    requires |v| == 128
    ensures Product([b] + x, v) == Xor(Pick(b, v), Product(x, MulX(v)))
  {
    hide MulX, Xor, Pick;
    assert ([b] + x)[1..] == x;
  }

  lemma XorFive(a: Word, b: Word, c: Word, d: Word, e: Word)
    requires |a| == |b| == |c| == |d| == |e|
    ensures Xor(a, Xor(b, Xor(c, Xor(d, e)))) == Xor(e, Xor(Xor(a, b), Xor(c, d)))
  {}

  lemma ProductMulX4(x: Word, v: Word)
    requires |v| == 128
    ensures Product(x, MulX4(v)) == MulX4(Product(x, v))
  {
    hide MulX, Product;
    ProductMulX(x, v);
    ProductMulX(x, MulX(v));
    ProductMulX(x, MulX(MulX(v)));
    ProductMulX(x, MulX(MulX(MulX(v))));
  }

  lemma FourBits(b: Word, x: Word, v: Word)
    requires |b| == 4 && |v| == 128
    ensures Product(b + x, v) == Xor(Pick(b[0], v), Xor(Pick(b[1], MulX(v)), Xor(Pick(b[2], MulX(MulX(v))),
              Xor(Pick(b[3], MulX(MulX(MulX(v)))), Product(x, MulX4(v))))))
  {
    hide MulX, Xor, Pick, Product;
    var x3 := [b[3]] + x;
    var x2 := [b[2]] + x3;
    var x1 := [b[1]] + x2;
    assert b + x == [b[0]] + x1;
    ProductCons(b[3], x, MulX(MulX(MulX(v))));
    ProductCons(b[2], x3, MulX(MulX(v)));
    ProductCons(b[1], x2, MulX(v));
    ProductCons(b[0], x1, v);
  }

  lemma BitsOfIndex(b: Word)
    requires |b| == 4
    ensures b[0] == (Index(b) / 8 % 2 == 1) && b[1] == (Index(b) / 4 % 2 == 1)
    ensures b[2] == (Index(b) / 2 % 2 == 1) && b[3] == (Index(b) % 2 == 1)
  {}

  /** Horner's rule on nibbles. */
  lemma ProductNibble(b: Word, x: Word, v: Word)
    requires |b| == 4 && |v| == 128
    ensures Product(b + x, v) == Xor(MulX4(Product(x, v)), Multiple(Index(b), v))
  {
    hide MulX, MulX4, Xor, Pick, Product, Index;
    ProductMulX4(x, v);
    FourBits(b, x, v);
    BitsOfIndex(b);
    assert Multiple(Index(b), v) == Xor(Xor(Pick(b[0], v), Pick(b[1], MulX(v))),
      Xor(Pick(b[2], MulX(MulX(v))), Pick(b[3], MulX(MulX(MulX(v))))));
    XorFive(Pick(b[0], v), Pick(b[1], MulX(v)), Pick(b[2], MulX(MulX(v))), Pick(b[3], MulX(MulX(MulX(v)))),
      Product(x, MulX4(v)));
  }

  // ----- the shift by four bits ---------------------------------------------------------------

  /** gcm_last4. */
  function Last4(rem: nat): nat
    requires rem < 16
  {
    if rem < 8 then
      if rem < 4 then
        if rem == 0 then 0x0000 else if rem == 1 then 0x1c20 else if rem == 2 then 0x3840 else 0x2460
      else
        if rem == 4 then 0x7080 else if rem == 5 then 0x6ca0 else if rem == 6 then 0x48c0 else 0x54e0
    else
      if rem < 12 then
        if rem == 8 then 0xe100 else if rem == 9 then 0xfd20 else if rem == 10 then 0xd940 else 0xc560
      else
        if rem == 12 then 0x9180 else if rem == 13 then 0x8da0 else if rem == 14 then 0xa9c0 else 0xb5e0
  }

  /** Bit 15 - p of n. */
  predicate Bit16(n: nat, p: nat) {
    if p < 8 then
      if p < 4 then
        if p == 0 then n / 32768 % 2 == 1 else if p == 1 then n / 16384 % 2 == 1
        else if p == 2 then n / 8192 % 2 == 1 else n / 4096 % 2 == 1
      else
        if p == 4 then n / 2048 % 2 == 1 else if p == 5 then n / 1024 % 2 == 1
        else if p == 6 then n / 512 % 2 == 1 else n / 256 % 2 == 1
    else
      if p < 12 then
        if p == 8 then n / 128 % 2 == 1 else if p == 9 then n / 64 % 2 == 1
        else if p == 10 then n / 32 % 2 == 1 else n / 16 % 2 == 1
      else
        if p == 12 then n / 8 % 2 == 1 else if p == 13 then n / 4 % 2 == 1
        else if p == 14 then n / 2 % 2 == 1 else n % 2 == 1
  }

  /** The low 16 bits of n. */
  function Word16(n: nat): (w: Word)
    ensures |w| == 16 && forall p :: 0 <= p < 16 ==> w[p] == Bit16(n, p)
  {
    seq(16, p requires 0 <= p < 16 => Bit16(n, p))
  }

  /** What the four bits that fall out add at position p. */
  predicate Fallen(b: Word, p: int)
    requires |b| == 4
  {
    ((b[0] && InR(p)) != (b[1] && InR(p - 1))) != ((b[2] && InR(p - 2)) != (b[3] && InR(p - 3)))
  }

  lemma Last4LowRows(b1: bool, b2: bool, b3: bool, p: nat)
    requires p < 16
    ensures Bit16(Last4(Index([false, b1, b2, b3])), p) == Fallen([false, b1, b2, b3], p)
  {}

  lemma Last4HighRows(b1: bool, b2: bool, b3: bool, p: nat)
    requires p < 16
    ensures Bit16(Last4(Index([true, b1, b2, b3])), p) == Fallen([true, b1, b2, b3], p)
  {}

  /** The table of remainders holds what falls out of four shifts. */
  lemma Last4Bits(b: Word, p: nat)
    requires |b| == 4 && p < 16
    ensures Word16(Last4(Index(b)))[p] == Fallen(b, p)
  {
    hide Bit16, Last4, Index, Fallen;
    assert b == [b[0], b[1], b[2], b[3]];
    if b[0] {
      Last4HighRows(b[1], b[2], b[3], p);
    } else {
      Last4LowRows(b[1], b[2], b[3], p);
    }
  }

  lemma MulXBit(v: Word, p: int)
    requires |v| == 128 && p < 128
    ensures p > 0 ==> MulX(v)[p] == (v[p - 1] != (v[127] && InR(p)))
    ensures p == 0 ==> MulX(v)[p] == v[127]
    ensures p < 0 ==> !InR(p)
  {}

  lemma MulX4Bits(v: Word, p: nat)
    requires |v| == 128 && p < 128
    ensures MulX4(v)[p] == ((p >= 4 && v[p - 4]) != Fallen(v[124..], p))
  {
    hide MulX;
    var a := MulX(v);
    var b := MulX(a);
    var c := MulX(b);
    MulXBit(v, 127);
    MulXBit(v, 126);
    MulXBit(v, 125);
    MulXBit(a, 127);
    MulXBit(a, 126);
    MulXBit(b, 127);
    MulXBit(c, p);
    MulXBit(b, p - 1);
    MulXBit(a, p - 2);
    MulXBit(v, p - 3);
  }

  /** The step of gcm_mul that makes room for a nibble. */
  function Shift4High(zh: Word, zl: Word): (w: Word)
    requires |zh| == |zl| == 64
    ensures |w| == 64
  {
    Xor(Shr(zh, 4), Word16(Last4(Index(zl[60..]))) + Zero(48))
  }

  function Shift4Low(zh: Word, zl: Word): (w: Word)
    requires |zh| == |zl| == 64
    ensures |w| == 64
  {
    Or(Shl(zh, 60), Shr(zl, 4))
  }

  lemma Shift4IsMulX4(zh: Word, zl: Word)
    requires |zh| == |zl| == 64
    ensures Shift4High(zh, zl) + Shift4Low(zh, zl) == MulX4(zh + zl)
  {
    hide MulX4, Last4, Index, Word16, Fallen;
    var z := zh + zl;
    assert z[124..] == zl[60..];
    forall p | 0 <= p < 128 ensures (Shift4High(zh, zl) + Shift4Low(zh, zl))[p] == MulX4(z)[p] {
      MulX4Bits(z, p);
      if p < 16 {
        Last4Bits(zl[60..], p);
      } else {
        NothingFallen(zl[60..], p);
      }
    }
  }

  lemma NothingFallen(b: Word, p: int)
    requires |b| == 4 && p >= 16
    ensures !Fallen(b, p)
  {}

  // ----- the table -------------------------------------------------------------------------

  /** The constant 0xe1 at the top of a 64-bit word. */
  function E1(): (w: Word)
    ensures |w| == 64 && forall p :: 0 <= p < 64 ==> w[p] == InR(p)
  {
    seq(64, p => InR(p))
  }

  /** One halving of gcm_table_init on the two words of a field element. */
  lemma HalfStep(hi: Word, lo: Word)
    requires |hi| == |lo| == 64
    ensures Xor(Shr(hi, 1), Pick(lo[63], E1())) + Or(Shl(hi, 63), Shr(lo, 1)) == MulX(hi + lo)
  {
    hide MulX, Xor, Shr, Or, Shl, E1;
    var w := Xor(Shr(hi, 1), Pick(lo[63], E1())) + Or(Shl(hi, 63), Shr(lo, 1));
    forall p | 0 <= p < 128 ensures w[p] == MulX(hi + lo)[p] {
      MulXBit(hi + lo, p);
    }
  }

  lemma XorJoin(a: Word, b: Word, c: Word, d: Word)
    requires |a| == |c| && |b| == |d|
    ensures Xor(a, c) + Xor(b, d) == Xor(a + b, c + d)
  {}

  lemma ChosenAdds(a0: bool, b0: bool, v0: Word, a1: bool, b1: bool, v1: Word,
                   a2: bool, b2: bool, v2: Word, a3: bool, b3: bool, v3: Word)
    requires |v0| == |v1| == |v2| == |v3| && !(a0 && b0) && !(a1 && b1) && !(a2 && b2) && !(a3 && b3)
    ensures Chosen(a0 || b0, v0, a1 || b1, v1, a2 || b2, v2, a3 || b3, v3)
         == Xor(Chosen(a0, v0, a1, v1, a2, v2, a3, v3), Chosen(b0, v0, b1, v1, b2, v2, b3, v3))
  {}

  lemma DisjointBits(i: nat, j: nat)
    requires (i == 2 || i == 4 || i == 8) && j < i
    ensures ((i + j) / 8 % 2 == 1) == (i / 8 % 2 == 1 || j / 8 % 2 == 1) && !(i / 8 % 2 == 1 && j / 8 % 2 == 1)
    ensures ((i + j) / 4 % 2 == 1) == (i / 4 % 2 == 1 || j / 4 % 2 == 1) && !(i / 4 % 2 == 1 && j / 4 % 2 == 1)
    ensures ((i + j) / 2 % 2 == 1) == (i / 2 % 2 == 1 || j / 2 % 2 == 1) && !(i / 2 % 2 == 1 && j / 2 % 2 == 1)
    ensures ((i + j) % 2 == 1) == (i % 2 == 1 || j % 2 == 1) && !(i % 2 == 1 && j % 2 == 1)
  {}

  /** The top bit of an index and the bits below it select disjoint powers. */
  lemma MultipleAdds(i: nat, j: nat, v: Word)
    requires |v| == 128 && (i == 2 || i == 4 || i == 8) && j < i
    ensures Multiple(i + j, v) == Xor(Multiple(i, v), Multiple(j, v))
  {
    hide MulX, Chosen;
    DisjointBits(i, j);
    ChosenAdds(i / 8 % 2 == 1, j / 8 % 2 == 1, v, i / 4 % 2 == 1, j / 4 % 2 == 1, MulX(v),
      i / 2 % 2 == 1, j / 2 % 2 == 1, MulX(MulX(v)), i % 2 == 1, j % 2 == 1, MulX(MulX(MulX(v))));
  }

  lemma ChosenOne(v0: Word, v1: Word, v2: Word, v3: Word)
    requires |v0| == |v1| == |v2| == |v3|
    ensures Chosen(false, v0, false, v1, false, v2, false, v3) == Zero(|v0|)
    ensures Chosen(true, v0, false, v1, false, v2, false, v3) == v0
    ensures Chosen(false, v0, true, v1, false, v2, false, v3) == v1
    ensures Chosen(false, v0, false, v1, true, v2, false, v3) == v2
    ensures Chosen(false, v0, false, v1, false, v2, true, v3) == v3
  {}

  lemma MultiplePowers(v: Word)
    requires |v| == 128
    ensures Multiple(0, v) == Zero(128) && Multiple(8, v) == v && Multiple(4, v) == MulX(v)
    ensures Multiple(2, v) == MulX(MulX(v)) && Multiple(1, v) == MulX(MulX(MulX(v)))
  {
    hide MulX, Chosen;
    ChosenOne(v, MulX(v), MulX(MulX(v)), MulX(MulX(MulX(v))));
  }

  /** gcm_be64 on eight bytes. */
  method Be64(p: seq<Word>) returns (r: Word)
    requires |p| == 8 && AreBytes(p)
    ensures r == Flatten(p)
  {
    r := Zero(64);
    for i := 0 to 8
      invariant r == Zero(64 - 8 * i) + Flatten(p[..i])
    {
      FlattenAppend(p[..i], [p[i]]);
      assert p[..i + 1] == p[..i] + [p[i]] && [p[i]][1..] == [];
      r := Or(Shl(r, 8), Zero(56) + p[i]);
    }
    assert p[..8] == p;
  }

  /** Two words hold entry n of the table for a key. */
  predicate Holds(hi: Word, lo: Word, n: nat, key: Word) {
    |key| == 128 && |hi| == |lo| == 64 && hi + lo == Multiple(n, key)
  }

  lemma HoldsSum(hi: Word, lo: Word, i: nat, hi': Word, lo': Word, j: nat, key: Word)
    requires Holds(hi, lo, i, key) && Holds(hi', lo', j, key) && (i == 2 || i == 4 || i == 8) && j < i
    ensures Holds(Xor(hi, hi'), Xor(lo, lo'), i + j, key)
  {
    hide Multiple, Xor;
    MultipleAdds(i, j, key);
    XorJoin(hi, lo, hi', lo');
  }

  lemma FlattenHalves(s: seq<Word>)
    requires |s| == 16 && AreBytes(s)
    ensures Flatten(s) == Flatten(s[..8]) + Flatten(s[8..])
  {
    FlattenAppend(s[..8], s[8..]);
    assert s[..8] + s[8..] == s;
  }

  /** gcm_table: for every nibble its multiple of the hash key, in two words. */
  class Table {
    var HH: array<Word>
    var HL: array<Word>
    var h: seq<Word>
    ghost var key: Word

    /** The key, kept as bytes for the carry-less path. */
    ghost predicate Keyed()
      reads this
    {
      |h| == 16 && AreBytes(h) && key == Flatten(h)
    }

    ghost predicate Entry(n: nat)
      requires HH.Length == HL.Length == 16 && n < 16
      reads this, HH, HL
    {
      Holds(HH[n], HL[n], n, key)
    }

    ghost predicate Valid()
      reads this, HH, HL
    {
      && HH.Length == HL.Length == 16 && HH != HL && |key| == 128 && Keyed()
      && forall n :: 0 <= n < 16 ==> Entry(n)
    }

    /** gcm_table_init. */
    constructor (bytes: seq<Word>)
      requires |bytes| == 16 && AreBytes(bytes)
      ensures Valid() && h == bytes && key == Flatten(bytes)
      ensures fresh(HH) && fresh(HL)
    {
      HH := new Word[16](i => []);
      HL := new Word[16](i => []);
      h := bytes;
      key := Flatten(bytes);
      new;
      Fill();
    }

    method Fill()
      requires HH.Length == HL.Length == 16 && HH != HL && Keyed()
      modifies HH, HL
      ensures Valid()
    {
      hide Multiple, MulX, Valid, Flatten, Holds, Zero;
      var hi := Be64(h[..8]);
      var lo := Be64(h[8..]);
      FlattenHalves(h);
      FillPowers(hi, lo);
      FillSums();
    }

    /** The entries of one bit: the key halved again and again. */
    method FillPowers(hi_: Word, lo_: Word)
      requires HH.Length == HL.Length == 16 && HH != HL
      requires |hi_| == |lo_| == 64 && key == hi_ + lo_
      modifies HH, HL
      ensures Entry(0) && Entry(8) && Entry(4) && Entry(2) && Entry(1)
    {
      hide Multiple, MulX, Xor, Shr, Or, Shl;
      var hi, lo := hi_, lo_;
      MultiplePowers(key);
      HH[0], HL[0] := Zero(64), Zero(64);
      assert Zero(64) + Zero(64) == Zero(128);
      HH[8], HL[8] := hi, lo;
      var i := 4;
      while i > 0
        invariant i == 4 || i == 2 || i == 1 || i == 0
        invariant |hi| == |lo| == 64
        invariant hi + lo == if i == 4 then key else if i == 2 then MulX(key) else if i == 1 then MulX(MulX(key))
                             else MulX(MulX(MulX(key)))
        invariant Entry(0) && Entry(8) && (i < 4 ==> Entry(4)) && (i < 2 ==> Entry(2)) && (i < 1 ==> Entry(1))
        decreases i
      {
        HalfStep(hi, lo);
        var t := Pick(lo[63], E1());
        lo, hi := Or(Shl(hi, 63), Shr(lo, 1)), Xor(Shr(hi, 1), t);
        HL[i], HH[i] := lo, hi;
        i := i / 2;
      }
    }

    method SetSum(i: nat, j: nat)
      requires HH.Length == HL.Length == 16 && HH != HL && i + j < 16 && j < i
      requires |HH[i]| == |HH[j]| && |HL[i]| == |HL[j]|
      modifies HH, HL
      ensures HH[..] == old(HH[..])[i + j := Xor(old(HH[i]), old(HH[j]))]
      ensures HL[..] == old(HL[..])[i + j := Xor(old(HL[i]), old(HL[j]))]
    {
      hide Xor;
      HH[i + j], HL[i + j] := Xor(HH[i], HH[j]), Xor(HL[i], HL[j]);
    }

    /** Entry i + j is the sum of entries i and j. */
    method AddSum(i: nat, j: nat)
      requires HH.Length == HL.Length == 16 && HH != HL && (i == 2 || i == 4 || i == 8) && 1 <= j < i
      requires Filled(HH[..], HL[..], i + j, key) && PowersHold(HH[..], HL[..], key)
      modifies HH, HL
      ensures Filled(HH[..], HL[..], i + j + 1, key) && PowersHold(HH[..], HL[..], key)
    {
      hide Holds, Xor, Filled, PowersHold;
      ghost var hh, hl := HH[..], HL[..];
      FilledAt(hh, hl, i + j, j, key);
      PowerAt(hh, hl, i, key);
      HoldsSum(HH[i], HL[i], i, HH[j], HL[j], j, key);
      WordsOf(HH[i], HL[i], i, key);
      WordsOf(HH[j], HL[j], j, key);
      SetSum(i, j);
      SumAdded(hh, hl, HH[..], HL[..], i, j, key);
    }

    /** The other entries are sums. */
    method FillSums()
      requires HH.Length == HL.Length == 16 && HH != HL && |key| == 128 && Keyed()
      requires Entry(0) && Entry(8) && Entry(4) && Entry(2) && Entry(1)
      modifies HH, HL
      ensures Valid()
    {
      hide Holds, Keyed, Filled, PowersHold;
      FilledFirst(HH[..], HL[..], key);
      var i := 2;
      while i <= 8
        invariant i == 2 || i == 4 || i == 8 || i == 16
        invariant Filled(HH[..], HL[..], i, key) && PowersHold(HH[..], HL[..], key)
        decreases 16 - i
      {
        var j := 1;
        PowerNext(HH[..], HL[..], i, key);
        while j < i
          invariant 1 <= j <= i
          invariant Filled(HH[..], HL[..], i + j, key) && PowersHold(HH[..], HL[..], key)
        {
          AddSum(i, j);
          j := j + 1;
        }
        i := i * 2;
      }
      FilledAll(HH[..], HL[..], key);
    }
  }

  /** The first n entries are in place. */
  predicate Filled(hh: seq<Word>, hl: seq<Word>, n: nat, key: Word) {
    n <= |hh| == |hl| == 16 && forall m :: 0 <= m < n ==> Holds(hh[m], hl[m], m, key)
  }

  /** The entries of one bit are in place. */
  predicate PowersHold(hh: seq<Word>, hl: seq<Word>, key: Word) {
    && |hh| == |hl| == 16
    && Holds(hh[2], hl[2], 2, key) && Holds(hh[4], hl[4], 4, key) && Holds(hh[8], hl[8], 8, key)
  }

  lemma FilledFirst(hh: seq<Word>, hl: seq<Word>, key: Word)
    requires |hh| == |hl| == 16 && Holds(hh[0], hl[0], 0, key) && Holds(hh[1], hl[1], 1, key)
    requires Holds(hh[2], hl[2], 2, key) && Holds(hh[4], hl[4], 4, key) && Holds(hh[8], hl[8], 8, key)
    ensures Filled(hh, hl, 2, key) && PowersHold(hh, hl, key)
  {
    hide Holds;
  }

  lemma FilledAt(hh: seq<Word>, hl: seq<Word>, n: nat, m: nat, key: Word)
    requires Filled(hh, hl, n, key) && m < n
    ensures |hh| == |hl| == 16 && n <= 16 && Holds(hh[m], hl[m], m, key)
  {
    hide Holds;
  }

  lemma PowerAt(hh: seq<Word>, hl: seq<Word>, i: nat, key: Word)
    requires PowersHold(hh, hl, key) && (i == 2 || i == 4 || i == 8)
    ensures |hh| == |hl| == 16 && Holds(hh[i], hl[i], i, key)
  {
    hide Holds;
  }

  lemma PowerNext(hh: seq<Word>, hl: seq<Word>, i: nat, key: Word)
    requires Filled(hh, hl, i, key) && PowersHold(hh, hl, key) && (i == 2 || i == 4 || i == 8)
    ensures Filled(hh, hl, i + 1, key)
  {
    hide Holds;
  }

  lemma SumAdded(hh: seq<Word>, hl: seq<Word>, hh': seq<Word>, hl': seq<Word>, i: nat, j: nat, key: Word)
    requires Filled(hh, hl, i + j, key) && PowersHold(hh, hl, key)
    requires (i == 2 || i == 4 || i == 8) && 1 <= j < i && |hh'| == |hl'| == 16
    requires hh' == hh[i + j := hh'[i + j]] && hl' == hl[i + j := hl'[i + j]]
    requires Holds(hh'[i + j], hl'[i + j], i + j, key)
    ensures Filled(hh', hl', i + j + 1, key) && PowersHold(hh', hl', key)
  {
    hide Holds;
  }

  lemma FilledAll(hh: seq<Word>, hl: seq<Word>, key: Word)
    requires Filled(hh, hl, 16, key)
    ensures forall n :: 0 <= n < 16 ==> Holds(hh[n], hl[n], n, key)
  {
    hide Holds;
  }

  // ----- multiplication ---------------------------------------------------------------------

  /** One nibble of gcm_mul: shift, then add the table entry. */
  method Step(t: Table, zh: Word, zl: Word, b: Word, ghost x: Word) returns (zh1: Word, zl1: Word)
    requires t.Valid() && |zh| == |zl| == 64 && |b| == 4
    requires zh + zl == Product(x, t.key)
    ensures |zh1| == |zl1| == 64 && zh1 + zl1 == Product(b + x, t.key)
  {
    hide Product, Multiple, MulX4, Xor, Shift4High, Shift4Low, Index;
    zh1, zl1 := Shift4High(zh, zl), Shift4Low(zh, zl);
    Shift4IsMulX4(zh, zl);
    var n := Index(b);
    assert t.Entry(n);
    XorJoin(zh1, zl1, t.HH[n], t.HL[n]);
    ProductNibble(b, x, t.key);
    zh1, zl1 := Xor(zh1, t.HH[n]), Xor(zl1, t.HL[n]);
  }

  lemma FirstNibble(b: Word, v: Word)
    requires |b| == 4 && |v| == 128
    ensures Product(b, v) == Multiple(Index(b), v)
  {
    hide MulX, Multiple, Index, Xor;
    assert b + [] == b;
    ProductNibble(b, [], v);
    MulXPick(false, v);
    XorLaws(Zero(128), Multiple(Index(b), v));
  }

  /** The words of gcm_mul after all nibbles of x: the product with the key. */
  method Accumulate(t: Table, x: seq<Word>) returns (zh: Word, zl: Word)
    requires t.Valid() && |x| == 16 && AreBytes(x)
    ensures |zh| == |zl| == 64 && zh + zl == Product(Flatten(x), t.key)
  {
    hide Product, Multiple, MulX4, Xor, Index;
    var lo := x[15][4..];
    assert t.Entry(Index(lo));
    FirstNibble(lo, t.key);
    zh, zl := t.HH[Index(lo)], t.HL[Index(lo)];
    var i := 15;
    while i >= 0
      invariant -1 <= i <= 15 && |zh| == |zl| == 64
      invariant zh + zl == Product(if i == 15 then x[15][4..] else Flatten(x[i + 1..]), t.key)
    {
      lo := x[i][4..];
      var hi := x[i][..4];
      if i != 15 {
        zh, zl := Step(t, zh, zl, lo, Flatten(x[i + 1..]));
      }
      ghost var rest := Flatten(x[i + 1..]);
      assert x[i..][1..] == x[i + 1..];
      assert Flatten(x[i..]) == hi + (lo + rest);
      assert i == 15 ==> lo + rest == lo;
      zh, zl := Step(t, zh, zl, hi, lo + rest);
      i := i - 1;
    }
    assert x[0..] == x;
  }

  lemma ByteOfWord(z: Word, i: nat)
    requires |z| == 64 && i < 8
    ensures Shr(z, 56 - 8 * i)[56..] == z[8 * i..8 * i + 8]
  {}

  lemma NextByte(s: seq<Word>, z: Word, i: nat)
    requires AreBytes(s) && |s| == i + 1 && 8 * i + 8 <= |z|
    requires Flatten(s[..i]) == z[..8 * i] && s[i] == z[8 * i..8 * i + 8]
    ensures Flatten(s) == z[..8 * i + 8]
  {
    FlattenAppend(s[..i], [s[i]]);
    assert s == s[..i] + [s[i]] && [s[i]][1..] == [];
    assert Flatten([s[i]]) == s[i];
  }

  /** gcm_mul: the block in x becomes its product with the hash key. */
  method Mul(t: Table, x: array<Word>)
    requires t.Valid() && x.Length == 16 && AreBytes(x[..]) && x != t.HH && x != t.HL
    modifies x
    ensures AreBytes(x[..]) && Flatten(x[..]) == Product(old(Flatten(x[..])), t.key)
  {
    hide Product, Flatten, Shr;
    var zh, zl := Accumulate(t, x[..]);
    assert zh[..0] == [] && zl[..0] == [] && Flatten([]) == [] by { NoBits(); }
    var i := 0;
    while i < 8
      invariant 0 <= i <= 8
      invariant forall j :: 0 <= j < 16 ==> |x[j]| == 8
      invariant Flatten(x[..i]) == zh[..8 * i] && Flatten(x[8..8 + i]) == zl[..8 * i]
    {
      ghost var a, b := x[..i], x[8..8 + i];
      x[i], x[8 + i] := Shr(zh, 56 - 8 * i)[56..], Shr(zl, 56 - 8 * i)[56..];
      ByteOfWord(zh, i);
      ByteOfWord(zl, i);
      assert x[..i + 1][..i] == a && x[8..8 + i + 1][..i] == b;
      NextByte(x[..i + 1], zh, i);
      NextByte(x[8..8 + i + 1], zl, i);
      i := i + 1;
    }
    FlattenAppend(x[..8], x[8..16]);
    assert x[..8] + x[8..16] == x[..] && zh[..64] + zl[..64] == zh + zl;
  }

  lemma NoBits()
    ensures Flatten([]) == []
  {}

  // ----- GHASH ----------------------------------------------------------------------------------

  /** Byte-wise addition is addition of the bits. */
  lemma {:induction false} FlattenXor(s: seq<Word>, u: seq<Word>, r: seq<Word>)
    requires |s| == |u| == |r| && AreBytes(s) && AreBytes(u)
    requires forall i :: 0 <= i < |s| ==> r[i] == Xor(s[i], u[i])
    ensures AreBytes(r) && Flatten(r) == Xor(Flatten(s), Flatten(u))
  {
    if |s| > 0 {
      FlattenXor(s[1..], u[1..], r[1..]);
      XorJoin(s[0], Flatten(s[1..]), u[0], Flatten(u[1..]));
    }
  }

  /** Adding n bytes to a block adds the padded block. */
  lemma XorPadded(s: seq<Word>, d: seq<Word>, r: seq<Word>)
    requires |s| == |r| == 16 && |d| <= 16 && AreBytes(s) && AreBytes(d)
    requires forall i :: 0 <= i < |d| ==> r[i] == Xor(s[i], d[i])
    requires forall i :: |d| <= i < 16 ==> r[i] == s[i]
    ensures AreBytes(r) && Flatten(r) == Xor(Flatten(s), Padded(d))
  {
    hide Flatten;
    var u := d + ZeroBytes(16 - |d|);
    FlattenZeros(16 - |d|);
    FlattenAppend(d, ZeroBytes(16 - |d|));
    forall i | 0 <= i < 16 ensures r[i] == Xor(s[i], u[i]) {
      XorLaws(s[i], u[i]);
    }
    FlattenXor(s, u, r);
  }

  /** gcm_ghash_tab on the table path. */
  method GhashTab(t: Table, x: array<Word>, data: seq<Word>)
    requires t.Valid() && x.Length == 16 && AreBytes(x[..]) && AreBytes(data) && x != t.HH && x != t.HL
    modifies x
    ensures AreBytes(x[..]) && Flatten(x[..]) == Ghash(old(Flatten(x[..])), t.key, data)
  {
    hide Product, Flatten, Xor, Padded;
    var i := 0;
    assert data[0..] == data;
    while i < |data|
      invariant 0 <= i <= |data| && AreBytes(x[..])
      invariant Ghash(Flatten(x[..]), t.key, data[i..]) == Ghash(old(Flatten(x[..])), t.key, data)
    {
      var n := if |data| - i < 16 then |data| - i else 16;
      ghost var was := x[..];
      var j := 0;
      while j < n
        invariant 0 <= j <= n
        invariant forall k :: 0 <= k < j ==> |was[k]| == |data[i + k]| && x[k] == Xor(was[k], data[i + k])
        invariant forall k :: j <= k < 16 ==> x[k] == was[k]
      {
        x[j] := Xor(x[j], data[i + j]);
        j := j + 1;
      }
      ghost var d := data[i..i + n];
      XorPadded(was, d, x[..]);
      Mul(t, x);
      assert data[i..][..n] == d && data[i..][n..] == data[i + n..];
      i := i + n;
    }
    assert data[i..] == [];
  }

  lemma WordsOf(hi: Word, lo: Word, n: nat, key: Word)
    requires Holds(hi, lo, n, key)
    ensures |key| == 128 && |hi| == |lo| == 64 && hi + lo == Multiple(n, key)
  {}
}
