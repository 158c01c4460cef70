/** GHASH by carry-less multiplication of byte-reversed registers. A register is its
    bit string, most significant bit first. */
module GcmClmul {
  import opened Gf128

  // ----- the intrinsics -----------------------------------------------------------------

  /** The carry-less product of x and v in words as long as v. */
  function Terms(x: Word, v: Word): (w: Word)
    ensures |w| == |v|
  {
    if |x| == 0 then Zero(|v|) else Xor(Pick(x[0], Shl(v, |x| - 1)), Terms(x[1..], v))
  }

  /** clmulepi64 on the chosen halves. */
  function Clmul64(a: Word, b: Word): (w: Word)
    requires |a| == |b| == 64
    ensures |w| == 128
  {
    Terms(a, Zero(64) + b)
  }

  /** Shifts of the four 32-bit lanes. */
  function SlliEpi32(t: Word, k: nat): (w: Word)
    requires |t| == 128
    ensures |w| == 128
    ensures forall p :: 0 <= p < 128 ==> w[p] == (p % 32 + k < 32 && p + k < 128 && t[p + k])
  {
    seq(128, p requires 0 <= p < 128 => p % 32 + k < 32 && p + k < 128 && t[p + k])
  }

  function SrliEpi32(t: Word, k: nat): (w: Word)
    requires |t| == 128
    ensures |w| == 128
    ensures forall p :: 0 <= p < 128 ==> w[p] == (p % 32 >= k && p >= k && t[p - k])
  {
    seq(128, p requires 0 <= p < 128 => p % 32 >= k && p >= k && t[p - k])
  }

  /** Shifts of the whole register by bytes. */
  function SlliSi128(t: Word, n: nat): Word { Shl(t, 8 * n) }
  function SrliSi128(t: Word, n: nat): Word { Shr(t, 8 * n) }

  // ----- gcm_clmul -------------------------------------------------------------------------

  /** The two registers of the 256-bit product. */
  function ClmulProduct(a: Word, b: Word): (t: (Word, Word))
    requires |a| == |b| == 128
    ensures |t.0| == |t.1| == 128
  {
    var t3 := Clmul64(a[64..], b[64..]);
    var t4 := Clmul64(a[64..], b[..64]);
    var t5 := Clmul64(a[..64], b[64..]);
    var t6 := Clmul64(a[..64], b[..64]);
    var t4' := Xor(t4, t5);
    (Xor(t6, SrliSi128(t4', 8)), Xor(t3, SlliSi128(t4', 8)))
  }

  /** The product of reflected operands, shifted left by one bit. */
  function ClmulShift(t6: Word, t3: Word): (t: (Word, Word))
    requires |t6| == |t3| == 128
    ensures |t.0| == |t.1| == 128
  {
    var t7 := SrliEpi32(t3, 31);
    var t8 := SrliEpi32(t6, 31);
    var t9 := SrliSi128(t7, 12);
    (Or(Or(SlliEpi32(t6, 1), SlliSi128(t8, 4)), t9), Or(SlliEpi32(t3, 1), SlliSi128(t7, 4)))
  }

  /** The reduction of the shifted product. */
  function ClmulReduce(t6: Word, t3: Word): (w: Word)
    requires |t6| == |t3| == 128
    ensures |w| == 128
  {
    var t7 := Xor(Xor(SlliEpi32(t3, 31), SlliEpi32(t3, 30)), SlliEpi32(t3, 25));
    var t8 := SrliSi128(t7, 4);
    var u := Xor(t3, SlliSi128(t7, 12));
    var t2 := Xor(Xor(Xor(SrliEpi32(u, 1), SrliEpi32(u, 2)), SrliEpi32(u, 7)), t8);
    Xor(t6, Xor(u, t2))
  }

  /** gcm_clmul. */
  function GcmMultiply(a: Word, b: Word): (w: Word)
    requires |a| == |b| == 128
    ensures |w| == 128
  {
    var t := ClmulProduct(a, b);
    var u := ClmulShift(t.0, t.1);
    ClmulReduce(u.0, u.1)
  }

  // ----- the reduction, bit by bit ---------------------------------------------------------

  /** Bit p of a word, zero outside. */
  predicate At(w: Word, p: int) {
    0 <= p < |w| && w[p]
  }

  /** The lane shifts with their carries are one shift by a bit. */
  lemma ShiftIsShl(t6: Word, t3: Word)
    requires |t6| == |t3| == 128
    ensures ClmulShift(t6, t3).0 + ClmulShift(t6, t3).1 == Shl(t6 + t3, 1)
  {
    var u := ClmulShift(t6, t3);
    forall p | 0 <= p < 256 ensures (u.0 + u.1)[p] == Shl(t6 + t3, 1)[p] {
      if p < 128 {
        assert p % 32 == 31 || p % 32 + 1 < 32;
      } else {
        assert (p - 128) % 32 == 31 || (p - 128) % 32 + 1 < 32;
      }
    }
  }

  /** The low word after its first folding. */
  predicate Folded(lo: Word, p: int)
    requires |lo| == 128
  {
    0 <= p < 128 && ((lo[p] != At(lo, p + 127)) != (At(lo, p + 126) != At(lo, p + 121)))
  }

  /** The reduction of a shifted product: four shifts of the folded low word. */
  predicate ReducedBit(hi: Word, lo: Word, p: int)
    requires |hi| == |lo| == 128 && 0 <= p < 128
  {
    hi[p] != ((Folded(lo, p) != Folded(lo, p - 1)) != (Folded(lo, p - 2) != Folded(lo, p - 7)))
  }

  lemma FoldedBit(t3: Word, t7: Word, q: nat)
    requires |t3| == 128 && q < 128
    requires t7 == Xor(Xor(SlliEpi32(t3, 31), SlliEpi32(t3, 30)), SlliEpi32(t3, 25))
    ensures Xor(t3, SlliSi128(t7, 12))[q] == Folded(t3, q)
  {
    if q < 32 {
      assert (q + 96) % 32 == q;
    }
  }

  /** A right shift by k within lanes, and what the lane above loses. */
  lemma LaneShift(t3: Word, p: nat, k: nat)
    requires |t3| == 128 && p < 128 && (k == 1 || k == 2 || k == 7)
    ensures ((p % 32 >= k && p >= k && Folded(t3, p - k)) != (p >= 32 && p % 32 < k && t3[p - k])) == Folded(t3, p - k)
  {}

  /** What the left shifts move out of a lane arrives in the lane below. */
  lemma CarriedBit(t3: Word, t7: Word, p: nat)
    requires |t3| == 128 && p < 128
    requires t7 == Xor(Xor(SlliEpi32(t3, 31), SlliEpi32(t3, 30)), SlliEpi32(t3, 25))
    ensures SrliSi128(t7, 4)[p] == (((p >= 32 && p % 32 < 1 && t3[p - 1]) != (p >= 32 && p % 32 < 2 && t3[p - 2]))
      != (p >= 32 && p % 32 < 7 && t3[p - 7]))
  {
    if p >= 32 {
      assert (p - 32) % 32 == p % 32;
    }
  }

  lemma ReduceBits(t6: Word, t3: Word, p: nat)
    requires |t6| == |t3| == 128 && p < 128
    ensures ClmulReduce(t6, t3)[p] == ReducedBit(t6, t3, p)
  {
    hide Folded;
    var t7 := Xor(Xor(SlliEpi32(t3, 31), SlliEpi32(t3, 30)), SlliEpi32(t3, 25));
    var u := Xor(t3, SlliSi128(t7, 12));
    forall q | 0 <= q < 128 ensures u[q] == Folded(t3, q) {
      FoldedBit(t3, t7, q);
    }
    CarriedBit(t3, t7, p);
    LaneShift(t3, p, 1);
    LaneShift(t3, p, 2);
    LaneShift(t3, p, 7);
    ReduceAt(t6, t3, t7, u, p);
  }

  lemma ReduceAt(t6: Word, t3: Word, t7: Word, u: Word, p: nat)
    requires |t6| == |t3| == 128 && p < 128
    requires t7 == Xor(Xor(SlliEpi32(t3, 31), SlliEpi32(t3, 30)), SlliEpi32(t3, 25))
    requires u == Xor(t3, SlliSi128(t7, 12))
    ensures ClmulReduce(t6, t3)[p] == (t6[p] != (u[p] != (((SrliEpi32(u, 1)[p] != SrliEpi32(u, 2)[p])
      != SrliEpi32(u, 7)[p]) != SrliSi128(t7, 4)[p])))
  {
    hide SrliEpi32, SlliEpi32, SrliSi128, SlliSi128;
  }

  /** The field element of a 256-bit product. */
  function Fold(q: Word): (w: Word)
    requires |q| == 256
    ensures |w| == 128
  {
    ClmulReduce(Shl(q, 1)[..128], Shl(q, 1)[128..])
  }

  lemma FoldBit(q: Word, p: nat)
    requires |q| == 256 && p < 128
    ensures Fold(q)[p] == ReducedBit(Shl(q, 1)[..128], Shl(q, 1)[128..], p)
  {
    hide ClmulReduce, ReducedBit;
    ReduceBits(Shl(q, 1)[..128], Shl(q, 1)[128..], p);
  }

  lemma ReducedAdds(h: Word, l: Word, h': Word, l': Word, p: nat)
    requires |h| == |l| == |h'| == |l'| == 128 && p < 128
    ensures ReducedBit(Xor(h, h'), Xor(l, l'), p) == (ReducedBit(h, l, p) != ReducedBit(h', l', p))
  {
    hide Folded;
    FoldedAdds(l, l', p);
    FoldedAdds(l, l', p - 1);
    FoldedAdds(l, l', p - 2);
    FoldedAdds(l, l', p - 7);
  }

  lemma FoldedAdds(l: Word, l': Word, p: int)
    requires |l| == |l'| == 128
    ensures Folded(Xor(l, l'), p) == (Folded(l, p) != Folded(l', p))
  {}

  lemma FoldAdds(q: Word, r: Word)
    requires |q| == |r| == 256
    ensures Fold(Xor(q, r)) == Xor(Fold(q), Fold(r))
  {
    hide Fold, ReducedBit;
    var a, b, c := Shl(q, 1), Shl(r, 1), Shl(Xor(q, r), 1);
    assert c[..128] == Xor(a[..128], b[..128]) && c[128..] == Xor(a[128..], b[128..]);
    forall p | 0 <= p < 128 ensures Fold(Xor(q, r))[p] == Xor(Fold(q), Fold(r))[p] {
      FoldBit(q, p);
      FoldBit(r, p);
      FoldBit(Xor(q, r), p);
      ReducedAdds(a[..128], a[128..], b[..128], b[128..], p);
    }
  }

  /** Halving a product multiplies its field element by x. */
  lemma FoldHalf(q: Word)
    requires |q| == 256 && !q[0] && !q[1]
    ensures Fold(q) == MulX(Fold(Shl(q, 1)))
  {
    hide Fold, ReducedBit, MulX;
    var d := Shl(q, 1);
    forall p | 0 <= p < 128 ensures Fold(q)[p] == MulX(Fold(d))[p] {
      FoldBit(q, p);
      MulXOf(Fold(d), p);
      FoldBit(d, 127);
      if p > 0 {
        FoldBit(d, p - 1);
      }
      HalfBit(q, p);
    }
  }

  lemma MulXOf(v: Word, p: nat)
    requires |v| == 128 && p < 128
    ensures MulX(v)[p] == ((p > 0 && v[p - 1]) != (v[127] && InR(p)))
  {}

  lemma HalfBit(q: Word, p: nat)
    requires |q| == 256 && !q[0] && !q[1] && p < 128
    ensures var a, b := Shl(q, 1), Shl(Shl(q, 1), 1);
      ReducedBit(a[..128], a[128..], p)
      == ((p > 0 && ReducedBit(b[..128], b[128..], p - 1)) != (ReducedBit(b[..128], b[128..], 127) && InR(p)))
  {
    hide Folded, InR;
    var a, b := Shl(q, 1), Shl(Shl(q, 1), 1);
    var h, l, h', l' := a[..128], a[128..], b[..128], b[128..];
    assert !l[127] && (p > 0 ==> h[p] == h'[p - 1]) && h'[127] == l[0] && !h[0];
    HalfFolded(l, l', p);
    HalfFolded(l, l', p - 1);
    HalfFolded(l, l', p - 2);
    HalfFolded(l, l', p - 7);
    LastReduced(l, l');
    CombineHalf(p);
    if p == 0 {
      NotFolded(l');
    }
  }

  /** Halving moves the folded low word by one bit, apart from what its own top bits
      fold in. */
  lemma HalfFolded(l: Word, l': Word, p: int)
    requires |l| == |l'| == 128 && !l[127] && !l'[127] && p < 128
    requires forall i :: 0 <= i < 127 ==> l'[i] == l[i + 1]
    ensures Folded(l, p) == (Folded(l', p - 1) != (Top(l) && p == 0))
  {}

  /** The bit that falls out of the reduced product. */
  predicate Top(l: Word)
    requires |l| == 128
  {
    (l[0] != At(l, 127)) != (At(l, 126) != At(l, 121))
  }

  lemma LastReduced(l: Word, l': Word)
    requires |l| == |l'| == 128 && !l[127] && !l'[127]
    requires forall i :: 0 <= i < 127 ==> l'[i] == l[i + 1]
    ensures (l[0] != ((Folded(l', 127) != Folded(l', 126)) != (Folded(l', 125) != Folded(l', 120)))) == Top(l)
  {}

  lemma NotFolded(l: Word)
    requires |l| == 128
    ensures !Folded(l, -1) && !Folded(l, -2) && !Folded(l, -3) && !Folded(l, -8)
  {}

  lemma CombineHalf(p: int)
    ensures InR(p) == ((((p == 0) != (p - 1 == 0)) != ((p - 2 == 0) != (p - 7 == 0))))
  {}

  /** The product with x^0, which sits at the top of the reflected operand. */
  lemma FoldTop(b: Word)
    requires |b| == 128
    ensures Fold(Shl(Zero(128) + b, 127)) == b
  {
    hide Fold, ReducedBit;
    var q := Shl(Zero(128) + b, 127);
    var a := Shl(q, 1);
    assert a == b + Zero(128);
    forall p | 0 <= p < 128 ensures Fold(q)[p] == b[p] {
      FoldBit(q, p);
      NoLow(b, p);
      assert a[..128] == b && a[128..] == Zero(128);
    }
  }

  lemma NoLow(h: Word, p: nat)
    requires |h| == 128 && p < 128
    ensures ReducedBit(h, Zero(128), p) == h[p]
  {}

  // ----- carry-less products -----------------------------------------------------------------

  lemma ShlLaws(v: Word, w: Word, k: nat, m: nat)
    requires |v| == |w|
    ensures Shl(Shl(v, k), m) == Shl(v, k + m) == Shl(Shl(v, m), k)
    ensures Shl(Xor(v, w), k) == Xor(Shl(v, k), Shl(w, k))
    ensures Shl(Zero(|v|), k) == Zero(|v|) && Shl(v, 0) == v
  {}

  lemma ShlPick(b: bool, v: Word, k: nat)
    ensures Shl(Pick(b, v), k) == Pick(b, Shl(v, k))
  {
    ShlLaws(v, v, k, 0);
  }

  /** The high half of the first factor, then the low half. */
  lemma {:induction false} TermsAppend(x: Word, y: Word, v: Word)
    ensures Terms(x + y, v) == Xor(Shl(Terms(x, v), |y|), Terms(y, v))
  {
    hide Xor, Shl, Pick;
    if |x| == 0 {
      assert x + y == y;
      ShlLaws(v, v, |y|, 0);
      XorLaws(Terms(y, v), Terms(y, v));
    } else {
      assert (x + y)[1..] == x[1..] + y;
      TermsAppend(x[1..], y, v);
      var t := Pick(x[0], Shl(v, |x| - 1));
      ShlLaws(t, Terms(x[1..], v), |y|, 0);
      ShlPick(x[0], Shl(v, |x| - 1), |y|);
      ShlLaws(v, v, |x| - 1, |y|);
      XorAssoc(Shl(t, |y|), Shl(Terms(x[1..], v), |y|), Terms(y, v));
    }
  }

  lemma PickXor(b: bool, v: Word, w: Word)
    requires |v| == |w|
    ensures Pick(b, Xor(v, w)) == Xor(Pick(b, v), Pick(b, w))
  {}

  lemma XorSwap(a: Word, b: Word, c: Word, d: Word)
    requires |a| == |b| == |c| == |d|
    ensures Xor(Xor(a, b), Xor(c, d)) == Xor(Xor(a, c), Xor(b, d))
  {}

  lemma FirstTerm(x: Word, v: Word)
    ensures |x| == 0 ==> Terms(x, v) == Zero(|v|)
    ensures |x| > 0 ==> Terms(x, v) == Xor(Pick(x[0], Shl(v, |x| - 1)), Terms(x[1..], v))
  {}

  lemma {:induction false} TermsXor(x: Word, v: Word, w: Word)
    requires |v| == |w|
    ensures Terms(x, Xor(v, w)) == Xor(Terms(x, v), Terms(x, w))
  {
    hide Xor, Shl, Pick, Terms;
    FirstTerm(x, v);
    FirstTerm(x, w);
    FirstTerm(x, Xor(v, w));
    if |x| == 0 {
      XorLaws(Zero(|v|), Zero(|v|));
    } else {
      var y, k := x[1..], |x| - 1;
      TermsXor(y, v, w);
      ShlLaws(v, w, k, 0);
      PickXor(x[0], Shl(v, k), Shl(w, k));
      XorSwap(Pick(x[0], Shl(v, k)), Pick(x[0], Shl(w, k)), Terms(y, v), Terms(y, w));
    }
  }

  lemma {:induction false} TermsShl(x: Word, v: Word, k: nat)
    ensures Terms(x, Shl(v, k)) == Shl(Terms(x, v), k)
  {
    hide Xor, Shl, Pick, Terms;
    FirstTerm(x, v);
    FirstTerm(x, Shl(v, k));
    if |x| == 0 {
      ShlLaws(v, v, k, 0);
    } else {
      TermsShl(x[1..], v, k);
      ShlLaws(v, v, k, |x| - 1);
      ShlPick(x[0], Shl(v, |x| - 1), k);
      ShlLaws(Pick(x[0], Shl(v, |x| - 1)), Terms(x[1..], v), k, 0);
    }
  }

  predicate LeadingZeros(w: Word, n: int) {
    forall p :: 0 <= p < n && p < |w| ==> !w[p]
  }

  lemma {:induction false} TermsLeading(x: Word, v: Word, n: int)
    requires LeadingZeros(v, n)
    ensures LeadingZeros(Terms(x, v), n - |x| + 1)
  {
    if |x| > 0 {
      TermsLeading(x[1..], v, n);
    }
  }

  /** A wider register holds the same product. */
  lemma {:induction false} TermsWiden(x: Word, v: Word, n: nat)
    requires LeadingZeros(v, |x| - 1)
    ensures Terms(x, Zero(n) + v) == Zero(n) + Terms(x, v)
  {
    hide Terms, Pick, Shl, Xor;
    FirstTerm(x, v);
    FirstTerm(x, Zero(n) + v);
    if |x| == 0 {
      assert Zero(n) + Zero(|v|) == Zero(n + |v|);
    } else {
      TermsWiden(x[1..], v, n);
      WidenTerm(x[0], v, |x| - 1, Terms(x[1..], v), n);
    }
  }

  lemma WidenTerm(b: bool, v: Word, k: nat, t: Word, n: nat)
    requires LeadingZeros(v, k) && |t| == |v|
    ensures Xor(Pick(b, Shl(Zero(n) + v, k)), Zero(n) + t) == Zero(n) + Xor(Pick(b, Shl(v, k)), t)
  {
    ShlWiden(v, k, n);
  }

  lemma ShlWiden(v: Word, k: nat, n: nat)
    requires LeadingZeros(v, k)
    ensures Shl(Zero(n) + v, k) == Zero(n) + Shl(v, k)
  {}

  // ----- the product ---------------------------------------------------------------------------

  /** A half operand in 256 bits. */
  function Wide(b: Word): (w: Word)
    requires |b| == 64
    ensures |w| == 256
  {
    Zero(192) + b
  }

  lemma ClmulWide(a: Word, b: Word)
    requires |a| == |b| == 64
    ensures Terms(a, Wide(b)) == Zero(128) + Clmul64(a, b)
  {
    hide Terms;
    assert Wide(b) == Zero(128) + (Zero(64) + b);
    TermsWiden(a, Zero(64) + b, 128);
  }

  /** The four half products make up the whole product. */
  lemma WholeProduct(a: Word, b: Word)
    requires |a| == |b| == 128
    ensures ClmulProduct(a, b).0 + ClmulProduct(a, b).1 == Terms(a, Zero(128) + b)
  {
    hide Terms, Clmul64, Xor, Shl, Shr, Wide;
    var a1, a0, b1, b0 := a[..64], a[64..], b[..64], b[64..];
    var v := Zero(128) + b;
    assert a == a1 + a0;
    WideHalves(b);
    TermsAppend(a1, a0, v);
    HalfProduct(a1, b1, b0, v);
    HalfProduct(a0, b1, b0, v);
    JoinProducts(Clmul64(a1, b1), Clmul64(a1, b0), Clmul64(a0, b1), Clmul64(a0, b0));
  }

  lemma WideHalves(b: Word)
    requires |b| == 128
    ensures Zero(128) + b == Xor(Shl(Wide(b[..64]), 64), Wide(b[64..]))
  {}

  lemma HalfProduct(x: Word, b1: Word, b0: Word, v: Word)
    requires |x| == |b1| == |b0| == 64 && v == Xor(Shl(Wide(b1), 64), Wide(b0))
    ensures Terms(x, v) == Xor(Shl(Zero(128) + Clmul64(x, b1), 64), Zero(128) + Clmul64(x, b0))
  {
    hide Terms, Clmul64, Wide, Shl, Xor;
    TermsXor(x, Shl(Wide(b1), 64), Wide(b0));
    TermsShl(x, Wide(b1), 64);
    ClmulWide(x, b1);
    ClmulWide(x, b0);
  }

  lemma JoinProducts(t11: Word, t10: Word, t01: Word, t00: Word)
    requires |t11| == |t10| == |t01| == |t00| == 128
    ensures Xor(t11, Shr(Xor(t01, t10), 64)) + Xor(t00, Shl(Xor(t01, t10), 64))
         == Xor(Shl(Xor(Shl(Zero(128) + t11, 64), Zero(128) + t10), 64),
                Xor(Shl(Zero(128) + t01, 64), Zero(128) + t00))
  {}

  lemma FoldPick(c: bool, q: Word)
    requires |q| == 256
    ensures Fold(Pick(c, q)) == Pick(c, Fold(q))
  {
    hide Fold, ReducedBit;
    var z := Zero(256);
    forall p | 0 <= p < 128 ensures !Fold(z)[p] {
      FoldBit(z, p);
      assert Shl(z, 1)[..128] == Zero(128) && Shl(z, 1)[128..] == Zero(128);
      NoLow(Zero(128), p);
    }
    assert Fold(z) == Zero(128);
  }

  /** Folding the carry-less product, term by term, is multiplication in the field. */
  lemma {:induction false} FoldTerms(x: Word, b: Word)
    requires |x| <= 128 && |b| == 128
    ensures Fold(Shl(Terms(x, Zero(128) + b), 128 - |x|)) == Product(x, b)
  {
    hide Fold, MulX, Xor, Pick, Shl, Terms, Product;
    var v := Zero(128) + b;
    FirstTerm(x, v);
    FirstProduct(x, b);
    if |x| == 0 {
      ShlLaws(v, v, 128, 0);
      FoldPick(false, v);
      PickNone(v, Fold(v));
    } else {
      var y, n := x[1..], 128 - |x|;
      var t := Terms(y, v);
      FoldTerms(y, b);
      FoldTail(y, b, n);
      ProductMulX(y, b);
      ShlLaws(Pick(x[0], Shl(v, |x| - 1)), t, n, 0);
      ShlPick(x[0], Shl(v, |x| - 1), n);
      ShlLaws(v, v, |x| - 1, n);
      FoldAdds(Pick(x[0], Shl(v, 127)), Shl(t, n));
      FoldPick(x[0], Shl(v, 127));
      FoldTop(b);
    }
  }

  /** One shift less is one multiplication by x. */
  lemma FoldTail(y: Word, b: Word, n: nat)
    requires |b| == 128 && |y| + n + 1 == 128
    ensures Fold(Shl(Terms(y, Zero(128) + b), n)) == MulX(Fold(Shl(Terms(y, Zero(128) + b), n + 1)))
  {
    hide Fold, MulX, Shl, Terms, LeadingZeros;
    ZerosInFront(b);
    TermsLeading(y, Zero(128) + b, 128);
    FoldShifted(Terms(y, Zero(128) + b), n);
  }

  lemma FoldShifted(t: Word, n: nat)
    requires |t| == 256 && LeadingZeros(t, n + 2)
    ensures Fold(Shl(t, n)) == MulX(Fold(Shl(t, n + 1)))
  {
    hide Fold, MulX, LeadingZeros;
    ShlLaws(t, t, n, 1);
    ShlLeading(t, n + 2, n);
    FoldHalf(Shl(t, n));
  }

  lemma ZerosInFront(b: Word)
    ensures LeadingZeros(Zero(128) + b, 128)
  {}

  lemma FirstProduct(x: Word, b: Word)
    requires |b| == 128
    ensures |x| == 0 ==> Product(x, b) == Zero(128)
    ensures |x| > 0 ==> Product(x, b) == Xor(Pick(x[0], b), Product(x[1..], MulX(b)))
  {
    hide Xor, Pick, MulX;
  }

  lemma PickNone(v: Word, w: Word)
    ensures Pick(false, v) == Zero(|v|) && Pick(false, w) == Zero(|w|)
  {}

  lemma ShlLeading(t: Word, n: nat, k: nat)
    requires LeadingZeros(t, n) && n >= k + 2 && |t| == 256
    ensures !Shl(t, k)[0] && !Shl(t, k)[1]
  {}

  /** gcm_clmul is multiplication in the field. */
  lemma GcmMultiplyIsProduct(a: Word, b: Word)
    requires |a| == |b| == 128
    ensures GcmMultiply(a, b) == Product(a, b)
  {
    hide Terms, ClmulProduct, ClmulShift, ClmulReduce, Product;
    var t := ClmulProduct(a, b);
    WholeProduct(a, b);
    ShiftIsShl(t.0, t.1);
    var u := ClmulShift(t.0, t.1);
    assert (u.0 + u.1)[..128] == u.0 && (u.0 + u.1)[128..] == u.1;
    FoldTerms(a, b);
    ShlLaws(Terms(a, Zero(128) + b), Terms(a, Zero(128) + b), 0, 0);
  }

  // ----- GHASH -----------------------------------------------------------------------------

  /** bswap128: the bytes in the opposite order. */
  function Reverse(s: seq<Word>): (r: seq<Word>)
    ensures |r| == |s| && forall i :: 0 <= i < |s| ==> r[i] == s[|s| - 1 - i]
  {
    seq(|s|, i requires 0 <= i < |s| => s[|s| - 1 - i])
  }

  /** The register loaded from 16 bytes: the first byte is the least significant. */
  function Load(s: seq<Word>): (w: Word)
    requires AreBytes(s)
    ensures |w| == 8 * |s|
  {
    Flatten(Reverse(s))
  }

  /** A loaded and byte-swapped register holds the bits of the block in order. */
  lemma SwappedLoad(s: seq<Word>)
    requires AreBytes(s)
    ensures AreBytes(Reverse(s)) && Load(Reverse(s)) == Flatten(s)
  {
    assert Reverse(Reverse(s)) == s;
  }

  /** gcm_ghash_clmul, from the register y. */
  method GhashClmul(y0: Word, h: Word, data: seq<Word>) returns (y: Word)
    requires |y0| == |h| == 128 && AreBytes(data)
    ensures |y| == 128 && y == Ghash(y0, h, data)
  {
    hide Product, Flatten, Xor, Padded, GcmMultiply, Load, Reverse;
    y := y0;
    var i := 0;
    assert data[0..] == data;
    while i < |data|
      invariant 0 <= i <= |data| && |y| == 128
      invariant Ghash(y, h, data[i..]) == Ghash(y0, h, data)
    {
      var n := if |data| - i < 16 then |data| - i else 16;
      var block := data[i..i + n] + ZeroBytes(16 - n);
      SwappedLoad(block);
      PaddedBlock(data[i..i + n], block);
      y := Xor(y, Load(Reverse(block)));
      GcmMultiplyIsProduct(y, h);
      y := GcmMultiply(y, h);
      assert data[i..][..n] == data[i..i + n] && data[i..][n..] == data[i + n..];
      i := i + n;
    }
    assert data[i..] == [];
  }

  lemma PaddedBlock(d: seq<Word>, block: seq<Word>)
    requires AreBytes(d) && |d| <= 16 && block == d + ZeroBytes(16 - |d|)
    ensures AreBytes(block) && Flatten(block) == Padded(d)
  {
    FlattenZeros(16 - |d|);
    FlattenAppend(d, ZeroBytes(16 - |d|));
  }
}
