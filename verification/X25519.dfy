/** X25519: the Montgomery ladder of section 5 of RFC 7748 on limbs. */
module X25519 {
  import opened Bits
  import opened LittleEndian
  import opened Int128
  import opened Fe25519
  import opened FeInverse
  import opened FeBytes
  import opened Verify

  // ----- the function on integers modulo p -----------------------------------------------

  datatype Points = Points(x2: int, z2: int, x3: int, z3: int)

  /** One differential addition and doubling. */
  function Step(u: int, s: Points): Points {
    var a, b := FAdd(s.x2, s.z2), FSub(s.x2, s.z2);
    var aa, bb := FMul(a, a), FMul(b, b);
    var e := FSub(aa, bb);
    var c, d := FAdd(s.x3, s.z3), FSub(s.x3, s.z3);
    var da, cb := FMul(a, d), FMul(b, c);
    Points(
      FMul(aa, bb),
      FMul(e, FAdd(aa, FMul(e, 121665))),
      FMul(FAdd(da, cb), FAdd(da, cb)),
      FMul(FMul(FSub(da, cb), FSub(da, cb)), u))
  }

  function Swapped(s: Points, b: Bit): Points {
    if b == 1 then Points(s.x3, s.z3, s.x2, s.z2) else s
  }

  /** One rung: the points change places around the step where the bit is set. */
  function Rung(u: int, s: Points, b: Bit): Points {
    Swapped(Step(u, Swapped(s, b)), b)
  }

  function BitAt(k: nat, t: nat): Bit {
    k / Pow2(t) % 2
  }

  /** The points after bits 254 down to t. */
  function LadderTo(u: int, k: nat, t: nat): Points
    requires t <= 255
    decreases 255 - t
  {
    if t == 255 then Points(1, 0, u, 1) else Rung(u, LadderTo(u, k, t + 1), BitAt(k, t))
  }

  /** The scalar that 32 bytes stand for: multiples of 8 between 2^254 and 2^255. */
  function DecodeScalar(n: seq<Byte>): nat {
    FromLe(n) % Pow2(254) - FromLe(n) % 8 + Pow2(254)
  }

  /** The u-coordinate of 32 bytes; the top bit is ignored. */
  function DecodeU(p: seq<Byte>): int {
    FromLe(p) % TWO255 % P
  }

  function ScalarMult(k: nat, u: int): int {
    var s := LadderTo(u, k, 0);
    FMul(s.x2, FPow(s.z2, P - 2))
  }

  // ----- scalar bits -------------------------------------------------------------------------

  lemma BitOfSum(b: nat, r: nat, i: nat)
    requires i < 8
    ensures (b + 256 * r) / Pow2(i) % 2 == b / Pow2(i) % 2
  {
    hide Pow2;
    Powers();
    Pow2Add(i, 7 - i);
    BitUnder(b, r, Pow2(i), Pow2(7 - i));
  }

  lemma BitUnder(b: nat, r: nat, p: nat, m: nat)
    requires p > 0 && p * m == 128
    ensures (b + 256 * r) / p % 2 == b / p % 2
  {
    var q, s := b / p, b % p;
    var t := m * r;
    assert t * p == 128 * r by {
      assert m * r * p == p * m * r;
    }
    assert (q + 2 * t) * p == q * p + 2 * (t * p);
    QuotientUnique(b + 256 * r, p, q + 2 * t, s);
  }

  /** Bit i of a little-endian byte string. */
  lemma {:induction false} BitOfBytes(n: seq<Byte>, i: nat)
    requires i / 8 < |n|
    ensures n[i / 8] / Pow2(i % 8) % 2 == BitAt(FromLe(n), i)
  {
    hide Pow2, BitAt;
    var b: nat, r := n[0], FromLe(n[1..]);
    assert FromLe(n) == b + 256 * r;
    if i < 8 {
      LowIndex(i);
      BitOfSum(b, r, i);
      BitIs(FromLe(n), i);
    } else {
      NextIndex(i);
      BitOfBytes(n[1..], i - 8);
      BitAbove(b, r, i);
    }
  }

  lemma LowIndex(i: nat)
    requires i < 8
    ensures i / 8 == 0 && i % 8 == i
  {}

  lemma NextIndex(i: nat)
    requires i >= 8
    ensures (i - 8) / 8 == i / 8 - 1 && (i - 8) % 8 == i % 8
  {}

  lemma BitIs(k: nat, t: nat)
    ensures BitAt(k, t) == k / Pow2(t) % 2
  {}

  lemma BitAbove(b: nat, r: nat, i: nat)
    requires b < 256 && i >= 8
    ensures BitAt(b + 256 * r, i) == BitAt(r, i - 8)
  {
    hide Pow2;
    Powers();
    Pow2Add(8, i - 8);
    DivideTwice(b + 256 * r, 256, Pow2(i - 8), Pow2(i));
    assert (b + 256 * r) / 256 == r;
  }

  lemma ClampFirst(b: nat)
    requires b < 256
    ensures And(b, 248) == b - b % 8
  {
    hide And;
    Powers();
    AndSplit(b % 8, b / 8, 0, 31, 3);
    AndNothing(b % 8);
    AndLow(b / 8, 5);
  }

  lemma ClampLast(b: nat)
    requires b < 256
    ensures And(b, 127) == b % 128 && Or(And(b, 127), 64) == b % 64 + 64
  {
    hide And, Or, Pow2;
    Powers();
    AndLow(b, 7);
    var y := b % 128;
    OrHigh(y % 64, y / 64, 1, 6);
    OrStep(y / 64, 1);
    assert Or(0, 0) == 0 by { OrNothing(); }
  }

  lemma OrNothing()
    ensures Or(0, 0) == 0
  {}

  /** The clamped bytes are those of the decoded scalar. */
  method Clamp(n_in: seq<Byte>) returns (n: seq<Byte>)
    requires |n_in| == 32
    ensures |n| == 32 && FromLe(n) == DecodeScalar(n_in)
  {
    hide And, Or, Pow2, FromLe, DecodeScalar;
    n := n_in;
    var b: nat, c: nat := n[0], n[31];
    ClampFirst(b);
    ClampLast(c);
    n := n[0 := And(b, 248)];
    n := n[31 := And(c, 127)];
    n := n[31 := Or(And(c, 127), 64)];
    ClampedValue(n_in, n);
  }

  lemma ClampedValue(s: seq<Byte>, n: seq<Byte>)
    requires |s| == |n| == 32 && n[1..31] == s[1..31]
    requires n[0] == s[0] - s[0] % 8
    requires n[31] == s[31] % 64 + 64
    ensures FromLe(n) == DecodeScalar(s)
  {
    hide FromLe, Pow2;
    var mid := s[1..31];
    assert s == [s[0]] + mid + [s[31]] && n == [n[0]] + mid + [n[31]];
    Frame(s[0], mid, s[31]);
    Frame(n[0], mid, n[31]);
    FrameBound(s[0], mid, s[31] % 64);
    Pow2Add(248, 6);
    Powers();
    Pow2Add(3, 245);
    ClampedNumber(s[0], FromLe(mid), s[31], Pow2(245), Pow2(248), Pow2(254));
  }

  lemma ClampedNumber(b: nat, m: nat, c: nat, t: nat, p: nat, q: nat)
    requires p == 8 * t && q == 64 * p && p > 0 && b + 256 * m + p * (c % 64) < q
    ensures var x := b + 256 * m + p * c;
      b - b % 8 + 256 * m + p * (c % 64 + 64) == x % q - x % 8 + q
  {
    var x, v := b + 256 * m + p * c, b + 256 * m + p * (c % 64);
    assert x == (c / 64) * q + v by {
      assert c == 64 * (c / 64) + c % 64;
      assert p * (64 * (c / 64) + c % 64) == (c / 64) * (64 * p) + p * (c % 64);
    }
    QuotientUnique(x, q, c / 64, v);
    assert p * c == 8 * (t * c);
    QuotientUnique(x, 8, b / 8 + 32 * m + t * c, b % 8);
    assert p * (c % 64 + 64) == p * (c % 64) + 64 * p;
  }

  lemma Frame(a: Byte, mid: seq<Byte>, c: Byte)
    requires |mid| == 30
    ensures FromLe([a] + mid + [c]) == a + 256 * FromLe(mid) + Pow2(248) * c
  {
    hide Pow2;
    FromLeAppend([a] + mid, [c]);
    FromLeAppend([a], mid);
    Powers();
    assert [c][1..] == [] && [a][1..] == [];
    assert FromLe([c]) == c && FromLe([a]) == a;
  }

  lemma FrameBound(a: nat, mid: seq<Byte>, c: nat)
    requires |mid| == 30 && a < 256 && c < 64
    ensures a + 256 * FromLe(mid) + Pow2(248) * c < Pow2(254)
  {
    hide Pow2, FromLe;
    FromLeBound(mid);
    Powers();
    Pow2Add(8, 240);
    Pow2Add(248, 6);
    MulAtLeast(63 - c + 1, Pow2(248));
    assert (63 - c + 1) * Pow2(248) == 64 * Pow2(248) - Pow2(248) * c;
  }

  // ----- the conditional swap ------------------------------------------------------------

  lemma SignedWord(f: Int64)
    ensures ToInt64(f % TWO64) == f
  {
    if f < 0 {
      assert f % TWO64 == f + TWO64;
    }
  }

  /** One limb of fe_cswap: an exclusive OR under a mask of all ones or none. */
  function SwapLimb(f: Int64, g: Int64, b: Bit): (r: (Int64, Int64))
    ensures r == if b == 1 then (g, f) else (f, g)
  {
    hide ToInt64, And, Xor;
    var sign: int := b;
    var mask, u, v := -sign % TWO64, f % TWO64, g % TWO64;
    MaskedXor(u, v, mask);
    SignedWord(f);
    SignedWord(g);
    var x := And(mask, Xor(u, v));
    (ToInt64(Xor(u, x)), ToInt64(Xor(v, x)))
  }

  lemma MaskedXor(u: nat, v: nat, mask: nat)
    requires u < TWO64 && v < TWO64 && (mask == 0 || mask == TWO64 - 1)
    ensures Xor(u, And(mask, Xor(u, v))) == if mask == 0 then u else v
    ensures Xor(v, And(mask, Xor(u, v))) == if mask == 0 then v else u
  {
    hide Pow2, Xor, And;
    PowersOfWords();
    Pow2Add(32, 32);
    if mask == 0 {
      NoMask(u, Xor(u, v));
      NoMask(v, Xor(u, v));
    } else {
      XorBound(u, v, 64);
      AndOnes(64, Xor(u, v));
      XorTwice(u, v);
      XorSymmetric(u, v);
      XorTwice(v, u);
    }
  }

  method FeCswap(f: Fe, g: Fe, b: Bit) returns (f1: Fe, g1: Fe)
    ensures f1 == (if b == 1 then g else f) && g1 == if b == 1 then f else g
  {
    hide SwapLimb;
    var s: seq<Int64>, t: seq<Int64> := [], [];
    for i := 0 to 5
      invariant |s| == |t| == i
      invariant forall k :: 0 <= k < i ==> s[k] == if b == 1 then g[k] else f[k]
      invariant forall k :: 0 <= k < i ==> t[k] == if b == 1 then f[k] else g[k]
    {
      var r := SwapLimb(f[i], g[i], b);
      s, t := s + [r.0], t + [r.1];
    }
    assert |f| == 5 && |g| == 5;
    f1, g1 := s, t;
  }

  // ----- the ladder ------------------------------------------------------------------------

  /** Limbs that represent the four coordinates and may be multiplied. */
  ghost predicate Represents(x2: Fe, z2: Fe, x3: Fe, z3: Fe, s: Points) {
    && Carried(x2) && Carried(z2) && Carried(x3) && Carried(z3)
    && s == Points(Field(x2), Field(z2), Field(x3), Field(z3))
  }

  method SmallFe(x: int) returns (f: Fe)
    requires 0 <= x < TWO51
    ensures Carried(f) && Field(f) == x
  {
    f := [x, 0, 0, 0, 0];
    Reduced(x);
  }

  /** The field operations of one iteration of x25519. */
  method LadderStep(x2_: Fe, z2_: Fe, x3_: Fe, z3_: Fe, p: Fe, ghost s: Points)
    returns (x2: Fe, z2: Fe, x3: Fe, z3: Fe)
    requires Represents(x2_, z2_, x3_, z3_, s) && Carried(p)
    ensures Represents(x2, z2, x3, z3, Step(Field(p), s))
  {
    hide Carried, Bounded, Field, FAdd, FSub, FMul, SumsFit, DifferencesFit;
    CarriedFit(x2_, z2_);
    CarriedFit(x3_, z3_);
    var a := FeAdd(x2_, z2_);
    var b := FeSub(x3_, z3_);
    var da := FeMul(a, b);
    a := FeSub(x2_, z2_);
    b := FeAdd(x3_, z3_);
    var cb := FeMul(a, b);
    CarriedFit(da, cb);
    a := FeAdd(da, cb);
    x3 := FeMul(a, a);
    b := FeSub(da, cb);
    a := FeMul(b, b);
    CarriedBounded(a);
    CarriedBounded(p);
    z3 := FeMul(a, p);
    a := FeAdd(x2_, z2_);
    var aa := FeMul(a, a);
    b := FeSub(x2_, z2_);
    var bb := FeMul(b, b);
    CarriedBounded(aa);
    CarriedBounded(bb);
    x2 := FeMul(aa, bb);
    CarriedFit(aa, bb);
    var e := FeSub(aa, bb);
    var a24 := SmallFe(121665);
    CarriedBounded(a24);
    var tmp := FeMul(e, a24);
    CarriedFit(aa, tmp);
    a := FeAdd(aa, tmp);
    z2 := FeMul(e, a);
  }

  lemma SwapTwice(s: Points, a: Bit, b: Bit)
    ensures Swapped(Swapped(s, a), if a != b then 1 else 0) == Swapped(s, b)
  {}

  lemma OneRung(u: int, k: nat, t: nat, b: Bit)
    requires t < 255 && b == BitAt(k, t)
    ensures Step(u, Swapped(LadderTo(u, k, t + 1), b)) == Swapped(LadderTo(u, k, t), b)
  {
    hide Step, BitAt;
    SwapTwice(Step(u, Swapped(LadderTo(u, k, t + 1), b)), b, 0);
  }

  /** x25519: the result is the RFC's function of the decoded scalar and coordinate. */
  method Compute(n_in: seq<Byte>, p_in: seq<Byte>) returns (result: seq<Byte>)
    requires |n_in| == |p_in| == 32
    ensures result == ToLe(ScalarMult(DecodeScalar(n_in), DecodeU(p_in)), 32)
  {
    hide Step, BitAt, Pow2, FromLe, ToLe, Carried, Bounded, Field, FMul, FPow, LadderTo, DecodeScalar, DecodeU;
    var n := Clamp(n_in);
    ghost var k, u := DecodeScalar(n_in), DecodeU(p_in);
    var x2 := SmallFe(1);
    var z2 := SmallFe(0);
    var x3 := FeFromBytes(p_in);
    var z3 := SmallFe(1);
    var prev_bit: Bit := 0;
    var p := FeFromBytes(p_in);
    Decoded(p_in, p);
    Decoded(p_in, x3);
    LadderStart(u, k);
    for i := 255 downto 0
      invariant Represents(x2, z2, x3, z3, Swapped(LadderTo(u, k, i), prev_bit))
    {
      BitOfBytes(n, i);
      var bit: Bit := n[i / 8] / Pow2(i % 8) % 2;
      SwapTwice(LadderTo(u, k, i + 1), prev_bit, bit);
      x2, x3 := FeCswap(x2, x3, if bit != prev_bit then 1 else 0);
      z2, z3 := FeCswap(z2, z3, if bit != prev_bit then 1 else 0);
      OneRung(u, k, i, bit);
      x2, z2, x3, z3 := LadderStep(x2, z2, x3, z3, p, Swapped(LadderTo(u, k, i + 1), bit));
      prev_bit := bit;
    }
    SwapTwice(LadderTo(u, k, 0), prev_bit, 0);
    x2, x3 := FeCswap(x2, x3, prev_bit);
    z2, z3 := FeCswap(z2, z3, prev_bit);
    CarriedBounded(z2);
    var z_inv := FeInv(z2);
    CarriedBounded(x2);
    CarriedBounded(z_inv);
    x2 := FeMul(x2, z_inv);
    CarriedBounded(x2);
    result := FeToBytes(x2);
  }

  lemma Decoded(s: seq<Byte>, f: Fe)
    requires |s| == 32 && Limbs(f) == FromLe(s) % TWO255
    ensures Field(f) == DecodeU(s)
  {}

  lemma LadderStart(u: int, k: nat)
    ensures LadderTo(u, k, 255) == Points(1, 0, u, 1)
  {}
}
