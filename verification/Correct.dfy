/** Decryption undoes encryption: the exact condition on the noise. */
module Correct {
  import opened Bits
  import opened Zq
  import opened Ring
  import opened NttTree
  import opened Compress
  import opened PolyBytes
  import opened PolyArith
  import opened Sample
  import opened Kpke

  // ----- bytes back to polynomials ----------------------------------------------------

  lemma EncodedLength(f: Poly)
    requires |f| == 256
    ensures |ByteEncode(12, NatPoly(Canon(f)))| == 384
    ensures ByteDecode(12, ByteEncode(12, NatPoly(Canon(f)))) == Canon(f)
  {
    hide ByteEncode, ByteDecode, Pow2;
    Powers();
    DecodeEncode(12, NatPoly(Canon(f)), 384);
  }

  lemma DecodeEncodeVec(f: Vec)
    requires IsVec(f)
    ensures |EncodeVec12(f)| == 1152
    ensures DecodeVec12(EncodeVec12(f)) == [Canon(f[0]), Canon(f[1]), Canon(f[2])]
  {
    hide ByteEncode, ByteDecode, Canon;
    EncodedLength(f[0]);
    EncodedLength(f[1]);
    EncodedLength(f[2]);
    var a, b, c := ByteEncode(12, NatPoly(Canon(f[0]))), ByteEncode(12, NatPoly(Canon(f[1]))), ByteEncode(12, NatPoly(Canon(f[2])));
    var s := a + b + c;
    assert s[..384] == a && s[384..768] == b && s[768..] == c;
  }

  lemma NttRoundTrip(f: Poly, a: Poly)
    requires |f| == |a| == 256 && IsNtt(f, a)
    ensures CongPoly(FromNtt(f), a)
  {
    hide IsNtt, FromNtt;
    FromNttIsInverse(f);
    NttInjective(f, FromNtt(f), a);
  }

  lemma CanonNtt(a: Poly)
    requires |a| == 256
    ensures CongPoly(FromNtt(Canon(ToNtt(a))), a)
  {
    hide IsNtt, FromNtt, Canon, ToNtt, CongPoly;
    ToNttIsNtt(a);
    CongCanon(ToNtt(a));
    CongTransform(Canon(ToNtt(a)), ToNtt(a), a);
    NttRoundTrip(Canon(ToNtt(a)), a);
  }

  lemma CongTransform(f: Poly, g: Poly, a: Poly)
    requires |f| == |g| == |a| == 256 && CongPoly(f, g) && IsNtt(g, a)
    ensures IsNtt(f, a)
  {
    hide Cong, Leaf;
    forall i | 0 <= i < 256 ensures Cong(f[i], Leaf(a, i)) {
      CongTrans(f[i], g[i], Leaf(a, i));
    }
  }

  /** Key material read back from its bytes is the original modulo q. */
  lemma KeyReadBack(x: Vec)
    requires IsVec(x)
    ensures |EncodeVec12(ToNttVec(x))| == 1152
    ensures CongVec(FromNttVec(DecodeVec12(EncodeVec12(ToNttVec(x)))), x)
  {
    hide IsNtt, FromNtt, Canon, ToNtt, CongPoly, EncodeVec12, DecodeVec12;
    DecodeEncodeVec(ToNttVec(x));
    CanonNtt(x[0]);
    CanonNtt(x[1]);
    CanonNtt(x[2]);
  }

  lemma CipherPiece(d: nat, a: Poly, k: nat)
    requires d > 0 && |a| == 256 && 256 * d == 8 * k
    ensures |ByteEncode(d, RoundPoly(d, a))| == k
    ensures ByteDecode(d, ByteEncode(d, RoundPoly(d, a))) == RoundPoly(d, a)
  {
    hide ByteEncode, ByteDecode, Round;
    DecodeEncode(d, RoundPoly(d, a), k);
  }

  function Rounded(d: nat, a: Poly): (r: Poly)
    ensures |r| == |a|
  {
    ExpandPoly(d, RoundPoly(d, a))
  }

  lemma UnpackPack(u: Vec, v: Poly)
    requires IsVec(u) && |v| == 256
    ensures |PackCipher(u, v)| == 1088
    ensures UnpackU(PackCipher(u, v)) == [Rounded(10, u[0]), Rounded(10, u[1]), Rounded(10, u[2])]
    ensures UnpackV(PackCipher(u, v)) == Rounded(4, v)
  {
    hide ByteEncode, ByteDecode, RoundPoly, ExpandPoly;
    CipherPiece(10, u[0], 320);
    CipherPiece(10, u[1], 320);
    CipherPiece(10, u[2], 320);
    CipherPiece(4, v, 128);
    var a, b, c := ByteEncode(10, RoundPoly(10, u[0])), ByteEncode(10, RoundPoly(10, u[1])), ByteEncode(10, RoundPoly(10, u[2]));
    var e := ByteEncode(4, RoundPoly(4, v));
    var s := a + b + c + e;
    assert s[..320] == a && s[320..640] == b && s[640..960] == c && s[960..] == e;
  }

  // ----- the compression error -----------------------------------------------------------

  /** The centred difference that compression to d bits makes. */
  function CompressionError(d: nat, u: Poly): (c: Poly)
    ensures |c| == |u|
  {
    seq(|u|, i requires 0 <= i < |u| => Center(Expand(d, Round(d, u[i] % 3329)) - u[i]))
  }

  lemma ErrorIsDifference(d: nat, u: Poly)
    ensures CongPoly(Rounded(d, u), Add(u, CompressionError(d, u)))
  {
    hide Cong, Center, Expand, Round;
    forall i | 0 <= i < |u| ensures Cong(Rounded(d, u)[i], Add(u, CompressionError(d, u))[i]) {
      var x := Expand(d, Round(d, u[i] % 3329));
      CenterCong(x - u[i]);
      CongSym(Center(x - u[i]), x - u[i]);
      CongSelf(u[i]);
      CongSum(u[i], u[i], x - u[i], Center(x - u[i]));
    }
  }

  /** The errors of the two compressions are at most 2 and 104. */
  lemma ErrorBounds(u: Poly)
    ensures Within(CompressionError(10, u), -2, 2)
    ensures Within(CompressionError(4, u), -104, 104)
  {
    hide Center, Expand, Round;
    forall i | 0 <= i < |u|
      ensures -2 <= CompressionError(10, u)[i] <= 2 && -104 <= CompressionError(4, u)[i] <= 104
    {
      var x := u[i] % 3329;
      Error10(x);
      Error4(x);
      CenterShift(Expand(10, Round(10, x)), u[i]);
      CenterShift(Expand(4, Round(4, x)), u[i]);
    }
  }

  lemma CenterShift(e: int, u: int)
    ensures Center(e - u) == Center(e - u % 3329)
  {
    CongWitness(e - u % 3329, e - u, u / 3329);
    CenterUnique(e - u % 3329, e - u);
  }

  function ErrorVec(u: Vec): (c: Vec)
    requires IsVec(u)
    ensures IsVec(c)
  {
    [CompressionError(10, u[0]), CompressionError(10, u[1]), CompressionError(10, u[2])]
  }

  // ----- inner products --------------------------------------------------------------------

  lemma DotAddLeft(a: Vec, b: Vec, y: Vec)
    requires IsVec(a) && IsVec(b) && IsVec(y)
    ensures Dot(AddVec(a, b), y) == Add(Dot(a, y), Dot(b, y))
  {
    hide Mul;
    MulAddLeft(a[0], b[0], y[0], -1);
    MulAddLeft(a[1], b[1], y[1], -1);
    MulAddLeft(a[2], b[2], y[2], -1);
  }

  lemma DotAddRight(x: Vec, a: Vec, b: Vec)
    requires IsVec(a) && IsVec(b) && IsVec(x)
    ensures Dot(x, AddVec(a, b)) == Add(Dot(x, a), Dot(x, b))
  {
    hide Mul;
    MulAddRight(x[0], a[0], b[0], -1);
    MulAddRight(x[1], a[1], b[1], -1);
    MulAddRight(x[2], a[2], b[2], -1);
  }

  lemma DotCongruent(a: Vec, a': Vec, b: Vec, b': Vec)
    requires IsVec(a) && IsVec(a') && IsVec(b) && IsVec(b') && CongVec(a, a') && CongVec(b, b')
    ensures CongPoly(Dot(a, b), Dot(a', b'))
  {
    hide Mul, CongPoly, Add;
    CongSelf(-1);
    CongPolyMul(a[0], a'[0], b[0], b'[0], -1, -1);
    CongPolyMul(a[1], a'[1], b[1], b'[1], -1, -1);
    CongPolyMul(a[2], a'[2], b[2], b'[2], -1, -1);
    var p0, p1, p2 := Mul(a[0], b[0], -1), Mul(a[1], b[1], -1), Mul(a[2], b[2], -1);
    var q0, q1, q2 := Mul(a'[0], b'[0], -1), Mul(a'[1], b'[1], -1), Mul(a'[2], b'[2], -1);
    CongAdd(p0, q0, p1, q1);
    CongAdd(Add(p0, p1), Add(q0, q1), p2, q2);
  }

  /** One term of the exchange: (a s) y = s (a y). */
  lemma Exchange(a: Poly, s: Poly, y: Poly)
    requires |a| == |s| == |y| == 256
    ensures Mul(Mul(a, s, -1), y, -1) == Mul(s, Mul(a, y, -1), -1)
  {
    MulComm(a, s, -1);
    MulAssoc(s, a, y, -1);
  }

  lemma DotOfDot(r: Vec, s: Vec, y: Poly)
    requires IsVec(r) && IsVec(s) && |y| == 256
    ensures Mul(Dot(r, s), y, -1) == Add(Add(Mul(s[0], Mul(r[0], y, -1), -1),
      Mul(s[1], Mul(r[1], y, -1), -1)), Mul(s[2], Mul(r[2], y, -1), -1))
  {
    hide Mul, Add;
    var a, b, c := Mul(r[0], s[0], -1), Mul(r[1], s[1], -1), Mul(r[2], s[2], -1);
    MulAddLeft(Add(a, b), c, y, -1);
    MulAddLeft(a, b, y, -1);
    Exchange(r[0], s[0], y);
    Exchange(r[1], s[1], y);
    Exchange(r[2], s[2], y);
  }

  lemma MulOfDot(s: Poly, r: Vec, y: Vec)
    requires IsVec(r) && IsVec(y) && |s| == 256
    ensures Mul(s, Dot(r, y), -1) == Add(Add(Mul(s, Mul(r[0], y[0], -1), -1),
      Mul(s, Mul(r[1], y[1], -1), -1)), Mul(s, Mul(r[2], y[2], -1), -1))
  {
    hide Mul, Add;
    var a, b, c := Mul(r[0], y[0], -1), Mul(r[1], y[1], -1), Mul(r[2], y[2], -1);
    MulAddRight(s, Add(a, b), c, -1);
    MulAddRight(s, a, b, -1);
  }

  /** (A s) . y = s . (A^T y): the terms that cancel in decryption. */
  lemma Adjoint(h: Hash, rho: seq<Byte>, n: nat, s: Vec, y: Vec)
    requires EnoughAll(h, rho, n) && IsVec(s) && IsVec(y)
    ensures Dot(MatVec(h, rho, n, false, s), y) == Dot(s, MatVec(h, rho, n, true, y))
  {
    hide Mul, Add, Row, EnoughAll, FromNtt;
    var r0, r1, r2 := MatrixRow(h, rho, n, 0, false), MatrixRow(h, rho, n, 1, false), MatrixRow(h, rho, n, 2, false);
    var c0, c1, c2 := MatrixRow(h, rho, n, 0, true), MatrixRow(h, rho, n, 1, true), MatrixRow(h, rho, n, 2, true);
    ColumnIsRow(h, rho, n, 0);
    ColumnIsRow(h, rho, n, 1);
    ColumnIsRow(h, rho, n, 2);
    assert c0 == [r0[0], r1[0], r2[0]] && c1 == [r0[1], r1[1], r2[1]] && c2 == [r0[2], r1[2], r2[2]];
    DotOfDot(r0, s, y[0]);
    DotOfDot(r1, s, y[1]);
    DotOfDot(r2, s, y[2]);
    MulOfDot(s[0], c0, y);
    MulOfDot(s[1], c1, y);
    MulOfDot(s[2], c2, y);
    NineTerms(
      Mul(s[0], Mul(r0[0], y[0], -1), -1), Mul(s[1], Mul(r0[1], y[0], -1), -1), Mul(s[2], Mul(r0[2], y[0], -1), -1),
      Mul(s[0], Mul(r1[0], y[1], -1), -1), Mul(s[1], Mul(r1[1], y[1], -1), -1), Mul(s[2], Mul(r1[2], y[1], -1), -1),
      Mul(s[0], Mul(r2[0], y[2], -1), -1), Mul(s[1], Mul(r2[1], y[2], -1), -1), Mul(s[2], Mul(r2[2], y[2], -1), -1));
  }

  lemma ColumnIsRow(h: Hash, rho: seq<Byte>, n: nat, j: nat)
    requires EnoughAll(h, rho, n) && j < 3
    ensures MatrixRow(h, rho, n, j, true) == [MatrixRow(h, rho, n, 0, false)[j],
      MatrixRow(h, rho, n, 1, false)[j], MatrixRow(h, rho, n, 2, false)[j]]
  {
    hide FromNtt, Row, EnoughAll;
    EntryTransposed(h, rho, n, j, 0);
    EntryTransposed(h, rho, n, j, 1);
    EntryTransposed(h, rho, n, j, 2);
  }

  lemma NineTerms(a: Poly, b: Poly, c: Poly, d: Poly, e: Poly, f: Poly, g: Poly, i: Poly, j: Poly)
    requires |a| == |b| == |c| == |d| == |e| == |f| == |g| == |i| == |j|
    ensures Add(Add(Add(Add(a, b), c), Add(Add(d, e), f)), Add(Add(g, i), j))
         == Add(Add(Add(Add(a, d), g), Add(Add(b, e), i)), Add(Add(c, f), j))
  {}

  // ----- the noise ------------------------------------------------------------------------------

  /** e . y + e2 + c_v - s . (e1 + c_u), an integer polynomial. */
  function TotalNoise(h: Hash, d: seq<Byte>, m: seq<Byte>, coins: seq<Byte>, n: nat): (p: Poly)
    requires |m| == 32 && EnoughAll(h, Seeds(h, d)[..32], n)
    ensures |p| == 256
  {
    var y := NoiseVec(h, coins, 0);
    var cu := ErrorVec(CipherU(h, Seeds(h, d)[..32], coins, n));
    var cv := CompressionError(4, CipherV(h, KeyT(h, d, n), m, coins));
    Sub(Add(Add(Dot(KeyE(h, d), y), Noise(h, coins, 6)), cv),
        Dot(KeyS(h, d), AddVec(NoiseVec(h, coins, 3), cu)))
  }

  /** What the message bits become before the final rounding. */
  lemma CombineTerms(p1: Poly, p2: Poly, e2: Poly, mu: Poly, cv: Poly, p4: Poly, p5: Poly)
    requires |p1| == |p2| == |e2| == |mu| == |cv| == |p4| == |p5|
    ensures Sub(Add(Add(Add(Add(p1, p2), e2), mu), cv), Add(Add(p1, p4), p5))
         == Add(mu, Sub(Add(Add(p2, e2), cv), Add(p4, p5)))
  {}

  /** The polynomial that decryption rounds is the message plus the noise. */
  lemma DecryptedPoly(h: Hash, d: seq<Byte>, m: seq<Byte>, coins: seq<Byte>, n: nat, w: Poly, s: Vec)
    requires |m| == 32 && EnoughAll(h, Seeds(h, d)[..32], n) && IsVec(s) && CongVec(s, KeyS(h, d))
    requires w == Sub(Rounded(4, CipherV(h, KeyT(h, d, n), m, coins)),
      Dot(s, RoundedVec(CipherU(h, Seeds(h, d)[..32], coins, n))))
    ensures CongPoly(w, Add(Message(m), TotalNoise(h, d, m, coins, n)))
  {
    hide Dot, CongPoly, Add, Sub, Rounded, CompressionError, Message, Noise, NoiseVec, MatVec,
      EnoughAll, Seeds, RoundedVec, ErrorVec, AddVec, CongVec;
    var rho := Seeds(h, d)[..32];
    var s0, e, y, e1, e2 := KeyS(h, d), KeyE(h, d), NoiseVec(h, coins, 0), NoiseVec(h, coins, 3), Noise(h, coins, 6);
    var t, u, v := KeyT(h, d, n), CipherU(h, rho, coins, n), CipherV(h, KeyT(h, d, n), m, coins);
    var cu, cv := ErrorVec(u), CompressionError(4, v);
    var p1, p2 := Dot(MatVec(h, rho, n, false, s0), y), Dot(e, y);
    DotAddLeft(MatVec(h, rho, n, false, s0), e, y);
    Adjoint(h, rho, n, s0, y);
    DotAddRight(s0, MatVec(h, rho, n, true, y), e1);
    DotAddRight(s0, u, cu);
    DotAddRight(s0, e1, cu);
    RoundedVecCong(u);
    DotCongruent(s, s0, RoundedVec(u), AddVec(u, cu));
    ErrorIsDifference(4, v);
    CongSub(Rounded(4, v), Add(v, cv), Dot(s, RoundedVec(u)), Dot(s0, AddVec(u, cu)));
    CombineTerms(p1, p2, e2, Message(m), cv, Dot(s0, e1), Dot(s0, cu));
  }

  function RoundedVec(u: Vec): (r: Vec)
    requires IsVec(u)
    ensures IsVec(r)
  {
    [Rounded(10, u[0]), Rounded(10, u[1]), Rounded(10, u[2])]
  }

  lemma RoundedVecCong(u: Vec)
    requires IsVec(u)
    ensures CongVec(RoundedVec(u), AddVec(u, ErrorVec(u)))
  {
    hide CongPoly, Add, Rounded, CompressionError;
    ErrorIsDifference(10, u[0]);
    ErrorIsDifference(10, u[1]);
    ErrorIsDifference(10, u[2]);
  }

  // ----- rounding to the message -----------------------------------------------------------------

  lemma CenterShifted(c: int)
    requires -1664 <= c <= 1664
    ensures Center(1665 + c) == if c <= -1 then 1665 + c else c - 1664
    ensures Center(c) == c
  {}

  /** A message bit survives noise x exactly when the centred noise is at least -832
      and at most 832 for a zero bit, 831 for a one bit. */
  lemma BitSurvives(b: Bit, x: int)
    ensures Round(1, (1665 * b + x) % 3329) == b <==> -832 <= Center(x) <= 832 - b
  {
    hide Round, Center, Cong;
    var c := Center(x);
    var y := 1665 * b + x;
    CongSelf(1665 * b);
    CongSum(1665 * b, 1665 * b, c, x);
    CenterUnique(1665 * b + c, y);
    CenterShifted(c);
    Round1(Center(y));
    SameResidue(Center(y), y);
  }

  /** The condition under which every message bit survives. */
  ghost predicate NoiseFits(noise: Poly, m: seq<Byte>)
    requires |noise| == 256 && |m| == 32
  {
    && |ByteDecode(1, m)| == 256
    && forall i :: 0 <= i < 256 ==> -832 <= Center(noise[i]) <= 832 - ByteDecode(1, m)[i]
  }

  lemma RoundedMessage(m: seq<Byte>, w: Poly, noise: Poly)
    requires |m| == 32 && |w| == |noise| == 256 && CongPoly(w, Add(Message(m), noise))
    ensures |ByteDecode(1, m)| == 256
    ensures RoundPoly(1, w) == ByteDecode(1, m) <==> NoiseFits(noise, m)
  {
    hide Round, Center, ByteDecode, CongPoly;
    DecodeLength(1, m, 256);
    var bits := ByteDecode(1, m);
    var r := RoundPoly(1, Add(Message(m), noise));
    RoundCong(1, w, Add(Message(m), noise));
    Powers();
    forall i | 0 <= i < 256
      ensures r[i] == bits[i] <==> -832 <= Center(noise[i]) <= 832 - bits[i]
    {
      assert 0 <= bits[i] < 2;
      BitSurvives(bits[i], noise[i]);
      assert r[i] == Round(1, (1665 * bits[i] + noise[i]) % 3329);
    }
  }

  lemma EncodeBits(m: seq<Byte>, r: seq<nat>)
    requires |m| == 32 && |r| == 256 && forall i :: 0 <= i < 256 ==> r[i] < 2
    ensures ByteEncode(1, r) == m <==> r == ByteDecode(1, m)
  {
    hide ByteEncode, ByteDecode;
    Powers();
    EncodeDecode(1, m, 256);
    DecodeEncode(1, r, 32);
  }

  /** Decryption returns the message if and only if the noise fits, for every key
      seed, message and coins. */
  lemma DecryptionCorrect(h: Hash, d: seq<Byte>, m: seq<Byte>, coins: seq<Byte>, n: nat)
    requires |m| == 32 && EnoughAll(h, Seeds(h, d)[..32], n)
    ensures Decryption(Encryption(h, m, PublicKey(h, d, n), coins, n), SecretKey(h, d)) == m
      <==> NoiseFits(TotalNoise(h, d, m, coins, n), m)
  {
    hide Dot, CongPoly, Add, Sub, Rounded, Message, NoiseVec, Noise, EnoughAll, KeyT, KeyS, CipherU, RoundedVec,
      EncodeVec12, DecodeVec12, ToNttVec, FromNttVec, ByteEncode, ByteDecode, RoundPoly, PackCipher, UnpackU,
      UnpackV, TotalNoise, CongVec, NoiseFits, CipherV;
    var rho := Seeds(h, d)[..32];
    var t := KeyT(h, d, n);
    KeyReadBack(t);
    KeyReadBack(KeyS(h, d));
    var pk, sk := PublicKey(h, d, n), SecretKey(h, d);
    assert pk[..1152] == EncodeVec12(ToNttVec(t)) && pk[1152..] == rho;
    var t', s' := FromNttVec(DecodeVec12(pk[..1152])), FromNttVec(DecodeVec12(sk));
    var u, v, v' := CipherU(h, rho, coins, n), CipherV(h, t, m, coins), CipherV(h, t', m, coins);
    SameCipher(h, t', t, u, m, coins);
    UnpackPack(u, v);
    RoundedVecIs(u);
    var w := Sub(Rounded(4, v), Dot(s', RoundedVec(u)));
    DecryptedPoly(h, d, m, coins, n, w, s');
    RoundedMessage(m, w, TotalNoise(h, d, m, coins, n));
    RoundBits(w);
    EncodeBits(m, RoundPoly(1, w));
  }

  lemma RoundBits(w: Poly)
    ensures |RoundPoly(1, w)| == |w| && forall i :: 0 <= i < |w| ==> RoundPoly(1, w)[i] < 2
  {
    Powers();
  }

  lemma RoundedVecIs(u: Vec)
    requires IsVec(u)
    ensures RoundedVec(u) == [Rounded(10, u[0]), Rounded(10, u[1]), Rounded(10, u[2])]
  {}

  lemma SameCipher(h: Hash, t': Vec, t: Vec, u: Vec, m: seq<Byte>, coins: seq<Byte>)
    requires IsVec(t') && IsVec(t) && IsVec(u) && CongVec(t', t) && |m| == 32
    ensures PackCipher(u, CipherV(h, t', m, coins)) == PackCipher(u, CipherV(h, t, m, coins))
  {
    hide Dot, CongPoly, Add, Message, NoiseVec, Noise, PackCipher;
    var y, e2, mu := NoiseVec(h, coins, 0), Noise(h, coins, 6), Message(m);
    CongReflexive(y[0]);
    CongReflexive(y[1]);
    CongReflexive(y[2]);
    DotCongruent(t', t, y, y);
    CongReflexive(e2);
    CongAdd(Dot(t', y), Dot(t, y), e2, e2);
    CongReflexive(mu);
    CongAdd(Add(Dot(t', y), e2), Add(Dot(t, y), e2), mu, mu);
    CongReflexive(u[0]);
    CongReflexive(u[1]);
    CongReflexive(u[2]);
    PackCong(u, CipherV(h, t', m, coins), u, CipherV(h, t, m, coins));
  }

  /** Noise below 832 in absolute value never spoils a message. */
  lemma SmallNoiseDecrypts(h: Hash, d: seq<Byte>, m: seq<Byte>, coins: seq<Byte>, n: nat)
    requires |m| == 32 && EnoughAll(h, Seeds(h, d)[..32], n)
    requires Within(TotalNoise(h, d, m, coins, n), -831, 831)
    ensures Decryption(Encryption(h, m, PublicKey(h, d, n), coins, n), SecretKey(h, d)) == m
  {
    hide TotalNoise, PublicKey, SecretKey, Encryption, Decryption, EnoughAll, ByteDecode;
    DecryptionCorrect(h, d, m, coins, n);
    var noise := TotalNoise(h, d, m, coins, n);
    DecodeLength(1, m, 256);
    Powers();
    forall i | 0 <= i < 256 ensures -832 <= Center(noise[i]) <= 832 - ByteDecode(1, m)[i] {
      CongSelf(noise[i]);
      CenterUnique(noise[i], noise[i]);
    }
  }
}
