/** The public-key scheme of indcpa.c against K-PKE of section 5 of FIPS 203, with
    polynomial arithmetic in Z_q[X]/(X^256 + 1) as the reference. */
module Kpke {
  import opened Bits
  import opened Zq
  import opened Ring
  import opened NttTree
  import opened Compress
  import opened PolyBytes
  import opened PolyArith
  import opened Sample

  // ----- the scheme ---------------------------------------------------------------------

  /** poly_getnoise_eta1 and poly_getnoise_eta2. */
  function Noise(h: Hash, seed: seq<Byte>, nonce: Byte): (p: Poly)
    ensures |p| == 256 && Within(p, -2, 2)
  {
    Cbd(Digest(h, Shake256, seed + [nonce], 128))
  }

  function NoiseVec(h: Hash, seed: seq<Byte>, nonce: nat): (v: Vec)
    requires nonce <= 253
    ensures IsVec(v) && VecWithin(v, -2, 2)
  {
    [Noise(h, seed, nonce), Noise(h, seed, nonce + 1), Noise(h, seed, nonce + 2)]
  }

  function FromNttVec(f: Vec): (x: Vec)
    requires IsVec(f)
    ensures IsVec(x)
  {
    [FromNtt(f[0]), FromNtt(f[1]), FromNtt(f[2])]
  }

  function ToNttVec(x: Vec): (f: Vec)
    requires IsVec(x)
    ensures IsVec(f)
  {
    [ToNtt(x[0]), ToNtt(x[1]), ToNtt(x[2])]
  }

  /** Row i of the public matrix, as polynomials. */
  function MatrixRow(h: Hash, rho: seq<Byte>, n: nat, i: nat, transposed: bool): (x: Vec)
    requires EnoughAll(h, rho, n) && i < 3
    ensures IsVec(x)
  {
    FromNttVec(Row(h, rho, n, i, transposed))
  }

  /** The matrix times a vector. */
  function MatVec(h: Hash, rho: seq<Byte>, n: nat, transposed: bool, s: Vec): (t: Vec)
    requires EnoughAll(h, rho, n) && IsVec(s)
    ensures IsVec(t)
  {
    [Dot(MatrixRow(h, rho, n, 0, transposed), s),
     Dot(MatrixRow(h, rho, n, 1, transposed), s),
     Dot(MatrixRow(h, rho, n, 2, transposed), s)]
  }

  function AddVec(a: Vec, b: Vec): (c: Vec)
    requires IsVec(a) && IsVec(b)
    ensures IsVec(c)
  {
    [Add(a[0], b[0]), Add(a[1], b[1]), Add(a[2], b[2])]
  }

  function NatPoly(p: Poly): seq<nat>
    requires forall i :: 0 <= i < |p| ==> p[i] >= 0
  {
    p
  }

  function EncodeVec12(f: Vec): (b: seq<Byte>)
    requires IsVec(f)
    ensures |b| == 1152
  {
    EncodeLength(12, NatPoly(Canon(f[0])), 384);
    EncodeLength(12, NatPoly(Canon(f[1])), 384);
    EncodeLength(12, NatPoly(Canon(f[2])), 384);
    ByteEncode(12, NatPoly(Canon(f[0]))) + ByteEncode(12, NatPoly(Canon(f[1])))
    + ByteEncode(12, NatPoly(Canon(f[2])))
  }

  /** Three polynomials from 384 bytes each. */
  function DecodeVec12(b: seq<Byte>): (f: Vec)
    requires |b| == 1152
    ensures IsVec(f)
  {
    DecodeLength(12, b[..384], 256);
    DecodeLength(12, b[384..768], 256);
    DecodeLength(12, b[768..], 256);
    [ByteDecode(12, b[..384]), ByteDecode(12, b[384..768]), ByteDecode(12, b[768..])]
  }

  lemma DecodeLength(d: nat, b: seq<Byte>, k: nat)
    requires d > 0 && 8 * |b| == k * d
    ensures |ByteDecode(d, b)| == k
  {
    EncodeDecode(d, b, k);
  }

  /** The seeds (rho, sigma) of key generation. */
  function Seeds(h: Hash, d: seq<Byte>): (s: seq<Byte>)
    ensures |s| == 64
  {
    Digest(h, Sha3x512, d + [3], 64)
  }

  function KeyS(h: Hash, d: seq<Byte>): (s: Vec)
    ensures IsVec(s) && VecWithin(s, -2, 2)
  {
    NoiseVec(h, Seeds(h, d)[32..], 0)
  }

  function KeyE(h: Hash, d: seq<Byte>): (e: Vec)
    ensures IsVec(e) && VecWithin(e, -2, 2)
  {
    NoiseVec(h, Seeds(h, d)[32..], 3)
  }

  /** t = A s + e. */
  function KeyT(h: Hash, d: seq<Byte>, n: nat): (t: Vec)
    requires EnoughAll(h, Seeds(h, d)[..32], n)
    ensures IsVec(t)
  {
    AddVec(MatVec(h, Seeds(h, d)[..32], n, false, KeyS(h, d)), KeyE(h, d))
  }

  function PublicKey(h: Hash, d: seq<Byte>, n: nat): (pk: seq<Byte>)
    requires EnoughAll(h, Seeds(h, d)[..32], n)
    ensures |pk| == 1184 && pk[1152..] == Seeds(h, d)[..32]
  {
    EncodeVec12(ToNttVec(KeyT(h, d, n))) + Seeds(h, d)[..32]
  }

  function SecretKey(h: Hash, d: seq<Byte>): (sk: seq<Byte>)
    ensures |sk| == 1152
  {
    EncodeVec12(ToNttVec(KeyS(h, d)))
  }

  function Message(m: seq<Byte>): (p: Poly)
    requires |m| == 32
    ensures |p| == 256
  {
    DecodeLength(1, m, 256);
    Scale(1665, ByteDecode(1, m))
  }

  /** u = A^T y + e1. */
  function CipherU(h: Hash, rho: seq<Byte>, coins: seq<Byte>, n: nat): (u: Vec)
    requires EnoughAll(h, rho, n)
    ensures IsVec(u)
  {
    AddVec(MatVec(h, rho, n, true, NoiseVec(h, coins, 0)), NoiseVec(h, coins, 3))
  }

  /** v = t . y + e2 + message. */
  function CipherV(h: Hash, t: Vec, m: seq<Byte>, coins: seq<Byte>): (v: Poly)
    requires IsVec(t) && |m| == 32
    ensures |v| == 256
  {
    Add(Add(Dot(t, NoiseVec(h, coins, 0)), Noise(h, coins, 6)), Message(m))
  }

  function PackCipher(u: Vec, v: Poly): (c: seq<Byte>)
    requires IsVec(u) && |v| == 256
    ensures |c| == 1088
  {
    EncodeLength(10, RoundPoly(10, u[0]), 320);
    EncodeLength(10, RoundPoly(10, u[1]), 320);
    EncodeLength(10, RoundPoly(10, u[2]), 320);
    EncodeLength(4, RoundPoly(4, v), 128);
    ByteEncode(10, RoundPoly(10, u[0])) + ByteEncode(10, RoundPoly(10, u[1]))
    + ByteEncode(10, RoundPoly(10, u[2])) + ByteEncode(4, RoundPoly(4, v))
  }

  /** K-PKE.Encrypt. */
  function Encryption(h: Hash, m: seq<Byte>, pk: seq<Byte>, coins: seq<Byte>, n: nat): (c: seq<Byte>)
    requires |m| == 32 && |pk| == 1184 && EnoughAll(h, pk[1152..], n)
    ensures |c| == 1088
  {
    PackCipher(CipherU(h, pk[1152..], coins, n),
               CipherV(h, FromNttVec(DecodeVec12(pk[..1152])), m, coins))
  }

  function UnpackU(c: seq<Byte>): (u: Vec)
    requires |c| == 1088
    ensures IsVec(u)
  {
    DecodeLength(10, c[..320], 256);
    DecodeLength(10, c[320..640], 256);
    DecodeLength(10, c[640..960], 256);
    [ExpandPoly(10, ByteDecode(10, c[..320])), ExpandPoly(10, ByteDecode(10, c[320..640])),
     ExpandPoly(10, ByteDecode(10, c[640..960]))]
  }

  function UnpackV(c: seq<Byte>): (v: Poly)
    requires |c| == 1088
    ensures |v| == 256
  {
    DecodeLength(4, c[960..], 256);
    ExpandPoly(4, ByteDecode(4, c[960..]))
  }

  /** K-PKE.Decrypt. */
  function Decryption(c: seq<Byte>, sk: seq<Byte>): (m: seq<Byte>)
    requires |c| == 1088 && |sk| == 1152
    ensures |m| == 32
  {
    var w := RoundPoly(1, Sub(UnpackV(c), Dot(FromNttVec(DecodeVec12(sk)), UnpackU(c))));
    EncodeLength(1, w, 32);
    ByteEncode(1, w)
  }

  // ----- congruence carries over to bytes --------------------------------------------------

  ghost predicate CongVec(a: Vec, b: Vec)
    requires IsVec(a) && IsVec(b)
  {
    CongPoly(a[0], b[0]) && CongPoly(a[1], b[1]) && CongPoly(a[2], b[2])
  }

  lemma RoundCong(d: nat, a: Poly, b: Poly)
    requires CongPoly(a, b)
    ensures RoundPoly(d, a) == RoundPoly(d, b)
  {
    hide Round;
    forall i | 0 <= i < |a| ensures a[i] % 3329 == b[i] % 3329 {
      SameResidue(a[i], b[i]);
    }
  }

  lemma SameResidue(x: int, y: int)
    requires Cong(x, y)
    ensures x % 3329 == y % 3329
  {
    var k := CongQuotient(x, y);
    RemainderUnique(x, k + y / 3329, y % 3329);
  }

  lemma CanonCong(a: Poly, b: Poly)
    requires CongPoly(a, b)
    ensures Canon(a) == Canon(b)
  {
    forall i | 0 <= i < |a| ensures a[i] % 3329 == b[i] % 3329 {
      SameResidue(a[i], b[i]);
    }
  }

  lemma LiftIsCanon(a: Poly)
    requires Within(a, -1664, 1664)
    ensures forall i :: 0 <= i < |a| ==> -3329 <= a[i] < 4096
    ensures LiftPoly(a) == Canon(a)
  {
    hide Lift, Canon;
    forall i | 0 <= i < |a| ensures Lift(a[i]) == a[i] % 3329 {
      LiftSmall(a[i]);
    }
  }

  /** p is the reduced form of u. */
  ghost predicate Reduced(p: Poly, u: Poly) {
    |p| == |u| == 256 && CongPoly(p, u) && Within(p, -1664, 1664)
  }

  /** f is the reduced transform of a. */
  ghost predicate Transformed(f: Poly, a: Poly) {
    |f| == |a| == 256 && IsNtt(f, a) && Within(f, -1664, 1664)
  }

  // ----- vectors in the code -------------------------------------------------------------------

  method NttVec(v: Vec) returns (f: Vec)
    requires IsVec(v) && VecWithin(v, -9471, 9471)
    ensures IsVec(f) && IsVecNtt(f, v) && VecWithin(f, -1664, 1664)
  {
    hide IsNtt, Within;
    f := [];
    var i := 0;
    while i < 3
      invariant 0 <= i <= 3 && |f| == i
      invariant forall k :: 0 <= k < i ==> Transformed(f[k], v[k])
    {
      var p := NttOf(v[i]);
      f := f + [p];
      i := i + 1;
    }
  }

  method VecToBytes(f: Vec) returns (r: seq<Byte>)
    requires IsVec(f) && VecWithin(f, -1664, 1664)
    ensures r == EncodeVec12(f)
  {
    hide ByteEncode, Canon, LiftPoly;
    r := [];
    var i := 0;
    while i < 3
      invariant 0 <= i <= 3
      invariant r == PrefixBytes12(f, i)
    {
      LiftIsCanon(f[i]);
      var b := PolyToBytes(f[i]);
      r := r + b;
      i := i + 1;
    }
    PrefixAll12(f);
  }

  lemma PrefixAll12(f: Vec)
    requires IsVec(f)
    ensures PrefixBytes12(f, 3) == EncodeVec12(f)
  {
    hide ByteEncode, Canon;
    var b := ByteEncode(12, NatPoly(Canon(f[0])));
    assert PrefixBytes12(f, 1) == [] + b == b;
    assert PrefixBytes12(f, 2) == b + ByteEncode(12, NatPoly(Canon(f[1])));
  }

  function PrefixBytes12(f: Vec, i: nat): seq<Byte>
    requires IsVec(f) && i <= 3
  {
    if i == 0 then [] else PrefixBytes12(f, i - 1) + ByteEncode(12, NatPoly(Canon(f[i - 1])))
  }

  method VecFromBytes(b: seq<Byte>) returns (f: Vec)
    requires |b| == 1152
    ensures f == DecodeVec12(b) && VecWithin(f, 0, 4095)
  {
    hide ByteDecode;
    f := [];
    var i := 0;
    while i < 3
      invariant 0 <= i <= 3 && |f| == i
      invariant forall k :: 0 <= k < i ==>
        f[k] == ByteDecode(12, b[384 * k..384 * k + 384]) && |f[k]| == 256 && Within(f[k], 0, 4095)
    {
      var p := PolyFromBytes(b[384 * i..384 * i + 384]);
      f := f + [p];
      i := i + 1;
    }
    assert b[768..1152] == b[768..];
  }

  method GetNoise(h: Hash, seed: seq<Byte>, nonce: Byte) returns (p: Poly)
    ensures p == Noise(h, seed, nonce)
  {
    p := Cbd2(Digest(h, Shake256, seed + [nonce], 128));
  }

  method GetNoiseVec(h: Hash, seed: seq<Byte>, first: nat) returns (v: Vec, nonce: nat)
    requires first <= 253
    ensures v == NoiseVec(h, seed, first) && nonce == first + 3
  {
    hide Noise;
    v := [];
    nonce := first;
    var i := 0;
    while i < 3
      invariant 0 <= i <= 3 && |v| == i && nonce == first + i
      invariant forall k :: 0 <= k < i ==> v[k] == Noise(h, seed, first + k)
    {
      var p := GetNoise(h, seed, nonce);
      v := v + [p];
      nonce := nonce + 1;
      i := i + 1;
    }
  }

  lemma FromNttVecIs(f: Vec)
    requires IsVec(f)
    ensures IsVecNtt(f, FromNttVec(f))
  {
    hide FromNtt, IsNtt;
    FromNttIsInverse(f[0]);
    FromNttIsInverse(f[1]);
    FromNttIsInverse(f[2]);
  }

  // ----- key generation --------------------------------------------------------------------------

  /** One component of t = A s + e in the transform domain. */
  method KeyComponent(row: Vec, skpv: Vec, e: Poly, ghost s: Vec, ghost e0: Poly) returns (t: Poly)
    requires IsVec(row) && IsVec(skpv) && IsVec(s) && |e| == |e0| == 256
    requires VecWithin(row, 0, 3328) && VecWithin(skpv, -1664, 1664) && Within(e, -1664, 1664)
    requires IsVecNtt(skpv, s) && IsNtt(e, e0)
    ensures |t| == 256 && Within(t, -1664, 1664)
    ensures IsNtt(t, Add(Dot(FromNttVec(row), s), e0))
  {
    hide IsNtt, Dot, FromNttVec, Cong, PairDot, IsVecNtt, Add;
    var f := BaseMulAcc(row, skpv);
    ghost var x := FromNttVec(row);
    FromNttVecIs(row);
    AccIsNtt(f, row, x, skpv, s);
    var g := ToMont(f);
    UnscaleNtt(f, g, Dot(x, s));
    var sum := AddOf(g, e);
    AddNtt(g, Dot(x, s), e, e0);
    SumWithin(g, e, 3328, 1664);
    t := ReduceOf(sum);
    CenterKeepsNtt(sum, Add(Dot(x, s), e0));
    CenterPolyCong(sum);
  }

  lemma SumWithin(a: Poly, b: Poly, x: int, y: int)
    requires |a| == |b| && Within(a, -x, x) && Within(b, -y, y)
    ensures Within(Add(a, b), -(x + y), x + y)
  {}

  lemma UnscaleNtt(f: Poly, g: Poly, a: Poly)
    requires |f| == |g| == |a| == 256 && IsNtt(Scale(65536, f), a)
    requires forall i :: 0 <= i < 256 ==> Cong(g[i], 65536 * f[i])
    ensures IsNtt(g, a)
  {
    hide Cong, Leaf;
    forall i | 0 <= i < 256 ensures Cong(g[i], Leaf(a, i)) {
      assert Cong(Scale(65536, f)[i], Leaf(a, i));
      CongTrans(g[i], 65536 * f[i], Leaf(a, i));
    }
  }

  lemma AddNtt(f: Poly, a: Poly, g: Poly, b: Poly)
    requires |f| == |a| == |g| == |b| == 256 && IsNtt(f, a) && IsNtt(g, b)
    ensures IsNtt(Add(f, g), Add(a, b))
  {
    hide Cong, Leaf;
    forall i | 0 <= i < 256 ensures Cong(Add(f, g)[i], Leaf(Add(a, b), i)) {
      LeafAdd(a, b, i);
      CongSum(f[i], Leaf(a, i), g[i], Leaf(b, i));
    }
  }

  lemma CenterKeepsNtt(f: Poly, a: Poly)
    requires |f| == |a| == 256 && IsNtt(f, a)
    ensures IsNtt(CenterPoly(f), a)
  {
    hide IsNtt, Center;
    CongNtt(f, CenterPoly(f), a);
  }

  lemma NttBytes(f: Poly, a: Poly)
    requires |f| == |a| == 256 && IsNtt(f, a)
    ensures Canon(f) == Canon(ToNtt(a))
  {
    hide Cong, Leaf, Canon;
    ToNttIsNtt(a);
    var g := ToNtt(a);
    forall i | 0 <= i < 256 ensures Cong(f[i], g[i]) {
      CongSym(g[i], Leaf(a, i));
      CongTrans(f[i], Leaf(a, i), g[i]);
    }
    CanonCong(f, g);
  }

  lemma VecBytes(f: Vec, x: Vec)
    requires IsVec(f) && IsVec(x) && IsVecNtt(f, x)
    ensures EncodeVec12(f) == EncodeVec12(ToNttVec(x))
  {
    hide IsNtt, Canon, ToNtt, ByteEncode;
    NttBytes(f[0], x[0]);
    NttBytes(f[1], x[1]);
    NttBytes(f[2], x[2]);
  }

  lemma RowWithin(h: Hash, rho: seq<Byte>, n: nat, i: nat, transposed: bool)
    requires EnoughAll(h, rho, n) && i < 3
    ensures VecWithin(Row(h, rho, n, i, transposed), 0, 3328)
  {
    hide Entry;
  }

  /** indcpa_keypair_derand: the keys of K-PKE.KeyGen. */
  method KeyPair(h: Hash, coins: seq<Byte>, ghost n: nat) returns (pk: seq<Byte>, sk: seq<Byte>)
    requires |coins| == 32 && EnoughAll(h, Seeds(h, coins)[..32], n)
    ensures pk == PublicKey(h, coins, n)
    ensures sk == SecretKey(h, coins)
  {
    hide IsNtt, Dot, Row, EncodeVec12, Noise, EnoughAll, FromNttVec, Within;
    var buf := Digest(h, Sha3x512, coins + [3], 64);
    var publicseed, noiseseed := buf[..32], buf[32..];
    var a := GenMatrix(h, publicseed, false, n);
    var s, nonce := GetNoiseVec(h, noiseseed, 0);
    var e;
    e, nonce := GetNoiseVec(h, noiseseed, nonce);
    VecWiden(s, 2, 9471);
    VecWiden(e, 2, 9471);
    var skpv := NttVec(s);
    var ehat := NttVec(e);
    ghost var t := KeyT(h, coins, n);
    var pkpv: Vec := [];
    var i := 0;
    while i < 3
      invariant 0 <= i <= 3 && |pkpv| == i
      invariant forall k :: 0 <= k < i ==> Transformed(pkpv[k], t[k])
    {
      RowWithin(h, publicseed, n, i, false);
      var p := KeyComponent(a[i], skpv, ehat[i], s, e[i]);
      pkpv := pkpv + [p];
      i := i + 1;
    }
    VecBytes(pkpv, t);
    VecBytes(skpv, s);
    sk := VecToBytes(skpv);
    pk := VecToBytes(pkpv);
    pk := pk + publicseed;
  }

  lemma VecWiden(v: Vec, b: int, c: int)
    requires IsVec(v) && VecWithin(v, -b, b) && b <= c
    ensures VecWithin(v, -c, c)
  {}

  // ----- encryption --------------------------------------------------------------------------------

  /** A product carried back from the transform domain. */
  method Product(f: Vec, g: Vec, ghost y: Vec) returns (p: Poly)
    requires IsVec(f) && IsVec(g) && IsVec(y)
    requires VecWithin(f, 0, 4095) && VecWithin(g, -1664, 1664) && IsVecNtt(g, y)
    ensures |p| == 256 && Within(p, -3328, 3328) && CongPoly(p, Dot(FromNttVec(f), y))
  {
    hide IsNtt, Dot, FromNttVec, Cong, PairDot, IsVecNtt, Inv, Scale, CongPoly;
    var a := BaseMulAcc(f, g);
    FromNttVecIs(f);
    AccIsNtt(a, f, FromNttVec(f), g, y);
    p := InverseOf(a);
    InverseOfProduct(a, p, Dot(FromNttVec(f), y));
  }

  /** poly_add of a small polynomial. */
  method AddSmall(p: Poly, e: Poly, ghost u: Poly) returns (s: Poly)
    requires |p| == |e| == 256 && Within(p, -10000, 10000) && Within(e, -1665, 1665) && CongPoly(p, u)
    ensures |s| == 256 && Within(s, -11665, 11665) && CongPoly(s, Add(u, e))
  {
    hide CongPoly, Add;
    s := AddOf(p, e);
    SumWithin(p, e, 10000, 1665);
    CongReflexive(e);
    CongAdd(p, u, e, e);
  }

  /** pack_ciphertext. */
  method PackCiphertext(b: Vec, v: Poly) returns (c: seq<Byte>)
    requires IsVec(b) && |v| == 256 && VecWithin(b, -1664, 1664) && Within(v, -1664, 1664)
    ensures c == PackCipher(b, v)
  {
    hide ByteEncode, RoundPoly;
    var c0 := PolyCompress10(b[0]);
    var c1 := PolyCompress10(b[1]);
    var c2 := PolyCompress10(b[2]);
    var c3 := PolyCompress(v);
    c := c0 + c1 + c2 + c3;
  }

  lemma PackCong(b: Vec, v: Poly, u: Vec, w: Poly)
    requires IsVec(b) && IsVec(u) && |v| == |w| == 256 && CongVec(b, u) && CongPoly(v, w)
    ensures PackCipher(b, v) == PackCipher(u, w)
  {
    hide ByteEncode, RoundPoly, CongPoly;
    RoundCong(10, b[0], u[0]);
    RoundCong(10, b[1], u[1]);
    RoundCong(10, b[2], u[2]);
    RoundCong(4, v, w);
  }

  /** indcpa_enc: the ciphertext of K-PKE.Encrypt. */
  method Encrypt(h: Hash, m: seq<Byte>, pk: seq<Byte>, coins: seq<Byte>, ghost n: nat)
      returns (c: seq<Byte>)
    requires |m| == 32 && |pk| == 1184 && EnoughAll(h, pk[1152..], n)
    ensures c == Encryption(h, m, pk, coins, n)
  {
    hide IsNtt, Dot, Row, DecodeVec12, Noise, EnoughAll, FromNttVec, PackCipher, CongPoly, ByteDecode;
    var pkpv := VecFromBytes(pk[..1152]);
    var seed := pk[1152..];
    var k := PolyFromMsg(m);
    var at := GenMatrix(h, seed, true, n);
    var sp, nonce := GetNoiseVec(h, coins, 0);
    var ep;
    ep, nonce := GetNoiseVec(h, coins, nonce);
    var epp := GetNoise(h, coins, nonce);
    VecWiden(sp, 2, 9471);
    var sphat := NttVec(sp);
    ghost var u, w := CipherU(h, seed, coins, n), CipherV(h, FromNttVec(pkpv), m, coins);
    var b: Vec := [];
    var i := 0;
    while i < 3
      invariant 0 <= i <= 3 && |b| == i
      invariant forall j :: 0 <= j < i ==> Reduced(b[j], u[j])
    {
      RowWithin(h, seed, n, i, true);
      WidenUp(at[i]);
      var p := Product(at[i], sphat, sp);
      Widen(p, 3328, 10000);
      Widen(ep[i], 2, 1665);
      p := AddSmall(p, ep[i], Dot(FromNttVec(at[i]), sp));
      var r := ReducedTo(p, u[i]);
      b := b + [r];
      i := i + 1;
    }
    var v := Product(pkpv, sphat, sp);
    ghost var x := Dot(FromNttVec(pkpv), sp);
    Widen(v, 3328, 10000);
    Widen(epp, 2, 1665);
    v := AddNoiseMessage(v, epp, k, x);
    var vr := ReducedTo(v, w);
    c := PackCiphertext(b, vr);
    PackCong(b, vr, u, w);
  }

  lemma WidenUp(v: Vec)
    requires IsVec(v) && VecWithin(v, 0, 3328)
    ensures VecWithin(v, 0, 4095)
  {}

  /** poly_reduce of something congruent to u. */
  method ReducedTo(p: Poly, ghost u: Poly) returns (r: Poly)
    requires |p| == 256 && Within(p, -11665, 11665) && CongPoly(p, u)
    ensures |r| == 256 && CongPoly(r, u) && Within(r, -1664, 1664)
  {
    hide CongPoly, CenterPoly;
    assert Within(p, -32768, 32767);
    r := ReduceOf(p);
    CenterPolyCong(p);
    CongTransitive(r, p, u);
  }

  method AddNoiseMessage(v: Poly, epp: Poly, k: Poly, ghost x: Poly) returns (s: Poly)
    requires |v| == |epp| == |k| == |x| == 256 && Within(v, -3328, 3328) && Within(epp, -2, 2)
    requires CongPoly(v, x) && forall i :: 0 <= i < 256 ==> k[i] == 0 || k[i] == 1665
    ensures |s| == 256 && Within(s, -11665, 11665) && CongPoly(s, Add(Add(x, epp), k))
  {
    hide CongPoly, Add;
    var t := AddOf(v, epp);
    SumWithin(v, epp, 3328, 2);
    CongReflexive(epp);
    CongAdd(v, x, epp, epp);
    Widen(t, 3330, 10000);
    s := AddSmall(t, k, Add(x, epp));
  }

  lemma Widen(p: Poly, b: int, c: int)
    requires Within(p, -b, b) && b <= c
    ensures Within(p, -c, c)
  {}

  // ----- decryption --------------------------------------------------------------------------------

  lemma CongSub(p: Poly, p': Poly, r: Poly, r': Poly)
    requires CongPoly(p, p') && CongPoly(r, r') && |p| == |r|
    ensures CongPoly(Sub(p, r), Sub(p', r'))
  {
    hide Cong;
    forall i | 0 <= i < |p| ensures Cong(Sub(p, r)[i], Sub(p', r')[i]) {
      CongNeg(r[i], r'[i]);
      CongSum(p[i], p'[i], -r[i], -r'[i]);
    }
  }

  /** unpack_ciphertext. */
  method UnpackCiphertext(c: seq<Byte>) returns (b: Vec, v: Poly)
    requires |c| == 1088
    ensures b == UnpackU(c) && v == UnpackV(c)
    ensures VecWithin(b, 0, 3328) && Within(v, 0, 3328)
  {
    hide ByteDecode, ExpandPoly;
    var b0 := PolyDecompress10(c[..320]);
    var b1 := PolyDecompress10(c[320..640]);
    var b2 := PolyDecompress10(c[640..960]);
    b := [b0, b1, b2];
    v := PolyDecompress(c[960..]);
  }

  /** indcpa_dec: the message of K-PKE.Decrypt. */
  method Decrypt(c: seq<Byte>, sk: seq<Byte>) returns (m: seq<Byte>)
    requires |c| == 1088 && |sk| == 1152
    ensures m == Decryption(c, sk)
  {
    hide IsNtt, Dot, DecodeVec12, UnpackU, UnpackV, FromNttVec, CongPoly, ByteEncode, RoundPoly, Sub, ByteDecode;
    var b, v := UnpackCiphertext(c);
    var skpv := VecFromBytes(sk);
    WidenBoth(b);
    var bhat := NttVec(b);
    var p := Product(skpv, bhat, b);
    ghost var x := Dot(FromNttVec(skpv), b);
    var d := Difference(v, p, x);
    var mp := ReducedTo(d, Sub(v, x));
    m := PolyToMsg(mp);
    RoundCong(1, mp, Sub(v, x));
  }

  lemma WidenBoth(v: Vec)
    requires IsVec(v) && VecWithin(v, 0, 3328)
    ensures VecWithin(v, -9471, 9471)
  {}

  method Difference(v: Poly, p: Poly, ghost x: Poly) returns (d: Poly)
    requires |v| == |p| == |x| == 256 && Within(v, 0, 3328) && Within(p, -3328, 3328) && CongPoly(p, x)
    ensures |d| == 256 && Within(d, -11665, 11665) && CongPoly(d, Sub(v, x))
  {
    d := SubOf(v, p);
    CongReflexive(v);
    CongSub(v, v, p, x);
  }
}
