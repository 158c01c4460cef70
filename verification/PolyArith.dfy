/** Polynomial arithmetic of poly.c and polyvec.c: reduction, the transforms with
    their reductions, and products in the transform domain. */
module PolyArith {
  import opened Bits
  import opened Zq
  import opened Roots
  import opened Ring
  import opened NttTree
  import opened Ntt
  import opened InvNtt

  type Vec = seq<Poly>

  /** A vector of three polynomials with 256 coefficients. */
  predicate IsVec(v: Vec) {
    |v| == 3 && |v[0]| == |v[1]| == |v[2]| == 256
  }

  ghost predicate Within(p: Poly, lo: int, hi: int) {
    forall i :: 0 <= i < |p| ==> lo <= p[i] <= hi
  }

  ghost predicate VecWithin(v: Vec, lo: int, hi: int) {
    forall k :: 0 <= k < |v| ==> Within(v[k], lo, hi)
  }

  // ----- in place ------------------------------------------------------------------

  /** poly_reduce: Barrett reduction of every coefficient. */
  method PolyReduce(r: array<int>)
    requires r.Length == 256 && forall i :: 0 <= i < 256 ==> -32768 <= r[i] < 32768
    modifies r
    ensures forall i :: 0 <= i < 256 ==> r[i] == Center(old(r[i]))
  {
    var i := 0;
    while i < 256
      invariant 0 <= i <= 256
      invariant forall j :: 0 <= j < i ==> r[j] == Center(old(r[j]))
      invariant forall j :: i <= j < 256 ==> r[j] == old(r[j])
    {
      r[i] := BarrettReduce(r[i]);
      i := i + 1;
    }
  }

  /** poly_ntt: the transform followed by reduction. */
  method PolyNtt(r: array<int>)
    requires r.Length == 256 && forall i :: 0 <= i < 256 ==> -9471 <= r[i] <= 9471
    modifies r
    ensures IsNtt(r[..], old(r[..]))
    ensures Within(r[..], -1664, 1664)
  {
    hide IsNtt, Center;
    ghost var a := r[..];
    Transform(r, 9471);
    ghost var f := r[..];
    PolyReduce(r);
    CongNtt(f, r[..], a);
  }

  lemma CongNtt(f: Poly, g: Poly, a: Poly)
    requires |f| == |g| == |a| == 256 && IsNtt(f, a)
    requires forall i :: 0 <= i < 256 ==> g[i] == Center(f[i])
    ensures IsNtt(g, a)
  {
    hide Cong, Leaf, Center;
    forall i | 0 <= i < 256 ensures Cong(g[i], Leaf(a, i)) {
      CenterCong(f[i]);
      CongTrans(g[i], f[i], Leaf(a, i));
    }
  }

  lemma CenterCong(x: int)
    ensures Cong(Center(x), x)
  {}

  /** poly_ntt on a copy. */
  method NttOf(p: Poly) returns (f: Poly)
    requires |p| == 256 && Within(p, -9471, 9471)
    ensures |f| == 256 && IsNtt(f, p) && Within(f, -1664, 1664)
  {
    hide IsNtt;
    var r := new int[256](i requires 0 <= i < 256 => p[i]);
    assert r[..] == p;
    PolyNtt(r);
    f := r[..];
  }

  /** poly_invntt_tomont on a copy. */
  method InverseOf(f: Poly) returns (p: Poly)
    requires |f| == 256 && Within(f, -16383, 16383)
    ensures |p| == 256 && CongPoly(p, Scale(512, Inv(f, 1))) && Within(p, -3328, 3328)
  {
    hide Inv, CongPoly;
    var r := new int[256](i requires 0 <= i < 256 => f[i]);
    assert r[..] == f;
    Inverse(r);
    p := r[..];
  }

  // ----- products in the transform domain -------------------------------------------

  /** Coefficient i of the product of a and b in the leaf rings. */
  function PairMul(a: Poly, b: Poly, i: nat): int
    requires |a| == |b| == 256 && i < 256
  {
    if i % 2 == 0 then a[i] * b[i] + Modulus(128 + i / 2) * (a[i + 1] * b[i + 1])
    else a[i - 1] * b[i] + a[i] * b[i - 1]
  }

  lemma ProductInRange(x: int, y: int)
    requires -4096 < x < 4096 && -4096 < y < 4096
    ensures -3329 * 32768 <= x * y < 3329 * 32768
  {
    var u, v := if x < 0 then -x else x, if y < 0 then -y else y;
    ScaleOrder(u, 4095, v);
    assert x * y == u * v || x * y == -(u * v);
    assert u * v >= 0;
  }

  /** fqmul of the Montgomery form of g with t is g * t. */
  lemma FqMulRoot(t: int, zeta: int, g: int)
    requires -4096 < t < 4096 && -4096 < zeta < 4096 && Cong(zeta, 65536 * g)
    ensures -3329 * 32768 <= t * zeta < 3329 * 32768
    ensures Cong(FqMul(t, zeta), t * g)
  {
    hide Cong, FqMul;
    ProductInRange(t, zeta);
    FqMulCong(t, zeta);
    var u := FqMul(t, zeta);
    CongSelf(t);
    CongMul(t, t, zeta, 65536 * g);
    assert t * (65536 * g) == 65536 * (t * g);
    CongTrans(65536 * u, t * zeta, 65536 * (t * g));
    CongCancelMont(u, t * g);
  }

  /** basemul: one product in Z_q[X]/(X^2 - g), times 2^-16. */
  method BaseMul(r: array<int>, a: Poly, b: Poly, o: nat, zeta: int, ghost g: int)
    requires r.Length == |a| == |b| == 256 && o + 1 < 256
    requires forall i :: o <= i < o + 2 ==> -4096 < a[i] < 4096 && -4096 < b[i] < 4096
    requires -4096 < zeta < 4096 && Cong(zeta, 65536 * g)
    modifies r
    ensures forall i :: 0 <= i < 256 && i != o && i != o + 1 ==> r[i] == old(r[i])
    ensures Cong(65536 * r[o], a[o] * b[o] + g * (a[o + 1] * b[o + 1]))
    ensures Cong(65536 * r[o + 1], a[o] * b[o + 1] + a[o + 1] * b[o])
    ensures -6656 <= r[o] <= 6656 && -6656 <= r[o + 1] <= 6656
  {
    hide Cong, FqMul;
    var a0, a1, b0, b1 := a[o], a[o + 1], b[o], b[o + 1];
    ProductInRange(a1, b1);
    ProductInRange(a0, b0);
    ProductInRange(a0, b1);
    ProductInRange(a1, b0);
    FqMulCong(a1, b1);
    FqMulCong(a0, b0);
    FqMulCong(a0, b1);
    FqMulCong(a1, b0);
    FqMulRoot(FqMul(a1, b1), zeta, g);
    FqMulCong(FqMul(a1, b1), zeta);
    BaseMulCong(FqMul(a1, b1), a1 * b1, FqMul(FqMul(a1, b1), zeta), g, FqMul(a0, b0), a0 * b0);
    CongSumMont(FqMul(a0, b1), a0 * b1, FqMul(a1, b0), a1 * b0);
    r[o] := FqMul(a1, b1);
    r[o] := FqMul(r[o], zeta);
    r[o] := ToInt16(r[o] + FqMul(a0, b0));
    r[o + 1] := FqMul(a0, b1);
    r[o + 1] := ToInt16(r[o + 1] + FqMul(a1, b0));
  }

  lemma CongSumMont(x: int, y: int, z: int, w: int)
    requires Cong(65536 * x, y) && Cong(65536 * z, w)
    ensures Cong(65536 * (x + z), y + w)
  {
    CongSum(65536 * x, y, 65536 * z, w);
  }

  lemma BaseMulCong(t: int, p: int, u: int, g: int, x: int, y: int)
    requires Cong(65536 * t, p) && Cong(u, t * g) && Cong(65536 * x, y)
    ensures Cong(65536 * (u + x), y + g * p)
  {
    hide Cong;
    CongSelf(g);
    CongSelf(65536);
    CongMul(g, g, 65536 * t, p);
    CongMul(65536, 65536, u, t * g);
    assert 65536 * (t * g) == g * (65536 * t);
    CongTrans(65536 * u, g * (65536 * t), g * p);
    CongSum(65536 * u, g * p, 65536 * x, y);
    assert 65536 * (u + x) == 65536 * u + 65536 * x;
  }

  lemma LeafRoots(i: nat)
    requires i < 64
    ensures Cong(Zeta(64 + i), 65536 * Modulus(128 + 2 * i))
    ensures Cong(-Zeta(64 + i), 65536 * Modulus(128 + 2 * i + 1))
    ensures -1664 <= Zeta(64 + i) <= 1664
  {
    hide Zeta, Root, Modulus, Cong;
    ZetaIsRoot(64 + i);
    ModulusChild(64 + i);
    assert 2 * (64 + i) == 128 + 2 * i;
    CongNeg(Zeta(64 + i), 65536 * Root(64 + i));
    assert -(65536 * Root(64 + i)) == 65536 * -Root(64 + i);
  }

  /** poly_basemul_montgomery. */
  method PolyBaseMul(r: array<int>, a: Poly, b: Poly)
    requires r.Length == |a| == |b| == 256 && Within(a, -4095, 4095) && Within(b, -4095, 4095)
    modifies r
    ensures forall i :: 0 <= i < 256 ==> Cong(65536 * r[i], PairMul(a, b, i))
    ensures forall i :: 0 <= i < 256 ==> -6656 <= r[i] <= 6656
  {
    hide Zeta, Modulus, PairsDone;
    var i := 0;
    NoPairs(r[..], a, b);
    while i < 64
      invariant 0 <= i <= 64
      invariant PairsDone(r[..], a, b, 4 * i)
    {
      LeafRoots(i);
      ghost var s := r[..];
      BaseMul(r, a, b, 4 * i, Zeta(64 + i), Modulus(128 + 2 * i));
      PairDone(s, r[..], a, b, 2 * i);
      s := r[..];
      BaseMul(r, a, b, 4 * i + 2, -Zeta(64 + i), Modulus(128 + 2 * i + 1));
      PairDone(s, r[..], a, b, 2 * i + 1);
      i := i + 1;
    }
    AllPairs(r[..], a, b);
  }

  /** The first n cells hold their products. */
  ghost predicate PairsDone(s: Poly, a: Poly, b: Poly, n: nat) {
    && |s| == |a| == |b| == 256 && n <= 256
    && forall i :: 0 <= i < n ==> Cong(65536 * s[i], PairMul(a, b, i)) && -6656 <= s[i] <= 6656
  }

  lemma NoPairs(s: Poly, a: Poly, b: Poly)
    requires |s| == |a| == |b| == 256
    ensures PairsDone(s, a, b, 0)
  {}

  lemma AllPairs(s: Poly, a: Poly, b: Poly)
    requires PairsDone(s, a, b, 256)
    ensures |s| == |a| == |b| == 256
    ensures forall i :: 0 <= i < 256 ==> Cong(65536 * s[i], PairMul(a, b, i)) && -6656 <= s[i] <= 6656
  {
    hide Cong, PairMul;
  }

  lemma PairDone(s: Poly, t: Poly, a: Poly, b: Poly, j: nat)
    requires j < 128 && PairsDone(s, a, b, 2 * j) && |t| == 256
    requires forall i :: 0 <= i < 256 && i != 2 * j && i != 2 * j + 1 ==> t[i] == s[i]
    requires var o, g := 2 * j, Modulus(128 + j);
      && Cong(65536 * t[o], a[o] * b[o] + g * (a[o + 1] * b[o + 1]))
      && Cong(65536 * t[o + 1], a[o] * b[o + 1] + a[o + 1] * b[o])
      && -6656 <= t[o] <= 6656 && -6656 <= t[o + 1] <= 6656
    ensures PairsDone(t, a, b, 2 * j + 2)
  {
    hide Cong, Modulus;
    assert (2 * j) / 2 == j && (2 * j + 1) / 2 == j;
  }

  /** poly_add, in place as its callers use it. */
  method PolyAccumulate(r: array<int>, t: array<int>)
    requires r.Length == t.Length == 256 && r != t
    requires forall i :: 0 <= i < 256 ==> -32768 <= r[i] + t[i] < 32768
    modifies r
    ensures forall i :: 0 <= i < 256 ==> r[i] == old(r[i]) + t[i]
  {
    hide ToInt16;
    var i := 0;
    while i < 256
      invariant 0 <= i <= 256
      invariant forall j :: 0 <= j < i ==> r[j] == old(r[j]) + t[j]
      invariant forall j :: i <= j < 256 ==> r[j] == old(r[j])
    {
      r[i] := ToInt16(r[i] + t[i]);
      i := i + 1;
    }
  }

  /** poly_sub(&r, &v, &r). */
  method PolySubtractFrom(r: array<int>, v: Poly)
    requires r.Length == |v| == 256
    requires forall i :: 0 <= i < 256 ==> -32768 <= v[i] - r[i] < 32768
    modifies r
    ensures forall i :: 0 <= i < 256 ==> r[i] == v[i] - old(r[i])
  {
    hide ToInt16;
    var i := 0;
    while i < 256
      invariant 0 <= i <= 256
      invariant forall j :: 0 <= j < i ==> r[j] == v[j] - old(r[j])
      invariant forall j :: i <= j < 256 ==> r[j] == old(r[j])
    {
      r[i] := ToInt16(v[i] - r[i]);
      i := i + 1;
    }
  }

  function CenterPoly(p: Poly): (r: Poly)
    ensures |r| == |p| && forall i :: 0 <= i < |p| ==> r[i] == Center(p[i])
  {
    seq(|p|, i requires 0 <= i < |p| => Center(p[i]))
  }

  lemma CenterPolyCong(p: Poly)
    ensures CongPoly(CenterPoly(p), p) && Within(CenterPoly(p), -1664, 1664)
  {}

  /** poly_add on copies. */
  method AddOf(a: Poly, b: Poly) returns (s: Poly)
    requires |a| == |b| == 256 && Within(a, -16000, 16000) && Within(b, -16000, 16000)
    ensures s == Add(a, b)
  {
    var r := new int[256](i requires 0 <= i < 256 => a[i]);
    var t := new int[256](i requires 0 <= i < 256 => b[i]);
    PolyAccumulate(r, t);
    s := r[..];
  }

  /** poly_sub on copies. */
  method SubOf(v: Poly, b: Poly) returns (s: Poly)
    requires |v| == |b| == 256 && Within(v, -16000, 16000) && Within(b, -16000, 16000)
    ensures s == Sub(v, b)
  {
    var r := new int[256](i requires 0 <= i < 256 => b[i]);
    PolySubtractFrom(r, v);
    s := r[..];
  }

  /** poly_reduce on a copy. */
  method ReduceOf(a: Poly) returns (s: Poly)
    requires |a| == 256 && Within(a, -32768, 32767)
    ensures s == CenterPoly(a)
  {
    hide Center;
    var r := new int[256](i requires 0 <= i < 256 => a[i]);
    PolyReduce(r);
    s := r[..];
  }

  /** The sum over the vector of the leaf products. */
  function PairDot(a: Vec, b: Vec, i: nat): int
    requires IsVec(a) && IsVec(b) && i < 256
  {
    PairMul(a[0], b[0], i) + PairMul(a[1], b[1], i) + PairMul(a[2], b[2], i)
  }

  /** polyvec_basemul_acc_montgomery. The three terms stay below 6q. */
  method BaseMulAcc(a: Vec, b: Vec) returns (f: Poly)
    requires IsVec(a) && IsVec(b) && VecWithin(a, -4095, 4095) && VecWithin(b, -4095, 4095)
    ensures |f| == 256 && Within(f, -1664, 1664)
    ensures forall i :: 0 <= i < 256 ==> Cong(65536 * f[i], PairDot(a, b, i))
  {
    hide Cong, PairMul, Center;
    var r := new int[256](i => 0);
    var t := new int[256](i => 0);
    PolyBaseMul(r, a[0], b[0]);
    ghost var r0 := r[..];
    PolyBaseMul(t, a[1], b[1]);
    ghost var t1 := t[..];
    PolyAccumulate(r, t);
    assert forall i :: 0 <= i < 256 ==> r[i] == r0[i] + t1[i];
    PolyBaseMul(t, a[2], b[2]);
    ghost var t2 := t[..];
    PolyAccumulate(r, t);
    ghost var s := r[..];
    assert forall i :: 0 <= i < 256 ==> s[i] == r0[i] + t1[i] + t2[i];
    PolyReduce(r);
    f := r[..];
    forall i | 0 <= i < 256 ensures Cong(65536 * f[i], PairDot(a, b, i)) {
      ThreeTerms(r0[i], t1[i], t2[i], PairMul(a[0], b[0], i), PairMul(a[1], b[1], i), PairMul(a[2], b[2], i));
      assert f[i] == Center(r0[i] + t1[i] + t2[i]);
    }
    assert Within(f, -1664, 1664) by { CenteredBounds(f, s); }
  }

  lemma CenteredBounds(f: Poly, s: Poly)
    requires |f| == |s| && forall i :: 0 <= i < |f| ==> f[i] == Center(s[i])
    ensures Within(f, -1664, 1664)
  {}

  lemma ThreeTerms(x: int, y: int, z: int, u: int, v: int, w: int)
    requires Cong(65536 * x, u) && Cong(65536 * y, v) && Cong(65536 * z, w)
    ensures Cong(65536 * Center(x + y + z), u + v + w)
  {
    hide Cong, Center;
    CongSumMont(x, u, y, v);
    CongSumMont(x + y, u + v, z, w);
    CenterCong(x + y + z);
    CongSelf(65536);
    CongMul(65536, 65536, Center(x + y + z), x + y + z);
    CongTrans(65536 * Center(x + y + z), 65536 * (x + y + z), u + v + w);
  }

  /** poly_tomont: multiplication by 2^16 modulo q (1353 is 2^32 mod q). */
  method ToMont(f: Poly) returns (g: Poly)
    requires |f| == 256 && Within(f, -4095, 4095)
    ensures |g| == 256 && Within(g, -3328, 3328)
    ensures forall i :: 0 <= i < 256 ==> Cong(g[i], 65536 * f[i])
  {
    hide Cong, MontgomeryReduce;
    var r := new int[256](i requires 0 <= i < 256 => f[i]);
    var i := 0;
    while i < 256
      invariant 0 <= i <= 256
      invariant forall j :: 0 <= j < i ==> -3328 <= r[j] <= 3328 && Cong(r[j], 65536 * f[j])
      invariant forall j :: i <= j < 256 ==> r[j] == f[j]
    {
      assert -4096 < f[i] < 4096;
      ProductInRange(f[i], 1353);
      MontCong(f[i] * 1353);
      ScaleByMont(f[i], MontgomeryReduce(f[i] * 1353));
      r[i] := MontgomeryReduce(r[i] * 1353);
      i := i + 1;
    }
    g := r[..];
  }

  lemma MontCong(a: int)
    requires -3329 * 32768 <= a < 3329 * 32768
    ensures -3329 < MontgomeryReduce(a) < 3329 && Cong(65536 * MontgomeryReduce(a), a)
  {}

  lemma ScaleByMont(x: int, y: int)
    requires Cong(65536 * y, x * 1353)
    ensures Cong(y, 65536 * x)
  {
    var k := CongQuotient(65536 * y, x * 1353);
    CongWitness(65536 * y, 65536 * (65536 * x), k - 1290167 * x);
    CongCancelMont(y, 65536 * x);
  }

  // ----- what the products mean --------------------------------------------------------

  lemma PairIsMul(a: Poly, b: Poly, g: int)
    requires |a| == |b| == 2
    ensures Mul(a, b, g) == [a[0] * b[0] + g * (a[1] * b[1]), a[0] * b[1] + a[1] * b[0]]
  {
    MulSingle(a[1], b, g);
    assert a[1..] == [a[1]];
    assert MulX(Scale(a[1], b), g) == [g * (a[1] * b[1]), a[1] * b[0]];
  }

  /** The two coefficients of leaf j of f. */
  function PairAt(f: Poly, j: nat): (p: Poly)
    requires |f| == 256 && j < 128
    ensures |p| == 2
  {
    [f[2 * j], f[2 * j + 1]]
  }

  lemma PairIsLeaf(f: Poly, x: Poly, j: nat)
    requires |f| == |x| == 256 && IsNtt(f, x) && j < 128
    ensures CongPoly(PairAt(f, j), Node(x, 128 + j))
  {
    hide Cong, Node;
    assert Size(128 + j) == 2;
    assert Cong(f[2 * j], Leaf(x, 2 * j)) && Cong(f[2 * j + 1], Leaf(x, 2 * j + 1));
  }

  lemma PairCong(f: Poly, x: Poly, g: Poly, y: Poly, i: nat)
    requires |f| == |x| == |g| == |y| == 256 && IsNtt(f, x) && IsNtt(g, y) && i < 256
    ensures Cong(PairMul(f, g, i), Leaf(Mul(x, y, -1), i))
  {
    hide Cong, Modulus, Mul, Node, IsNtt, PairMul, PairAt, Size;
    var j := i / 2;
    var n := 128 + j;
    var p, r := PairAt(f, j), PairAt(g, j);
    PairIsLeaf(f, x, j);
    PairIsLeaf(g, y, j);
    CongSelf(Modulus(n));
    CongPolyMul(p, Node(x, n), r, Node(y, n), Modulus(n), Modulus(n));
    NodeMul(x, y, n);
    PairIsMul(p, r, Modulus(n));
    PairIndex(f, g, i);
    var u, v := Node(Mul(x, y, -1), n), Mul(Node(x, n), Node(y, n), Modulus(n));
    CongSym(u[i % 2], v[i % 2]);
    CongTrans(PairMul(f, g, i), v[i % 2], u[i % 2]);
  }

  lemma PairIndex(f: Poly, g: Poly, i: nat)
    requires |f| == |g| == 256 && i < 256
    ensures PairMul(f, g, i) == Mul(PairAt(f, i / 2), PairAt(g, i / 2), Modulus(128 + i / 2))[i % 2]
  {
    hide Modulus, Mul;
    PairIsMul(PairAt(f, i / 2), PairAt(g, i / 2), Modulus(128 + i / 2));
  }

  /** The inner product in Z[X]/(X^256 + 1). */
  function Dot(x: Vec, y: Vec): (p: Poly)
    requires IsVec(x) && IsVec(y)
    ensures |p| == 256
  {
    Add(Add(Mul(x[0], y[0], -1), Mul(x[1], y[1], -1)), Mul(x[2], y[2], -1))
  }

  /** Componentwise: f[k] is the transform of x[k]. */
  ghost predicate IsVecNtt(f: Vec, x: Vec)
    requires IsVec(x)
  {
    |f| == 3 && IsNtt(f[0], x[0]) && IsNtt(f[1], x[1]) && IsNtt(f[2], x[2])
  }

  /** The accumulated leaf products are the transform of the inner product. */
  lemma DotCong(f: Vec, x: Vec, g: Vec, y: Vec, i: nat)
    requires IsVec(f) && IsVec(x) && IsVec(g) && IsVec(y)
    requires IsVecNtt(f, x) && IsVecNtt(g, y) && i < 256
    ensures Cong(PairDot(f, g, i), Leaf(Dot(x, y), i))
  {
    hide Cong, PairMul, Mul, IsNtt, Node;
    PairCong(f[0], x[0], g[0], y[0], i);
    PairCong(f[1], x[1], g[1], y[1], i);
    PairCong(f[2], x[2], g[2], y[2], i);
    var a, b, c := Mul(x[0], y[0], -1), Mul(x[1], y[1], -1), Mul(x[2], y[2], -1);
    LeafAdd(a, b, i);
    LeafAdd(Add(a, b), c, i);
    CongSum(PairMul(f[0], g[0], i), Leaf(a, i), PairMul(f[1], g[1], i), Leaf(b, i));
    CongSum(PairMul(f[0], g[0], i) + PairMul(f[1], g[1], i), Leaf(a, i) + Leaf(b, i),
            PairMul(f[2], g[2], i), Leaf(c, i));
  }

  lemma LeafAdd(a: Poly, b: Poly, i: nat)
    requires |a| == |b| == 256 && i < 256
    ensures Leaf(Add(a, b), i) == Leaf(a, i) + Leaf(b, i)
  {
    hide Node;
    NodeAdd(a, b, 128 + i / 2);
  }

  lemma LeafScale(d: int, a: Poly, i: nat)
    requires |a| == 256 && i < 256
    ensures Leaf(Scale(d, a), i) == d * Leaf(a, i)
  {
    hide Node;
    NodeScale(d, a, 128 + i / 2);
  }

  lemma ScaledNtt(d: int, f: Poly, a: Poly)
    requires |f| == |a| == 256 && IsNtt(f, a)
    ensures IsNtt(Scale(d, f), Scale(d, a))
  {
    hide Cong, Leaf;
    forall i | 0 <= i < 256 ensures Cong(Scale(d, f)[i], Leaf(Scale(d, a), i)) {
      LeafScale(d, a, i);
      CongSelf(d);
      CongMul(d, d, f[i], Leaf(a, i));
    }
  }

  /** The inverse transform of an accumulated product is the inner product itself:
      the factor 2^-16 of the products and 2^16 of the inverse cancel. */
  lemma InverseOfProduct(f: Poly, p: Poly, s: Poly)
    requires |f| == |p| == |s| == 256 && CongPoly(p, Scale(512, Inv(f, 1)))
    requires IsNtt(Scale(65536, f), s)
    ensures CongPoly(p, s)
  {
    hide Cong, Inv, FromNtt, CongPoly, IsNtt, Scale;
    var a := FromNtt(f);
    FromNttIsInverse(f);
    InverseOfTransform(f, a, p);
    ScaledNtt(65536, f, a);
    NttInjective(Scale(65536, f), Scale(65536, a), s);
    CongTransitive(p, Scale(65536, a), s);
  }

  /** An accumulated product, up to the Montgomery factor, is the transform of the
      inner product. */
  lemma AccIsNtt(a: Poly, f: Vec, x: Vec, g: Vec, y: Vec)
    requires |a| == 256 && IsVec(f) && IsVec(x) && IsVec(g) && IsVec(y)
    requires IsVecNtt(f, x) && IsVecNtt(g, y)
    requires forall i :: 0 <= i < 256 ==> Cong(65536 * a[i], PairDot(f, g, i))
    ensures IsNtt(Scale(65536, a), Dot(x, y))
  {
    hide Cong, Leaf, PairDot, Dot, IsVecNtt;
    forall i | 0 <= i < 256 ensures Cong(Scale(65536, a)[i], Leaf(Dot(x, y), i)) {
      DotCong(f, x, g, y, i);
      CongTrans(65536 * a[i], PairDot(f, g, i), Leaf(Dot(x, y), i));
    }
  }
}
