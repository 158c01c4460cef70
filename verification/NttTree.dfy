/** The mathematics of the number-theoretic transform of ntt.c.

    The transform is a binary tree of ring splittings
    X^2m - c^2 = (X^m - c)(X^m + c). Nodes are numbered like a heap: node 1 is
    Z[X]/(X^256 + 1), node k has children 2k and 2k + 1, and the leaves 128..255
    are the rings Z[X]/(X^2 - gamma). Node k splits with the k-th root in
    bit-reversed order, so the code's k++ over zetas visits the nodes in heap
    order. */
module NttTree {
  import opened Zq
  import opened Ring
  import opened Roots

  // ----- the tree --------------------------------------------------------------

  /** Reduction of p modulo X^m - c, where |p| = 2m. */
  function Split(p: Poly, c: int): (s: Poly)
    ensures |s| == |p| / 2
  {
    seq(|p| / 2, j requires 0 <= j < |p| / 2 => p[j] + c * p[j + |p| / 2])
  }

  /** The image of a at node k: a reduced along the path from the root. */
  function Node(a: Poly, k: nat): (s: Poly)
    requires |a| == 256 && 1 <= k < 256
    ensures |s| == Size(k)
    decreases k
  {
    hide Modulus, Size;
    assert Size(1) == 256 by { SizeOne(); }
    if k == 1 then a else
      SizeHalf(k);
      Split(Node(a, k / 2), Modulus(k))
  }

  /** Coefficient i of the transform of a. */
  function Leaf(a: Poly, i: nat): int
    requires |a| == 256 && i < 256
  {
    hide Node;
    Node(a, 128 + i / 2)[i % 2]
  }

  /** f is the transform of a: the 128 leaf residues, two coefficients each. */
  ghost predicate IsNtt(f: Poly, a: Poly)
    requires |a| == 256
  {
    |f| == 256 && forall i :: 0 <= i < 256 ==> Cong(f[i], Leaf(a, i))
  }

  // ----- splitting is a ring homomorphism --------------------------------------

  lemma SplitParts(p: Poly, c: int)
    requires |p| % 2 == 0
    ensures Split(p, c) == Add(p[..|p| / 2], Scale(c, p[|p| / 2..]))
  {}

  lemma SplitAdd(p: Poly, r: Poly, c: int)
    requires |p| == |r|
    ensures Split(Add(p, r), c) == Add(Split(p, c), Split(r, c))
  {
    var m := |p| / 2;
    forall j | 0 <= j < m
      ensures Split(Add(p, r), c)[j] == Add(Split(p, c), Split(r, c))[j]
    {
      assert c * (p[j + m] + r[j + m]) == c * p[j + m] + c * r[j + m];
    }
  }

  lemma SplitScale(d: int, p: Poly, c: int)
    ensures Split(Scale(d, p), c) == Scale(d, Split(p, c))
  {
    var m := |p| / 2;
    forall j | 0 <= j < m ensures Split(Scale(d, p), c)[j] == Scale(d, Split(p, c))[j] {
      assert c * (d * p[j + m]) == d * (c * p[j + m]);
      assert d * (p[j] + c * p[j + m]) == d * p[j] + d * (c * p[j + m]);
    }
  }

  lemma SplitMulX(p: Poly, c: int)
    requires |p| > 0 && |p| % 2 == 0
    ensures Split(MulX(p, c * c), c) == MulX(Split(p, c), c)
  {
    var m := |p| / 2;
    var l, r := Split(MulX(p, c * c), c), MulX(Split(p, c), c);
    assert l[0] == r[0] by {
      assert c * c * p[2 * m - 1] == c * (c * p[2 * m - 1]);
      assert c * (p[m - 1] + c * p[2 * m - 1]) == c * p[m - 1] + c * (c * p[2 * m - 1]);
      assert MulX(p, c * c)[m] == p[m - 1];
    }
    forall j | 0 < j < m ensures l[j] == r[j] {
      assert MulX(p, c * c)[j] == p[j - 1];
      assert MulX(p, c * c)[j + m] == p[j + m - 1];
    }
  }

  lemma {:induction false} SplitMulRight(p: Poly, r: Poly, c: int)
    requires |r| > 0 && |r| % 2 == 0
    ensures Split(Mul(p, r, c * c), c) == Mul(p, Split(r, c), c)
  {
    if |p| == 0 {
      assert Split(Zero(|r|), c) == Zero(|r| / 2);
    } else {
      SplitMulRight(p[1..], r, c);
      var t := Mul(p[1..], r, c * c);
      SplitAdd(Scale(p[0], r), MulX(t, c * c), c);
      SplitScale(p[0], r, c);
      SplitMulX(t, c);
    }
  }

  /** In Z[X]/(X^m - c) a factor may be reduced first. */
  lemma SplitMulLeft(p: Poly, s: Poly, c: int)
    requires |p| == 2 * |s| && |s| > 0
    ensures Mul(p, s, c) == Mul(Split(p, c), s, c)
  {
    var m := |s|;
    var lo, hi := p[..m], p[m..];
    assert p == lo + hi;
    MulAppend(lo, hi, s, c);
    ShiftFull(Mul(hi, s, c), c);
    MulScaleLeft(c, hi, s, c);
    MulAddLeft(lo, Scale(c, hi), s, c);
    SplitParts(p, c);
  }

  /** Splitting maps products modulo X^2m - c^2 to products modulo X^m - c. */
  lemma SplitMul(p: Poly, r: Poly, c: int)
    requires |p| == |r| > 0 && |p| % 2 == 0
    ensures Split(Mul(p, r, c * c), c) == Mul(Split(p, c), Split(r, c), c)
  {
    SplitMulRight(p, r, c);
    SplitMulLeft(p, Split(r, c), c);
  }

  lemma CongSplit(p: Poly, p': Poly, c: int, c': int)
    requires CongPoly(p, p') && Cong(c, c')
    ensures CongPoly(Split(p, c), Split(p', c'))
  {
    hide Cong;
    var m := |p| / 2;
    forall j | 0 <= j < m ensures Cong(Split(p, c)[j], Split(p', c')[j]) {
      CongMul(c, c', p[j + m], p'[j + m]);
      CongSum(p[j], p'[j], c * p[j + m], c' * p'[j + m]);
    }
  }

  /** The transform turns negacyclic products into products in the node rings. */
  lemma {:induction false} NodeMul(a: Poly, b: Poly, k: nat)
    requires |a| == |b| == 256 && 1 <= k < 256
    ensures CongPoly(Node(Mul(a, b, -1), k), Mul(Node(a, k), Node(b, k), Modulus(k)))
    decreases k
  {
    hide Modulus, Root, Mirror, Cong, CongPoly, Mul, Split;
    if k > 1 {
      NodeMul(a, b, k / 2);
      ModulusSquare(k);
      var p, r, c := Node(a, k / 2), Node(b, k / 2), Modulus(k);
      var prod := Mul(p, r, Modulus(k / 2));
      CongReflexive(p);
      CongReflexive(r);
      CongSelf(c);
      CongPolyMul(p, p, r, r, Modulus(k / 2), c * c);
      CongSplit(Node(Mul(a, b, -1), k / 2), prod, c, c);
      CongSplit(prod, Mul(p, r, c * c), c, c);
      SplitMul(p, r, c);
      CongTransitive(Node(Mul(a, b, -1), k), Split(prod, c), Mul(Split(p, c), Split(r, c), c));
    } else {
      CongReflexive(Mul(a, b, -1));
      ModulusOne();
    }
  }

  lemma CongReflexive(p: Poly)
    ensures CongPoly(p, p)
  {}

  lemma CongTransitive(p: Poly, r: Poly, s: Poly)
    requires CongPoly(p, r) && CongPoly(r, s)
    ensures CongPoly(p, s)
  {}

  lemma {:induction false} NodeAdd(a: Poly, b: Poly, k: nat)
    requires |a| == |b| == 256 && 1 <= k < 256
    ensures Node(Add(a, b), k) == Add(Node(a, k), Node(b, k))
    decreases k
  {
    hide Modulus, Root, Mirror;
    if k > 1 {
      NodeAdd(a, b, k / 2);
      SplitAdd(Node(a, k / 2), Node(b, k / 2), Modulus(k));
    }
  }

  lemma {:induction false} NodeScale(d: int, a: Poly, k: nat)
    requires |a| == 256 && 1 <= k < 256
    ensures Node(Scale(d, a), k) == Scale(d, Node(a, k))
    decreases k
  {
    hide Modulus, Root, Mirror;
    if k > 1 {
      NodeScale(d, a, k / 2);
      SplitScale(d, Node(a, k / 2), Modulus(k));
    }
  }

  lemma {:induction false} CongNode(a: Poly, b: Poly, k: nat)
    requires |a| == |b| == 256 && 1 <= k < 256 && CongPoly(a, b)
    ensures CongPoly(Node(a, k), Node(b, k))
    decreases k
  {
    hide Modulus, Root, Mirror;
    if k > 1 {
      CongNode(a, b, k / 2);
      CongSplit(Node(a, k / 2), Node(b, k / 2), Modulus(k), Modulus(k));
    }
  }

  // ----- the leaves are the residues modulo X^2 - 17^(2 BitRev7(i) + 1) ---------

  /** The residue of p modulo X^2 - g. */
  function Residue(p: Poly, g: int): (s: Poly)
    ensures |s| == 2
  {
    Mul(p, [1, 0], g)
  }

  lemma {:induction false} ShiftEven(h: nat, t: Poly, g: int)
    requires |t| == 2
    ensures Shift(2 * h, t, g) == Scale(Pow(g, h), t)
  {
    if h == 0 {
      assert Scale(1, t) == t;
    } else {
      ShiftEven(h - 1, t, g);
      var s := Shift(2 * (h - 1), t, g);
      assert Shift(2 * h, t, g) == MulX(MulX(s, g), g);
      assert MulX(MulX(s, g), g) == Scale(g, s);
      ScaleScale(g, Pow(g, h - 1), t);
    }
  }

  lemma SplitResidue(p: Poly, c: int, g: int)
    requires |p| % 4 == 0 && Cong(c, Pow(g, |p| / 4))
    ensures CongPoly(Residue(Split(p, c), g), Residue(p, g))
  {
    hide Cong, CongPoly, Pow, Mul, Split;
    var d, one := Pow(g, |p| / 4), [1, 0];
    ExactResidue(p, g);
    CongReflexive(p);
    CongReflexive(one);
    CongSelf(g);
    CongSplit(p, p, c, d);
    CongPolyMul(Split(p, c), Split(p, d), one, one, g, g);
  }

  lemma ExactResidue(p: Poly, g: int)
    requires |p| % 4 == 0
    ensures Residue(p, g) == Residue(Split(p, Pow(g, |p| / 4)), g)
  {
    hide Pow, Mul, Split, Shift, Add, Scale;
    var h := |p| / 4;
    var lo, hi, one, d := p[..2 * h], p[2 * h..], [1, 0], Pow(g, h);
    Halves(p, h);
    MulAppend(lo, hi, one, g);
    ShiftEven(h, Mul(hi, one, g), g);
    MulScaleLeft(d, hi, one, g);
    MulAddLeft(lo, Scale(d, hi), one, g);
    SplitParts(p, d);
  }

  lemma Halves(p: Poly, h: nat)
    requires |p| == 4 * h
    ensures p == p[..2 * h] + p[2 * h..] && |p| / 2 == 2 * h && |p| % 2 == 0
  {}

  lemma {:induction false} NodeResidue(a: Poly, k: nat, g: int)
    requires |a| == 256 && 1 <= k < 256 && Cong(Modulus(k), Pow(g, Size(k) / 2))
    ensures CongPoly(Residue(Node(a, k), g), Residue(a, g))
    decreases k
  {
    hide Modulus, Root, Mirror;
    if k == 1 {
      CongReflexive(Residue(a, g));
    } else {
      var e := Size(k) / 2;
      PowAdd(g, e, e);
      CongMul(Modulus(k), Pow(g, e), Modulus(k), Pow(g, e));
      ModulusSquare(k);
      NodeResidue(a, k / 2, g);
      SplitResidue(Node(a, k / 2), Modulus(k), g);
      CongTransitive(Residue(Node(a, k), g), Residue(Node(a, k / 2), g), Residue(a, g));
    }
  }

  /** Leaf i of the transform is the residue of a modulo X^2 - 17^(2 BitRev7(i) + 1),
      the definition in section 4.3 of FIPS 203. */
  lemma LeafIsResidue(a: Poly, i: nat)
    requires |a| == 256 && i < 128
    ensures CongPoly(Node(a, 128 + i), Residue(a, Gamma(i)))
  {
    hide Modulus, Gamma;
    var g := Gamma(i);
    LeafModulus(i);
    assert Pow(g, 1) == g * Pow(g, 0) == g;
    NodeResidue(a, 128 + i, g);
    var leaf := Node(a, 128 + i);
    MulOne(leaf, 2, g);
    assert One(2) == [1, 0];
    assert leaf + Zero(0) == leaf;
  }

  // ----- the inverse transform -----------------------------------------------------

  /** The inverse butterfly: sums below, scaled differences above. */
  function Merge(lo: Poly, hi: Poly, c: int): (s: Poly)
    requires |lo| == |hi|
    ensures |s| == 2 * |lo|
  {
    Add(lo, hi) + Scale(c, Sub(hi, lo))
  }

  /** The inverse transform of f up to node k, unscaled. */
  function Inv(f: Poly, k: nat): (s: Poly)
    requires |f| == 256 && 1 <= k < 256
    ensures |s| == Size(k)
    decreases |f| - k
  {
    hide Mirror, Root;
    if k >= 128 then f[2 * (k - 128)..2 * (k - 128) + 2]
    else
      SizeChild(k);
      Merge(Inv(f, 2 * k), Inv(f, 2 * k + 1), Root(Mirror(k)))
  }

  lemma MergeScalar(c: int, c': int, x: int)
    requires Cong(c' * c, -1)
    ensures Cong(c' * (-(c * x) - c * x), 2 * x)
  {
    CongMul(c' * c, -1, x, x);
    assert c' * (c * x) == c' * c * x;
    var k := CongQuotient(c' * c * x, -1 * x);
    assert c' * (-(c * x) - c * x) == -2 * (c' * (c * x));
    CongWitness(c' * (-(c * x) - c * x), 2 * x, -2 * k);
  }

  lemma MergeSplit(p: Poly, c: int, c': int)
    requires |p| % 2 == 0 && Cong(c' * c, -1)
    ensures CongPoly(Merge(Split(p, c), Split(p, -c), c'), Scale(2, p))
  {
    hide Cong;
    var m := |p| / 2;
    var s := Merge(Split(p, c), Split(p, -c), c');
    forall j | 0 <= j < |p| ensures Cong(s[j], 2 * p[j]) {
      if j < m {
        assert (-c) * p[j + m] == -(c * p[j + m]);
        CongReflexive([2 * p[j]]);
        assert Cong([2 * p[j]][0], [2 * p[j]][0]);
      } else {
        var x := p[j];
        assert (-c) * x == -(c * x);
        assert s[j] == c' * (-(c * x) - c * x);
        MergeScalar(c, c', x);
      }
    }
  }

  lemma SplitScalar(c: int, c': int, x: int, y: int)
    requires Cong(c' * c, -1)
    ensures Cong(x + y + c * (c' * (y - x)), 2 * x)
    ensures Cong(x + y + (-c) * (c' * (y - x)), 2 * y)
  {
    var d := y - x;
    CongMul(c' * c, -1, d, d);
    assert c * (c' * d) == c' * c * d;
    assert (-c) * (c' * d) == -(c * (c' * d));
    var k := CongQuotient(c' * c * d, -1 * d);
    CongWitness(x + y + c * (c' * d), 2 * x, k);
    CongWitness(x + y + (-c) * (c' * d), 2 * y, -k);
  }

  lemma SplitMerge(lo: Poly, hi: Poly, c: int, c': int)
    requires |lo| == |hi| && Cong(c' * c, -1)
    ensures CongPoly(Split(Merge(lo, hi, c'), c), Scale(2, lo))
    ensures CongPoly(Split(Merge(lo, hi, c'), -c), Scale(2, hi))
  {
    hide Cong, Merge;
    forall j | 0 <= j < |lo|
      ensures Cong(Split(Merge(lo, hi, c'), c)[j], 2 * lo[j]) && Cong(Split(Merge(lo, hi, c'), -c)[j], 2 * hi[j])
    {
      SplitMergeCell(lo, hi, c, c', j);
    }
  }

  lemma SplitMergeCell(lo: Poly, hi: Poly, c: int, c': int, j: nat)
    requires |lo| == |hi| && Cong(c' * c, -1) && j < |lo|
    ensures Cong(Split(Merge(lo, hi, c'), c)[j], 2 * lo[j])
    ensures Cong(Split(Merge(lo, hi, c'), -c)[j], 2 * hi[j])
  {
    hide Cong, Merge, Split;
    var s := Merge(lo, hi, c');
    MergeAt(lo, hi, c', j);
    SplitAt(s, c, j);
    SplitAt(s, -c, j);
    SplitScalar(c, c', lo[j], hi[j]);
  }

  lemma MergeAt(lo: Poly, hi: Poly, c: int, j: nat)
    requires |lo| == |hi| && j < |lo|
    ensures Merge(lo, hi, c)[j] == lo[j] + hi[j]
    ensures Merge(lo, hi, c)[j + |lo|] == c * (hi[j] - lo[j])
  {}

  lemma SplitAt(p: Poly, c: int, j: nat)
    requires |p| % 2 == 0 && j < |p| / 2
    ensures Split(p, c)[j] == p[j] + c * p[j + |p| / 2]
  {}

  lemma CongMerge(lo: Poly, lo': Poly, hi: Poly, hi': Poly, c: int)
    requires CongPoly(lo, lo') && CongPoly(hi, hi') && |lo| == |hi|
    ensures CongPoly(Merge(lo, hi, c), Merge(lo', hi', c))
  {
    CongScale(c, c, Sub(hi, lo), Sub(hi', lo'));
  }

  lemma MergeScale(d: int, lo: Poly, hi: Poly, c: int)
    requires |lo| == |hi|
    ensures Merge(Scale(d, lo), Scale(d, hi), c) == Scale(d, Merge(lo, hi, c))
  {
    var m := |lo|;
    var l, r := Merge(Scale(d, lo), Scale(d, hi), c), Scale(d, Merge(lo, hi, c));
    forall j | 0 <= j < 2 * m ensures l[j] == r[j] {
      if j < m {
        assert d * (lo[j] + hi[j]) == d * lo[j] + d * hi[j];
      } else {
        var x, y := lo[j - m], hi[j - m];
        assert c * (d * y - d * x) == d * (c * (y - x));
      }
    }
  }

  /** Inverting the transform of a gives a at every node, times the number of
      butterflies passed. */
  lemma {:induction false} InvOfNtt(f: Poly, a: Poly, k: nat)
    requires |a| == 256 && IsNtt(f, a) && 1 <= k < 256
    ensures CongPoly(Inv(f, k), Scale(Size(k) / 2, Node(a, k)))
    decreases 256 - k
  {
    if k >= 128 {
      InvLeaf(f, a, k);
    } else {
      hide Modulus, Root, Mirror, Cong, Merge, Split, Size, IsNtt;
      InvOfNtt(f, a, 2 * k);
      InvOfNtt(f, a, 2 * k + 1);
      NodeChildren(a, k);
      SizeChild(k);
      var d := Size(2 * k) / 2;
      assert Size(2 * k + 1) / 2 == d && Size(k) / 2 == 2 * d;
      InvStep(Node(a, k), Inv(f, 2 * k), Inv(f, 2 * k + 1), d, k);
    }
  }

  lemma InvLeaf(f: Poly, a: Poly, k: nat)
    requires |a| == 256 && IsNtt(f, a) && 128 <= k < 256
    ensures CongPoly(Inv(f, k), Scale(Size(k) / 2, Node(a, k)))
  {
    hide Node, Cong, Inv;
    LeafSize(k);
    forall j | 0 <= j < 2 ensures Cong(Inv(f, k)[j], 1 * Node(a, k)[j]) {
      var i := 2 * (k - 128) + j;
      LeafIndex(k, j);
      InvLeafAt(f, i);
      assert Cong(f[i], Leaf(a, i));
    }
  }

  lemma LeafIndex(k: nat, j: nat)
    requires 128 <= k < 256 && j < 2
    ensures var i := 2 * (k - 128) + j; i < 256 && 128 + i / 2 == k && i % 2 == j
  {}

  lemma NodeChildren(a: Poly, k: nat)
    requires |a| == 256 && 1 <= k < 128
    ensures Node(a, 2 * k) == Split(Node(a, k), Root(k))
    ensures Node(a, 2 * k + 1) == Split(Node(a, k), -Root(k))
  {
    hide Root, Modulus, Size, Split;
    ModulusChild(k);
    assert 2 * k / 2 == k && (2 * k + 1) / 2 == k;
  }

  lemma InvStep(p: Poly, lo: Poly, hi: Poly, d: int, k: nat)
    requires 1 <= k < 128 && |p| % 2 == 0
    requires CongPoly(lo, Scale(d, Split(p, Root(k)))) && CongPoly(hi, Scale(d, Split(p, -Root(k))))
    ensures CongPoly(Merge(lo, hi, Root(Mirror(k))), Scale(2 * d, p))
  {
    hide Root, Mirror, Cong;
    var c, c' := Root(k), Root(Mirror(k));
    var pl, ph := Split(p, c), Split(p, -c);
    CongMerge(lo, Scale(d, pl), hi, Scale(d, ph), c');
    MergeScale(d, pl, ph, c');
    MirrorInverse(k);
    MergeSplit(p, c, c');
    CongSelf(d);
    CongScale(d, d, Merge(pl, ph, c'), Scale(2, p));
    ScaleScale(d, 2, p);
    CongTransitive(Merge(lo, hi, c'), Scale(d, Merge(pl, ph, c')), Scale(2 * d, p));
  }

  /** Transforming the inverse gives f back, scaled: every f is a transform. */
  lemma {:induction false} NttOfInv(f: Poly, k: nat)
    requires |f| == 256 && 1 <= k < 256
    ensures CongPoly(Node(Inv(f, 1), k), Scale(256 / Size(k), Inv(f, k)))
    decreases k
  {
    hide Modulus, Root, Mirror, Split, Inv, Cong;
    if k == 1 {
      assert Scale(1, Inv(f, 1)) == Inv(f, 1);
      CongReflexive(Inv(f, 1));
    } else {
      NttOfInv(f, k / 2);
      NttStep(f, Node(Inv(f, 1), k / 2), 256 / Size(k / 2), k);
    }
  }

  lemma InvChildren(f: Poly, k: nat)
    requires |f| == 256 && 1 <= k < 128
    ensures |Inv(f, 2 * k)| == |Inv(f, 2 * k + 1)|
    ensures Inv(f, k) == Merge(Inv(f, 2 * k), Inv(f, 2 * k + 1), Root(Mirror(k)))
  {
    hide Root, Mirror, Merge, Size;
    SizeChild(k);
  }

  lemma NttStep(f: Poly, p: Poly, d: int, k: nat)
    requires |f| == 256 && 2 <= k < 256
    requires CongPoly(p, Scale(d, Inv(f, k / 2)))
    ensures CongPoly(Split(p, Modulus(k)), Scale(2 * d, Inv(f, k)))
  {
    hide Root, Mirror, Cong, Merge, Split, Size, Inv, Modulus;
    var j, c := k / 2, Modulus(k);
    var u := Inv(f, j);
    InvChildren(f, j);
    ModulusChild(j);
    assert k == 2 * j || k == 2 * j + 1;
    SizeHalf(k);
    CongSelf(c);
    CongSplit(p, Scale(d, u), c, c);
    SplitScale(d, u, c);
    MirrorInverse(j);
    SplitMerge(Inv(f, 2 * j), Inv(f, 2 * j + 1), Root(j), Root(Mirror(j)));
    assert CongPoly(Split(u, c), Scale(2, Inv(f, k)));
    CongSelf(d);
    CongScale(d, d, Split(u, c), Scale(2, Inv(f, k)));
    ScaleScale(d, 2, Inv(f, k));
    CongTransitive(Split(p, c), Scale(d, Split(u, c)), Scale(2 * d, Inv(f, k)));
  }

  /** Every coefficient replaced by its residue in [0, q). */
  function Canon(p: Poly): (r: Poly)
    ensures |r| == |p|
    ensures forall i :: 0 <= i < |p| ==> r[i] == p[i] % 3329
  {
    seq(|p|, i requires 0 <= i < |p| => p[i] % 3329)
  }

  lemma CongCanon(p: Poly)
    ensures CongPoly(Canon(p), p)
  {
    forall i | 0 <= i < |p| ensures Cong(Canon(p)[i], p[i]) {
      CongWitness(Canon(p)[i], p[i], -(p[i] / 3329));
    }
  }

  /** The polynomial with transform f; 3303 is 1/128 modulo q. */
  function FromNtt(f: Poly): (a: Poly)
    requires |f| == 256
    ensures |a| == 256
  {
    hide Inv, Canon;
    Canon(Scale(3303, Inv(f, 1)))
  }

  /** The concatenated leaves of the transform of a. */
  function Leaves(a: Poly): (f: Poly)
    requires |a| == 256
    ensures |f| == 256
  {
    hide Node, Size;
    seq(256, i requires 0 <= i < 256 => Leaf(a, i))
  }

  /** The transform of a, coefficients in [0, q). */
  function ToNtt(a: Poly): (f: Poly)
    requires |a| == 256
    ensures |f| == 256
  {
    hide Leaves, Canon;
    Canon(Leaves(a))
  }

  lemma FromNttIsInverse(f: Poly)
    requires |f| == 256
    ensures IsNtt(f, FromNtt(f))
  {
    hide Node, Inv, Cong, Canon, Size;
    var u := Inv(f, 1);
    forall i | 0 <= i < 256 ensures Cong(f[i], Leaf(FromNtt(f), i)) {
      LeafOfInverse(f, u, i);
    }
  }

  lemma LeafOfInverse(f: Poly, u: Poly, i: nat)
    requires |f| == 256 && i < 256 && u == Inv(f, 1)
    ensures Cong(f[i], Leaf(Canon(Scale(3303, u)), i))
  {
    hide Node, Cong, Canon, Inv, Size, Scale, CongPoly;
    var k, j := 128 + i / 2, i % 2;
    SizeOne();
    LeafSize(k);
    ScaledNode(u, k);
    NttOfInv(f, k);
    InvLeafAt(f, i);
    ScaledCell(Node(Canon(Scale(3303, u)), k), 3303, Node(u, k), j);
    ScaledCell(Node(u, k), 128, Inv(f, k), j);
    CongInverse128(Node(Canon(Scale(3303, u)), k)[j], Node(u, k)[j], f[i]);
  }

  lemma LeafSize(k: nat)
    requires 128 <= k < 256
    ensures Size(k) == 2 && 256 / Size(k) == 128
  {}

  lemma ScaledCell(p: Poly, c: int, r: Poly, j: nat)
    requires j < |p| && CongPoly(p, Scale(c, r))
    ensures j < |r| && Cong(p[j], c * r[j])
  {
    hide Cong;
  }

  lemma ScaledNode(u: Poly, k: nat)
    requires |u| == 256 && 1 <= k < 256
    ensures CongPoly(Node(Canon(Scale(3303, u)), k), Scale(3303, Node(u, k)))
  {
    hide Node, Canon, Scale, CongPoly;
    CongCanon(Scale(3303, u));
    CongNode(Canon(Scale(3303, u)), Scale(3303, u), k);
    NodeScale(3303, u, k);
  }

  lemma InvLeafAt(f: Poly, i: nat)
    requires |f| == 256 && i < 256
    ensures Inv(f, 128 + i / 2)[i % 2] == f[i]
  {}

  lemma ToNttIsNtt(a: Poly)
    requires |a| == 256
    ensures IsNtt(ToNtt(a), a)
  {
    hide Leaf, Cong, Canon;
    CongCanon(Leaves(a));
  }

  /** A transform determines its polynomial modulo q. */
  lemma NttInjective(f: Poly, a: Poly, b: Poly)
    requires |a| == |b| == 256 && IsNtt(f, a) && IsNtt(f, b)
    ensures CongPoly(a, b)
  {
    hide Modulus, Root, Mirror;
    hide Inv, Cong;
    var u := Inv(f, 1);
    InvOfNtt(f, a, 1);
    InvOfNtt(f, b, 1);
    forall i | 0 <= i < 256 ensures Cong(a[i], b[i]) {
      CongSym(u[i], 128 * a[i]);
      CongTrans(128 * a[i], u[i], 128 * b[i]);
      CongCancel128(a[i], b[i]);
    }
  }
}
