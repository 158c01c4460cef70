/** Polynomials over the integers modulo X^n - w, as sequences of n coefficients
    (lowest degree first). The product is Horner's rule; ConvAgrees relates it to
    the schoolbook sum, and the remaining lemmas are the ring laws. */
module Ring {
  import opened Zq

  type Poly = seq<int>

  function Zero(n: nat): Poly {
    seq(n, i => 0)
  }

  function One(n: nat): Poly {
    seq(n, i => if i == 0 then 1 else 0)
  }

  function Add(p: Poly, r: Poly): (s: Poly)
    requires |p| == |r|
    ensures |s| == |p|
  {
    seq(|p|, i requires 0 <= i < |p| => p[i] + r[i])
  }

  function Sub(p: Poly, r: Poly): (s: Poly)
    requires |p| == |r|
    ensures |s| == |p|
  {
    seq(|p|, i requires 0 <= i < |p| => p[i] - r[i])
  }

  function Scale(c: int, p: Poly): (s: Poly)
    ensures |s| == |p|
  {
    seq(|p|, i requires 0 <= i < |p| => c * p[i])
  }

  /** X * p modulo X^n - w. */
  function MulX(p: Poly, w: int): (s: Poly)
    requires |p| > 0
    ensures |s| == |p|
  {
    [w * p[|p| - 1]] + p[..|p| - 1]
  }

  /** p * r modulo X^n - w for n = |r|; p may have any degree. */
  function Mul(p: Poly, r: Poly, w: int): (s: Poly)
    requires |r| > 0
    ensures |s| == |r|
  {
    if |p| == 0 then Zero(|r|)
    else Add(Scale(p[0], r), MulX(Mul(p[1..], r, w), w))
  }

  // ----- the schoolbook sum ------------------------------------------------

  /** Coefficient t of the periodic extension of r with r[t - n] = w * r[t]. */
  function Ext(r: Poly, w: int, t: int): int
    requires -|r| <= t < |r|
  {
    if t >= 0 then r[t] else w * r[t + |r|]
  }

  /** The sum over i of p[i] * r[t - i], wrapped indices weighted with w. */
  function Conv(p: Poly, r: Poly, w: int, t: int): int
    requires -|r| <= t - |p| + 1 && t < |r|
    decreases |p|
  {
    if |p| == 0 then 0 else p[0] * Ext(r, w, t) + Conv(p[1..], r, w, t - 1)
  }

  lemma {:induction false} ConvWrap(p: Poly, r: Poly, w: int, t: int)
    requires 0 <= t - |p| + 1 && t < |r|
    ensures Conv(p, r, w, t - |r|) == w * Conv(p, r, w, t)
    decreases |p|
  {
    if |p| > 0 {
      ConvWrap(p[1..], r, w, t - 1);
      Factor(w, p[0], r[t], Conv(p[1..], r, w, t - 1));
    }
  }

  lemma Factor(w: int, a: int, x: int, c: int)
    ensures a * (w * x) + w * c == w * (a * x + c)
  {
    assert a * (w * x) == w * (a * x);
  }

  /** Mul is the schoolbook product reduced by X^n = w. */
  lemma {:induction false} ConvAgrees(p: Poly, r: Poly, w: int, k: nat)
    requires |p| <= |r| && k < |r|
    ensures Mul(p, r, w)[k] == Conv(p, r, w, k)
    decreases |p|
  {
    if |p| > 0 {
      if k > 0 {
        ConvAgrees(p[1..], r, w, k - 1);
      } else {
        ConvAgrees(p[1..], r, w, |r| - 1);
        ConvWrap(p[1..], r, w, |r| - 1);
      }
    }
  }

  // ----- linearity -----------------------------------------------------------

  lemma AddComm(p: Poly, r: Poly)
    requires |p| == |r|
    ensures Add(p, r) == Add(r, p)
  {}

  lemma AddAssoc(p: Poly, r: Poly, s: Poly)
    requires |p| == |r| == |s|
    ensures Add(Add(p, r), s) == Add(p, Add(r, s))
  {}

  lemma AddShuffle(a: Poly, b: Poly, c: Poly, d: Poly)
    requires |a| == |b| == |c| == |d|
    ensures Add(Add(a, b), Add(c, d)) == Add(Add(a, c), Add(b, d))
  {}

  lemma ScaleAdd(c: int, p: Poly, r: Poly)
    requires |p| == |r|
    ensures Scale(c, Add(p, r)) == Add(Scale(c, p), Scale(c, r))
  {
    forall i | 0 <= i < |p|
      ensures Scale(c, Add(p, r))[i] == Add(Scale(c, p), Scale(c, r))[i]
    {
      assert c * (p[i] + r[i]) == c * p[i] + c * r[i];
    }
  }

  lemma ScaleSum(c: int, d: int, p: Poly)
    ensures Scale(c + d, p) == Add(Scale(c, p), Scale(d, p))
  {
    forall i | 0 <= i < |p|
      ensures Scale(c + d, p)[i] == Add(Scale(c, p), Scale(d, p))[i]
    {
      assert (c + d) * p[i] == c * p[i] + d * p[i];
    }
  }

  lemma ScaleScale(c: int, d: int, p: Poly)
    ensures Scale(c, Scale(d, p)) == Scale(c * d, p)
  {
    forall i | 0 <= i < |p| ensures Scale(c, Scale(d, p))[i] == Scale(c * d, p)[i] {
      assert c * (d * p[i]) == (c * d) * p[i];
    }
  }

  lemma MulXAdd(p: Poly, r: Poly, w: int)
    requires |p| == |r| > 0
    ensures MulX(Add(p, r), w) == Add(MulX(p, w), MulX(r, w))
  {
    assert w * (p[|p| - 1] + r[|p| - 1]) == w * p[|p| - 1] + w * r[|p| - 1];
  }

  lemma MulXScale(c: int, p: Poly, w: int)
    requires |p| > 0
    ensures MulX(Scale(c, p), w) == Scale(c, MulX(p, w))
  {
    var l := p[|p| - 1];
    assert w * (c * l) == c * (w * l);
    var a, b := MulX(Scale(c, p), w), Scale(c, MulX(p, w));
    assert a[0] == b[0];
    forall i | 0 < i < |p| ensures a[i] == b[i] {}
  }

  lemma MulXZero(n: nat, w: int)
    requires n > 0
    ensures MulX(Zero(n), w) == Zero(n)
  {}

  lemma {:induction false} MulAddRight(p: Poly, r: Poly, s: Poly, w: int)
    requires |r| == |s| > 0
    ensures Mul(p, Add(r, s), w) == Add(Mul(p, r, w), Mul(p, s, w))
  {
    if |p| == 0 {
    } else {
      MulAddRight(p[1..], r, s, w);
      var a, b := Mul(p[1..], r, w), Mul(p[1..], s, w);
      MulXAdd(a, b, w);
      ScaleAdd(p[0], r, s);
      AddShuffle(Scale(p[0], r), Scale(p[0], s), MulX(a, w), MulX(b, w));
    }
  }

  lemma {:induction false} MulScaleRight(p: Poly, c: int, r: Poly, w: int)
    requires |r| > 0
    ensures Mul(p, Scale(c, r), w) == Scale(c, Mul(p, r, w))
  {
    if |p| == 0 {
    } else {
      MulScaleRight(p[1..], c, r, w);
      var a := Mul(p[1..], r, w);
      MulXScale(c, a, w);
      ScaleScale(p[0], c, r);
      ScaleScale(c, p[0], r);
      assert p[0] * c == c * p[0];
      ScaleAdd(c, Scale(p[0], r), MulX(a, w));
    }
  }

  lemma {:induction false} MulMulXRight(p: Poly, r: Poly, w: int)
    requires |r| > 0
    ensures Mul(p, MulX(r, w), w) == MulX(Mul(p, r, w), w)
  {
    if |p| == 0 {
      MulXZero(|r|, w);
    } else {
      MulMulXRight(p[1..], r, w);
      MulXAdd(Scale(p[0], r), MulX(Mul(p[1..], r, w), w), w);
      MulXScale(p[0], r, w);
    }
  }

  lemma {:induction false} MulAddLeft(p: Poly, s: Poly, r: Poly, w: int)
    requires |p| == |s| && |r| > 0
    ensures Mul(Add(p, s), r, w) == Add(Mul(p, r, w), Mul(s, r, w))
  {
    if |p| == 0 {
      assert Add(Zero(|r|), Zero(|r|)) == Zero(|r|);
    } else {
      assert Add(p, s)[1..] == Add(p[1..], s[1..]);
      MulAddLeft(p[1..], s[1..], r, w);
      var a, b := Mul(p[1..], r, w), Mul(s[1..], r, w);
      MulXAdd(a, b, w);
      ScaleSum(p[0], s[0], r);
      AddShuffle(Scale(p[0], r), Scale(s[0], r), MulX(a, w), MulX(b, w));
    }
  }

  lemma {:induction false} MulScaleLeft(c: int, p: Poly, r: Poly, w: int)
    requires |r| > 0
    ensures Mul(Scale(c, p), r, w) == Scale(c, Mul(p, r, w))
  {
    if |p| == 0 {
    } else {
      assert Scale(c, p)[1..] == Scale(c, p[1..]);
      MulScaleLeft(c, p[1..], r, w);
      var a := Mul(p[1..], r, w);
      MulXScale(c, a, w);
      ScaleScale(c, p[0], r);
      ScaleAdd(c, Scale(p[0], r), MulX(a, w));
    }
  }

  // ----- powers of X -----------------------------------------------------------

  /** X^k * r. */
  function Shift(k: nat, r: Poly, w: int): (s: Poly)
    requires |r| > 0
    ensures |s| == |r|
  {
    if k == 0 then r else MulX(Shift(k - 1, r, w), w)
  }

  lemma {:induction false} ShiftAdd(k: nat, p: Poly, r: Poly, w: int)
    requires |p| == |r| > 0
    ensures Shift(k, Add(p, r), w) == Add(Shift(k, p, w), Shift(k, r, w))
  {
    if k > 0 {
      ShiftAdd(k - 1, p, r, w);
      MulXAdd(Shift(k - 1, p, w), Shift(k - 1, r, w), w);
    }
  }

  /** Splitting off the low part: (p + X^|p| s) * r. */
  lemma {:induction false} MulAppend(p: Poly, s: Poly, r: Poly, w: int)
    requires |r| > 0
    ensures Mul(p + s, r, w) == Add(Mul(p, r, w), Shift(|p|, Mul(s, r, w), w))
  {
    var m := Mul(s, r, w);
    if |p| == 0 {
      assert p + s == s;
      assert Add(Zero(|r|), m) == m;
    } else {
      assert (p + s)[1..] == p[1..] + s;
      MulAppend(p[1..], s, r, w);
      var a := Mul(p[1..], r, w);
      var t := Shift(|p| - 1, m, w);
      MulXAdd(a, t, w);
      AddAssoc(Scale(p[0], r), MulX(a, w), MulX(t, w));
    }
  }

  /** The first k <= n shifts rotate the top k coefficients to the bottom. */
  lemma {:induction false} ShiftShape(k: nat, r: Poly, w: int)
    requires |r| > 0 && k <= |r|
    ensures Shift(k, r, w) == Scale(w, r[|r| - k..]) + r[..|r| - k]
  {
    if k > 0 {
      ShiftShape(k - 1, r, w);
      RotateOnce(k, r, w);
    }
  }

  lemma RotateOnce(k: nat, r: Poly, w: int)
    requires 0 < k <= |r|
    ensures MulX(Scale(w, r[|r| - k + 1..]) + r[..|r| - k + 1], w) == Scale(w, r[|r| - k..]) + r[..|r| - k]
  {
    var n := |r| - k;
    var s := Scale(w, r[n + 1..]) + r[..n + 1];
    assert s[|r| - 1] == r[n];
    assert s[..|r| - 1] == Scale(w, r[n + 1..]) + r[..n];
    assert Scale(w, r[n..]) == [w * r[n]] + Scale(w, r[n + 1..]);
    assert MulX(s, w) == [w * s[|r| - 1]] + s[..|r| - 1];
  }

  /** X^n = w. */
  lemma ShiftFull(r: Poly, w: int)
    requires |r| > 0
    ensures Shift(|r|, r, w) == Scale(w, r)
  {
    ShiftShape(|r|, r, w);
    assert r[0..] == r;
  }

  // ----- associativity and commutativity ----------------------------------------

  lemma MulMulXLeft(p: Poly, r: Poly, w: int)
    requires |p| == |r| > 0
    ensures Mul(MulX(p, w), r, w) == MulX(Mul(p, r, w), w)
  {
    var n := |p|;
    var l, body := p[n - 1], p[..n - 1];
    var b := Mul(body, r, w);
    MulAppend(body, [l], r, w);
    assert p == body + [l];
    assert Mul([l], r, w) == Scale(l, r) by { MulSingle(l, r, w); }
    var top := Shift(n - 1, Scale(l, r), w);
    MulXAdd(b, top, w);
    assert MulX(top, w) == Shift(n, Scale(l, r), w);
    ShiftFull(Scale(l, r), w);
    ScaleScale(w, l, r);
    AddComm(MulX(b, w), Scale(w * l, r));
    assert MulX(p, w)[1..] == body;
  }

  lemma MulSingle(l: int, r: Poly, w: int)
    requires |r| > 0
    ensures Mul([l], r, w) == Scale(l, r)
  {
    assert Mul([l][1..], r, w) == Zero(|r|);
    MulXZero(|r|, w);
    assert Add(Scale(l, r), Zero(|r|)) == Scale(l, r);
  }

  lemma {:induction false} MulAssoc(p: Poly, r: Poly, s: Poly, w: int)
    requires |r| == |s| > 0
    ensures Mul(p, Mul(r, s, w), w) == Mul(Mul(p, r, w), s, w)
  {
    if |p| == 0 {
      MulZeroLeft(|r|, s, w);
    } else {
      MulAssoc(p[1..], r, s, w);
      var a := Mul(p[1..], r, w);
      MulAddLeft(Scale(p[0], r), MulX(a, w), s, w);
      MulScaleLeft(p[0], r, s, w);
      MulMulXLeft(a, s, w);
    }
  }

  lemma {:induction false} MulZeroLeft(n: nat, r: Poly, w: int)
    requires |r| > 0
    ensures Mul(Zero(n), r, w) == Zero(|r|)
  {
    if n > 0 {
      MulZeroLeft(n - 1, r, w);
      assert Zero(n)[1..] == Zero(n - 1);
      MulXZero(|r|, w);
      assert Add(Scale(0, r), Zero(|r|)) == Zero(|r|);
    }
  }

  /** p written as p * 1. */
  lemma {:induction false} MulOne(p: Poly, n: nat, w: int)
    requires |p| <= n && n > 0
    ensures Mul(p, One(n), w) == p + Zero(n - |p|)
  {
    if |p| > 0 {
      MulOne(p[1..], n, w);
      var t := Mul(p[1..], One(n), w);
      assert t[n - 1] == 0;
      var lhs := Add(Scale(p[0], One(n)), MulX(t, w));
      var rhs := p + Zero(n - |p|);
      assert lhs[0] == rhs[0];
      forall i | 0 < i < n ensures lhs[i] == rhs[i] {
        assert lhs[i] == t[i - 1];
      }
    }
  }

  lemma {:induction false} MulCommAux(p: Poly, r: Poly, w: int)
    requires |r| > 0
    ensures Mul(r, Mul(p, One(|r|), w), w) == Mul(p, r, w)
  {
    var n := |r|;
    MulOne(r, n, w);
    assert r + Zero(0) == r;
    if |p| == 0 {
      MulScaleRight(r, 0, One(n), w);
      assert Scale(0, One(n)) == Zero(n);
      assert Scale(0, r) == Zero(n);
    } else {
      MulCommAux(p[1..], r, w);
      var t := Mul(p[1..], One(n), w);
      MulAddRight(r, Scale(p[0], One(n)), MulX(t, w), w);
      MulScaleRight(r, p[0], One(n), w);
      MulMulXRight(r, t, w);
    }
  }

  lemma MulComm(p: Poly, r: Poly, w: int)
    requires |p| == |r| > 0
    ensures Mul(p, r, w) == Mul(r, p, w)
  {
    MulCommAux(p, r, w);
    MulOne(p, |p|, w);
    assert p + Zero(0) == p;
  }

  // ----- congruence modulo q ------------------------------------------------------

  ghost predicate CongPoly(p: Poly, r: Poly) {
    |p| == |r| && forall i :: 0 <= i < |p| ==> Cong(p[i], r[i])
  }

  lemma CongAdd(p: Poly, p': Poly, r: Poly, r': Poly)
    requires CongPoly(p, p') && CongPoly(r, r') && |p| == |r|
    ensures CongPoly(Add(p, r), Add(p', r'))
  {}

  lemma CongScale(c: int, c': int, p: Poly, p': Poly)
    requires CongPoly(p, p') && Cong(c, c')
    ensures CongPoly(Scale(c, p), Scale(c', p'))
  {
    forall i | 0 <= i < |p| ensures Cong(Scale(c, p)[i], Scale(c', p')[i]) {
      CongMul(c, c', p[i], p'[i]);
    }
  }

  lemma CongMulX(p: Poly, p': Poly, w: int, w': int)
    requires CongPoly(p, p') && Cong(w, w') && |p| > 0
    ensures CongPoly(MulX(p, w), MulX(p', w'))
  {
    CongMul(w, w', p[|p| - 1], p'[|p| - 1]);
  }

  lemma {:induction false} CongPolyMul(p: Poly, p': Poly, r: Poly, r': Poly, w: int, w': int)
    requires CongPoly(p, p') && CongPoly(r, r') && Cong(w, w') && |r| > 0
    ensures CongPoly(Mul(p, r, w), Mul(p', r', w'))
  {
    if |p| > 0 {
      CongPolyMul(p[1..], p'[1..], r, r', w, w');
      var a, a' := Mul(p[1..], r, w), Mul(p'[1..], r', w');
      CongMulX(a, a', w, w');
      CongScale(p[0], p'[0], r, r');
      CongAdd(Scale(p[0], r), Scale(p'[0], r'), MulX(a, w), MulX(a', w'));
    }
  }
}
