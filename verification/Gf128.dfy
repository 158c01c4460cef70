/** Multiplication in GF(2^128) and GHASH as sections 6.3 and 6.4 of NIST SP 800-38D
    define them, on bit strings. A machine word is its bit string, most significant
    bit first; the leftmost bit of a block is the coefficient of x^0. */
module Gf128 {

  type Word = seq<bool>

  function Zero(n: nat): (w: Word)
    ensures |w| == n && forall p :: 0 <= p < n ==> !w[p]
  {
    seq(n, p => false)
  }

  function Xor(a: Word, b: Word): (c: Word)
    requires |a| == |b|
    ensures |c| == |a| && forall p :: 0 <= p < |c| ==> c[p] == (a[p] != b[p])
  {
    seq(|a|, p requires 0 <= p < |a| => a[p] != b[p])
  }

  function Or(a: Word, b: Word): (c: Word)
    requires |a| == |b|
    ensures |c| == |a| && forall p :: 0 <= p < |c| ==> c[p] == (a[p] || b[p])
  {
    seq(|a|, p requires 0 <= p < |a| => a[p] || b[p])
  }

  /** The logical shifts of C. */
  function Shr(a: Word, k: nat): (c: Word)
    ensures |c| == |a| && forall p :: 0 <= p < |c| ==> c[p] == (p >= k && a[p - k])
  {
    seq(|a|, p requires 0 <= p < |a| => p >= k && a[p - k])
  }

  function Shl(a: Word, k: nat): (c: Word)
    ensures |c| == |a| && forall p :: 0 <= p < |c| ==> c[p] == (p + k < |a| && a[p + k])
  {
    seq(|a|, p requires 0 <= p < |a| => p + k < |a| && a[p + k])
  }

  function Pick(b: bool, v: Word): (c: Word)
    ensures |c| == |v|
  {
    if b then v else Zero(|v|)
  }

  lemma XorAssoc(a: Word, b: Word, c: Word)
    requires |a| == |b| == |c|
    ensures Xor(Xor(a, b), c) == Xor(a, Xor(b, c))
  {}

  lemma XorLaws(a: Word, b: Word)
    requires |a| == |b|
    ensures Xor(a, b) == Xor(b, a) && Xor(a, Zero(|a|)) == a && Xor(Zero(|a|), a) == a
  {}

  // ----- the field -------------------------------------------------------------------------

  /** The bits of R = 11100001 || 0^120. */
  predicate InR(p: int) {
    p == 0 || p == 1 || p == 2 || p == 7
  }

  function R(): (w: Word)
    ensures |w| == 128 && forall p :: 0 <= p < 128 ==> w[p] == InR(p)
  {
    seq(128, p => InR(p))
  }

  /** v times x: a shift to the right, reduced if a bit falls out. */
  function MulX(v: Word): (w: Word)
    requires |v| == 128
    ensures |w| == 128
    ensures forall p :: 0 <= p < 128 ==> w[p] == ((p > 0 && v[p - 1]) != (v[127] && InR(p)))
  {
    if v[127] then Xor(Shr(v, 1), R()) else Shr(v, 1)
  }

  /** The product of a bit string and v, bit by bit. */
  function Product(x: Word, v: Word): (z: Word)
    requires |v| == 128
    ensures |z| == 128
  {
    if |x| == 0 then Zero(128) else Xor(Pick(x[0], v), Product(x[1..], MulX(v)))
  }

  lemma MulXAdds(a: Word, b: Word)
    requires |a| == |b| == 128
    ensures MulX(Xor(a, b)) == Xor(MulX(a), MulX(b))
  {}

  lemma MulXPick(b: bool, v: Word)
    requires |v| == 128
    ensures MulX(Pick(b, v)) == Pick(b, MulX(v))
    ensures MulX(Zero(128)) == Zero(128)
  {}

  /** Multiplying the second factor by x multiplies the product. */
  lemma {:induction false} ProductMulX(x: Word, v: Word)
    requires |v| == 128
    ensures Product(x, MulX(v)) == MulX(Product(x, v))
  {
    hide MulX, Xor, Pick;
    if |x| == 0 {
      MulXPick(false, v);
    } else {
      ProductMulX(x[1..], MulX(v));
      MulXAdds(Pick(x[0], v), Product(x[1..], MulX(v)));
      MulXPick(x[0], v);
    }
  }

  // ----- GHASH -------------------------------------------------------------------------------

  /** A byte string is a sequence of words of eight bits. */
  predicate AreBytes(s: seq<Word>) {
    forall i :: 0 <= i < |s| ==> |s[i]| == 8
  }

  function ZeroBytes(n: nat): (s: seq<Word>)
    ensures |s| == n && AreBytes(s)
  {
    seq(n, i => Zero(8))
  }

  /** The bits of a byte string. */
  function Flatten(s: seq<Word>): (w: Word)
    requires AreBytes(s)
    ensures |w| == 8 * |s|
  {
    if |s| == 0 then [] else s[0] + Flatten(s[1..])
  }

  lemma {:induction false} FlattenAppend(s: seq<Word>, t: seq<Word>)
    requires AreBytes(s) && AreBytes(t)
    ensures AreBytes(s + t) && Flatten(s + t) == Flatten(s) + Flatten(t)
  {
    if |s| == 0 {
      assert s + t == t;
    } else {
      assert (s + t)[1..] == s[1..] + t;
      FlattenAppend(s[1..], t);
    }
  }

  lemma {:induction false} FlattenZeros(n: nat)
    ensures Flatten(ZeroBytes(n)) == Zero(8 * n)
  {
    if n > 0 {
      assert ZeroBytes(n)[1..] == ZeroBytes(n - 1);
      FlattenZeros(n - 1);
      assert Zero(8) + Zero(8 * (n - 1)) == Zero(8 * n);
    }
  }

  /** The bits of a byte string padded with zeros to a block. */
  function Padded(s: seq<Word>): (w: Word)
    requires AreBytes(s) && |s| <= 16
    ensures |w| == 128
  {
    Flatten(s) + Zero(128 - 8 * |s|)
  }

  /** GHASH of data padded with zeros to full blocks, from the intermediate value y. */
  function Ghash(y: Word, h: Word, data: seq<Word>): (t: Word)
    requires |y| == |h| == 128 && AreBytes(data)
    ensures |t| == 128
    decreases |data|
  {
    if |data| == 0 then y
    else
      var n := if |data| < 16 then |data| else 16;
      Ghash(Product(Xor(y, Padded(data[..n])), h), h, data[n..])
  }
}
