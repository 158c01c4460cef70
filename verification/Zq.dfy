/** Arithmetic modulo q = 3329 and the two word-level reductions of reduce.c.

    Words are mathematical integers here, so every conversion that C performs
    silently is written out: ToInt16 is the conversion to int16_t. */
module Zq {
  const QINV := -3327

  /** Conversion of any integer to int16_t (two's complement truncation). */
  function ToInt16(x: int): (r: int)
    ensures -32768 <= r < 32768
    ensures -32768 <= x < 32768 ==> r == x
    ensures (x - r) % 65536 == 0
  {
    (x + 32768) % 65536 - 32768
  }

  /** a and b are congruent modulo q. */
  ghost predicate Cong(a: int, b: int) {
    (a - b) % 3329 == 0
  }

  lemma CongWitness(a: int, b: int, k: int)
    requires a - b == 3329 * k
    ensures Cong(a, b)
  {}

  lemma CongQuotient(a: int, b: int) returns (k: int)
    requires Cong(a, b)
    ensures a - b == 3329 * k
  {
    k := (a - b) / 3329;
  }

  lemma CongSym(a: int, b: int)
    requires Cong(a, b)
    ensures Cong(b, a)
  {
    var k := CongQuotient(a, b);
    CongWitness(b, a, -k);
  }

  lemma CongNeg(a: int, b: int)
    requires Cong(a, b)
    ensures Cong(-a, -b)
  {
    var k := CongQuotient(a, b);
    CongWitness(-a, -b, -k);
  }

  lemma CongTrans(a: int, b: int, c: int)
    requires Cong(a, b) && Cong(b, c)
    ensures Cong(a, c)
  {
    var k := CongQuotient(a, b);
    var l := CongQuotient(b, c);
    CongWitness(a, c, k + l);
  }

  lemma CongSum(a: int, a': int, b: int, b': int)
    requires Cong(a, a') && Cong(b, b')
    ensures Cong(a + b, a' + b')
  {
    var k := CongQuotient(a, a');
    var l := CongQuotient(b, b');
    CongWitness(a + b, a' + b', k + l);
  }

  lemma CongMul(a: int, a': int, b: int, b': int)
    requires Cong(a, a') && Cong(b, b')
    ensures Cong(a * b, a' * b')
  {
    var k := CongQuotient(a, a');
    var l := CongQuotient(b, b');
    assert a * b - a' * b' == 3329 * (k * b + a' * l) by {
      assert a * b == (a' + 3329 * k) * b == a' * b + 3329 * (k * b);
      assert a' * b == a' * (b' + 3329 * l) == a' * b' + 3329 * (a' * l);
    }
    CongWitness(a * b, a' * b', k * b + a' * l);
  }

  /** 65536 and every other integer prime to q can be cancelled; the inverse of
      65536 modulo q is 169. */
  lemma CongCancelMont(a: int, b: int)
    requires Cong(65536 * a, 65536 * b)
    ensures Cong(a, b)
  {
    CongMul(65536 * a, 65536 * b, 169, 169);
    var k := CongQuotient(65536 * a * 169, 65536 * b * 169);
    CongWitness(a, b, k - 3327 * (a - b));
  }

  /** Likewise 128, with inverse 3303. */
  lemma CongCancel128(a: int, b: int)
    requires Cong(128 * a, 128 * b)
    ensures Cong(a, b)
  {
    var k := CongQuotient(128 * a, 128 * b);
    CongWitness(a, b, 3303 * k - 127 * (a - b));
  }

  lemma CongInverse128(x: int, y: int, z: int)
    requires Cong(x, 3303 * y) && Cong(y, 128 * z)
    ensures Cong(z, x)
  {
    var k := CongQuotient(x, 3303 * y);
    var l := CongQuotient(y, 128 * z);
    CongWitness(z, x, -k - 3303 * l - 127 * z);
  }

  lemma CongSelf(a: int)
    ensures Cong(a, a)
  {}

  /** The representative of x modulo q in [-(q-1)/2, (q-1)/2]. */
  function Center(x: int): (r: int)
    ensures -1664 <= r <= 1664
    ensures Cong(r, x)
  {
    (x + 1664) % 3329 - 1664
  }

  lemma RemainderUnique(x: int, k: int, r: int)
    requires x == 3329 * k + r && 0 <= r < 3329
    ensures x % 3329 == r
  {}

  lemma CenterUnique(r: int, x: int)
    requires Cong(r, x)
    ensures -1664 <= r <= 1664 ==> r == Center(x)
    ensures 0 <= r < 3329 ==> r == x % 3329
    ensures Center(r) == Center(x)
  {
    var k := CongQuotient(x, r);
    if 0 <= r < 3329 {
      RemainderUnique(x, k, r);
    }
    if -1664 <= r <= 1664 {
      RemainderUnique(x + 1664, k, r + 1664);
    }
    var c, l := (r + 1664) % 3329, (r + 1664) / 3329;
    RemainderUnique(x + 1664, k + l, c);
  }

  /** Montgomery reduction: t = (int16_t)((int16_t)a * QINV), then (a - t*q) >> 16. */
  function MontgomeryReduce(a: int): (r: int)
    requires -3329 * 32768 <= a < 3329 * 32768
    ensures -3329 < r < 3329
    ensures Cong(65536 * r, a)
  {
    MontgomeryQuotient(a);
    var t := ToInt16(ToInt16(a) * QINV);
    ToInt16((a - t * 3329) / 65536)
  }

  lemma MontgomeryQuotient(a: int)
    requires -3329 * 32768 <= a < 3329 * 32768
    ensures var q := (a - ToInt16(ToInt16(a) * QINV) * 3329) / 65536;
      -3329 < q < 3329 && ToInt16(q) == q && Cong(65536 * q, a)
  {
    hide Cong;
    var t := ToInt16(ToInt16(a) * QINV);
    MontgomeryExact(a);
    var q := (a - t * 3329) / 65536;
    assert a - t * 3329 == 65536 * q;
    CongWitness(65536 * q, a, -t);
  }

  /** The difference a - t*q that Montgomery reduction shifts right by 16 has no
      low bits: the shift is an exact division. */
  lemma MontgomeryExact(a: int)
    ensures (a - ToInt16(ToInt16(a) * QINV) * 3329) % 65536 == 0
  {
    hide ToInt16;
    var a0 := ToInt16(a);
    var t := ToInt16(a0 * QINV);
    var i := TruncationQuotient(a);
    var j := TruncationQuotient(a0 * QINV);
    assert a - t * 3329 == 65536 * (i + 169 * a0 + 3329 * j);
    MultipleOfWord(i + 169 * a0 + 3329 * j);
  }

  lemma TruncationQuotient(x: int) returns (k: int)
    ensures x == ToInt16(x) + 65536 * k
  {
    k := (x - ToInt16(x)) / 65536;
  }

  lemma MultipleOfWord(k: int)
    ensures 65536 * k % 65536 == 0
  {}

  /** Barrett reduction with v = ((1 << 26) + q/2) / q = 20159. The int16_t product
      t*q can wrap (t = 10 when a = 32767); the final conversion undoes it. */
  function BarrettReduce(a: int): (r: int)
    requires -32768 <= a < 32768
    ensures r == Center(a)
  {
    BarrettQuotient(a);
    var t := ToInt16((20159 * a + 33554432) / 67108864);
    var m := ToInt16(t * 3329);
    ToInt16(a - m)
  }

  lemma BarrettQuotient(a: int)
    requires -32768 <= a < 32768
    ensures var t := (20159 * a + 33554432) / 67108864;
      -10 <= t <= 10 && -1664 <= a - 3329 * t <= 1664 && a - 3329 * t == Center(a)
  {
    var t := (20159 * a + 33554432) / 67108864;
    BarrettRange(a, t);
    CongWitness(a - 3329 * t, a, -t);
    CenterUnique(a - 3329 * t, a);
  }

  lemma BarrettRange(a: int, t: int)
    requires -32768 <= a < 32768 && 67108864 * t <= 20159 * a + 33554432 < 67108864 * t + 67108864
    ensures -10 <= t <= 10 && -1664 <= a - 3329 * t <= 1664
  {}

  /** fqmul: a product followed by Montgomery reduction. */
  function FqMul(a: int, b: int): (r: int)
    requires -3329 * 32768 <= a * b < 3329 * 32768
    ensures -3329 < r < 3329
    ensures Cong(65536 * r, a * b)
  {
    MontgomeryReduce(a * b)
  }
}
