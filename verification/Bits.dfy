/** Bytes, bit strings, and the operators of C on unsigned words. A shift by k is
    multiplication or floor division by 2^k, and masking with 2^k - 1 is the
    remainder modulo 2^k; a bitwise OR is spelled out. */
module Bits {
  type Byte = x: int | 0 <= x < 256
  type Bit = x: int | 0 <= x < 2

  function Min(a: nat, b: nat): nat {
    if a < b then a else b
  }

  function Pow2(n: nat): (r: nat)
    ensures r >= 1
  {
    if n == 0 then 1 else 2 * Pow2(n - 1)
  }

  lemma {:induction false} Pow2Add(m: nat, n: nat)
    ensures Pow2(m + n) == Pow2(m) * Pow2(n)
  {
    if m > 0 {
      Pow2Add(m - 1, n);
      TwiceProduct(Pow2(m - 1), Pow2(n));
    }
  }

  lemma Pow2Step(n: nat)
    ensures Pow2(0) == 1 && (n > 0 ==> Pow2(n) == 2 * Pow2(n - 1))
  {}

  lemma BytePower(n: nat)
    ensures Pow2(0) == 1 && (n > 0 ==> Pow2(8 * n) == 256 * Pow2(8 * (n - 1)))
  {
    hide Pow2;
    Powers();
    if n > 0 {
      Pow2Add(8, 8 * (n - 1));
    }
  }

  lemma Powers()
    ensures Pow2(0) == 1 && Pow2(1) == 2 && Pow2(2) == 4 && Pow2(3) == 8 && Pow2(4) == 16
    ensures Pow2(5) == 32 && Pow2(6) == 64 && Pow2(7) == 128 && Pow2(8) == 256
    ensures Pow2(10) == 1024 && Pow2(12) == 4096
  {}

  /** Bitwise OR. */
  function Or(a: nat, b: nat): nat
    decreases a + b
  {
    if a == 0 then b else if b == 0 then a
    else (if a % 2 == 1 || b % 2 == 1 then 1 else 0) + 2 * Or(a / 2, b / 2)
  }

  /** Words without a common bit: OR is addition. */
  lemma {:induction false} OrAdds(a: nat, b: nat, k: nat)
    requires a < Pow2(k)
    ensures Or(a, b * Pow2(k)) == a + b * Pow2(k)
    decreases k
  {
    if k > 0 && a > 0 {
      var h := b * Pow2(k - 1);
      assert b * Pow2(k) == 2 * h;
      OrAdds(a / 2, b, k - 1);
      OrStep(a, 2 * h);
      if h == 0 {
        assert Or(a / 2, h) == a / 2;
      }
    }
  }

  lemma OrStep(a: nat, b: nat)
    ensures Or(a, b) == (if a % 2 == 1 || b % 2 == 1 then 1 else 0) + 2 * Or(a / 2, b / 2)
  {}

  /** Bitwise AND. */
  function And(a: nat, b: nat): nat {
    if a == 0 || b == 0 then 0
    else (if a % 2 == 1 && b % 2 == 1 then 1 else 0) + 2 * And(a / 2, b / 2)
  }

  // ----- bit strings -----------------------------------------------------------

  /** The n low bits of x, least significant first. */
  function ToBits(x: nat, n: nat): (s: seq<Bit>)
    ensures |s| == n
  {
    if n == 0 then [] else [x % 2] + ToBits(x / 2, n - 1)
  }

  function FromBits(s: seq<Bit>): (x: nat)
    ensures x < Pow2(|s|)
  {
    if |s| == 0 then 0 else s[0] + 2 * FromBits(s[1..])
  }

  lemma {:induction false} FromToBits(x: nat, n: nat)
    requires x < Pow2(n)
    ensures FromBits(ToBits(x, n)) == x
  {
    if n > 0 {
      FromToBits(x / 2, n - 1);
      assert ToBits(x, n)[1..] == ToBits(x / 2, n - 1);
    }
  }

  lemma {:induction false} ToFromBits(s: seq<Bit>)
    ensures ToBits(FromBits(s), |s|) == s
  {
    if |s| > 0 {
      ToFromBits(s[1..]);
      assert FromBits(s) / 2 == FromBits(s[1..]) && FromBits(s) % 2 == s[0];
    }
  }

  /** The bits of x followed by those of y. */
  lemma {:induction false} ToBitsJoin(x: nat, m: nat, y: nat, n: nat)
    requires x < Pow2(m)
    ensures ToBits(x + Pow2(m) * y, m + n) == ToBits(x, m) + ToBits(y, n)
  {
    if m > 0 {
      var p := Pow2(m - 1);
      TwiceProduct(p, y);
      ToBitsJoin(x / 2, m - 1, y, n);
      assert (x + 2 * (p * y)) % 2 == x % 2 && (x + 2 * (p * y)) / 2 == x / 2 + p * y;
    }
  }

  lemma {:induction false} FromBitsAppend(s: seq<Bit>, t: seq<Bit>)
    ensures FromBits(s + t) == FromBits(s) + Pow2(|s|) * FromBits(t)
  {
    if |s| == 0 {
      assert s + t == t;
    } else {
      FromBitsAppend(s[1..], t);
      assert (s + t)[1..] == s[1..] + t;
      TwiceProduct(Pow2(|s| - 1), FromBits(t));
    }
  }

  lemma TwiceProduct(p: int, x: int)
    ensures 2 * (p * x) == (2 * p) * x == p * (2 * x)
  {}

  lemma Regroup(c: int, p: int, x: int)
    ensures c * (p * x) == (c * p) * x == p * (c * x)
  {}

  lemma ScaleOrder(x: int, y: int, s: int)
    requires x <= y && 0 <= s
    ensures x * s <= y * s
  {}

  lemma MulAtLeast(e: int, d: int)
    requires d > 0
    ensures e >= 1 ==> e * d >= d
    ensures e <= -1 ==> e * d <= -d
  {}

  lemma ProductBound(a: nat, b: nat, m: nat, n: nat)
    requires a <= m && b <= n
    ensures 0 <= a * b <= m * n
  {
    assert a * b <= m * b <= m * n;
  }

  lemma QuotientUnique(x: int, d: int, q: int, r: int)
    requires d > 0 && x == q * d + r && 0 <= r < d
    ensures x / d == q && x % d == r
  {
    var e := x / d - q;
    assert (x / d - q) * d == (x / d) * d - q * d;
    MulAtLeast(e, d);
  }

  lemma RemainderTwice(x: nat, p: nat)
    requires p > 0
    ensures x % (2 * p) == x % 2 + 2 * (x / 2 % p)
  {
    var q, r := x / 2 / p, x / 2 % p;
    assert x / 2 == q * p + r;
    assert q * (2 * p) == 2 * (q * p);
    QuotientUnique(x, 2 * p, q, 2 * r + x % 2);
  }

  lemma Divide(x: nat, d: nat) returns (q: nat, r: nat)
    requires d > 0
    ensures x == q * d + r && r < d && q == x / d && r == x % d
  {
    q, r := x / d, x % d;
  }

  /** Dividing in two steps. */
  lemma CutQuotient(y: nat, d: nat, k: nat, e: nat)
    requires d > 0 && k > 0 && e == k * d
    ensures y / d == y / d % k + k * (y / e)
  {
    var a, b := Divide(y, d);
    var q, s := Divide(a, k);
    CutUnique(y, d, k, e, q, s, b);
  }

  lemma CutUnique(y: nat, d: nat, k: nat, e: nat, q: nat, s: nat, b: nat)
    requires e == k * d && y == (q * k + s) * d + b && b < d && s < k
    ensures y / d == q * k + s && y / e == q && y / d % k == s
  {
    QuotientUnique(y, d, q * k + s, b);
    QuotientUnique(q * k + s, k, q, s);
    DistributeCut(q, k, s, d);
    BelowProduct(s, k, d, b);
    QuotientUnique(y, e, q, s * d + b);
  }

  lemma BelowProduct(s: nat, k: nat, d: nat, b: nat)
    requires s < k && b < d
    ensures s * d + b < k * d
  {
    assert (s + 1) * d <= k * d;
  }

  lemma DistributeCut(q: nat, k: nat, s: nat, d: nat)
    ensures (q * k + s) * d == q * (k * d) + s * d
  {}

  lemma DivideTwice(y: nat, d: nat, k: nat, e: nat)
    requires d > 0 && k > 0 && e == k * d
    ensures y / e == y / d / k
  {
    var a, b := Divide(y, d);
    var q, s := Divide(a, k);
    CutUnique(y, d, k, e, q, s, b);
  }

  lemma QuotientOfShift(a: nat, b: nat, p: nat, low: nat)
    requires a < p && low > 0 && p * low > 0
    ensures (a + b * p) % (p * low) == a + p * (b % low)
  {
    var q, r := Divide(b, low);
    ShiftParts(q, low, r, p);
    QuotientUnique(a + b * p, p * low, q, a + p * r);
  }

  lemma ShiftParts(q: nat, low: nat, r: nat, p: nat)
    requires r < low
    ensures (q * low + r) * p == q * (p * low) + p * r && p * r + p <= p * low
  {
    assert q * low * p == q * (p * low);
    ScaleOrder(r + 1, low, p);
  }

  lemma RemainderOfRemainder(c: nat, low: nat, k: nat)
    requires low > 0 && k > 0 && low * k > 0
    ensures c % (low * k) % low == c % low
  {
    var q, r := c / (low * k), c % (low * k);
    var u, v := r / low, r % low;
    assert c == q * (low * k) + r;
    assert q * (low * k) + u * low == (q * k + u) * low;
    QuotientUnique(c, low, q * k + u, v);
  }

  /** The low n bits of x as a number. */
  lemma {:induction false} LowBits(x: nat, n: nat)
    ensures FromBits(ToBits(x, n)) == x % Pow2(n)
  {
    if n > 0 {
      LowBits(x / 2, n - 1);
      assert ToBits(x, n)[1..] == ToBits(x / 2, n - 1);
      RemainderTwice(x, Pow2(n - 1));
    }
  }

  lemma {:induction false} OrHigh(a: nat, x: nat, y: nat, k: nat)
    requires a < Pow2(k)
    ensures Or(a + Pow2(k) * x, Pow2(k) * y) == a + Pow2(k) * Or(x, y)
  {
    hide Or;
    if k > 0 {
      var h := Pow2(k - 1);
      TwiceProduct(h, x);
      TwiceProduct(h, y);
      TwiceProduct(h, Or(x, y));
      OrHigh(a / 2, x, y, k - 1);
      OrStep(a + 2 * (h * x), 2 * (h * y));
      assert (a + 2 * (h * x)) / 2 == a / 2 + h * x;
    }
  }

  /** AND works on the low k bits and on the rest separately. */
  lemma {:induction false} AndSplit(a: nat, x: nat, b: nat, y: nat, k: nat)
    requires a < Pow2(k) && b < Pow2(k)
    ensures And(a + Pow2(k) * x, b + Pow2(k) * y) == And(a, b) + Pow2(k) * And(x, y)
  {
    hide And, Pow2;
    Pow2Step(k);
    if k == 0 {
      AndNothing(0);
    } else {
      var h := Pow2(k - 1);
      TwiceProduct(h, x);
      TwiceProduct(h, y);
      TwiceProduct(h, And(x, y));
      AndSplit(a / 2, x, b / 2, y, k - 1);
      AndHigher(a, b, h * x, h * y);
    }
  }

  lemma AndHigher(a: nat, b: nat, s: nat, t: nat)
    ensures And(a + 2 * s, b + 2 * t) - 2 * And(a / 2 + s, b / 2 + t) == And(a, b) - 2 * And(a / 2, b / 2)
  {
    hide And;
    AndBits(a + 2 * s, b + 2 * t);
    AndBits(a, b);
    LowBit(a, s);
    LowBit(b, t);
  }

  lemma LowBit(a: nat, t: int)
    ensures (a + 2 * t) / 2 == a / 2 + t && (a + 2 * t) % 2 == a % 2
  {}

  lemma AndBits(a: nat, b: nat)
    ensures And(a, b) == (if a % 2 == 1 && b % 2 == 1 then 1 else 0) + 2 * And(a / 2, b / 2)
  {}

  lemma {:induction false} AndLow(x: nat, n: nat)
    ensures And(x, Pow2(n) - 1) == x % Pow2(n)
  {
    hide And, Pow2;
    Pow2Step(n);
    if n == 0 {
      AndNothing(x);
    } else {
      var p := Pow2(n - 1);
      AndLow(x / 2, n - 1);
      AndBits(x, 2 * p - 1);
      RemainderTwice(x, p);
    }
  }

  lemma AndNothing(x: nat)
    ensures And(x, 0) == 0
  {}

  // ----- packing ------------------------------------------------------------------

  /** The concatenation of the d-bit words of p. */
  function Concat(d: nat, p: seq<nat>): seq<Bit> {
    if |p| == 0 then [] else ToBits(p[0], d) + Concat(d, p[1..])
  }

  /** s cut into words of n bits. */
  function Chunk(n: nat, s: seq<Bit>): (p: seq<nat>)
    requires n > 0
    ensures forall i :: 0 <= i < |p| ==> 0 <= p[i] < Pow2(n)
  {
    if |s| < n then [] else [FromBits(s[..n])] + Chunk(n, s[n..])
  }

  lemma {:induction false} ConcatAppend(d: nat, p: seq<nat>, r: seq<nat>)
    ensures Concat(d, p + r) == Concat(d, p) + Concat(d, r)
  {
    if |p| == 0 {
      assert p + r == r;
    } else {
      assert (p + r)[1..] == p[1..] + r;
      ConcatAppend(d, p[1..], r);
    }
  }

  lemma {:induction false} ConcatLength(d: nat, p: seq<nat>)
    ensures |Concat(d, p)| == |p| * d
  {
    if |p| > 0 {
      ConcatLength(d, p[1..]);
      assert |p| * d == d + (|p| - 1) * d;
    }
  }

  lemma {:induction false} ChunkAppend(n: nat, s: seq<Bit>, t: seq<Bit>, k: nat)
    requires n > 0 && |s| == k * n
    ensures Chunk(n, s + t) == Chunk(n, s) + Chunk(n, t)
    decreases k
  {
    if k == 0 {
      assert s + t == t;
    } else {
      assert k * n == n + (k - 1) * n && (k - 1) * n >= 0;
      assert (s + t)[..n] == s[..n] && (s + t)[n..] == s[n..] + t;
      ChunkAppend(n, s[n..], t, k - 1);
    }
  }

  /** Cutting into words undoes the concatenation of words. */
  lemma {:induction false} ChunkConcat(d: nat, p: seq<nat>)
    requires d > 0 && forall i :: 0 <= i < |p| ==> p[i] < Pow2(d)
    ensures Chunk(d, Concat(d, p)) == p
  {
    if |p| > 0 {
      var s := Concat(d, p);
      assert s[..d] == ToBits(p[0], d) && s[d..] == Concat(d, p[1..]);
      FromToBits(p[0], d);
      ChunkConcat(d, p[1..]);
    }
  }

  lemma {:induction false} ConcatChunk(n: nat, s: seq<Bit>, k: nat)
    requires n > 0 && |s| == k * n
    ensures Concat(n, Chunk(n, s)) == s && |Chunk(n, s)| == k
    decreases k
  {
    hide ToBits, FromBits;
    if k > 0 {
      MultipleStep(k, n);
      ToFromBits(s[..n]);
      ConcatChunk(n, s[n..], k - 1);
      assert s[..n] + s[n..] == s;
    }
  }

  lemma MultipleStep(k: nat, n: nat)
    requires k > 0
    ensures k * n == n + (k - 1) * n && (k - 1) * n >= 0
  {}

  /** ByteEncode of section 4.2.1 of FIPS 203: d-bit words to bytes. */
  function ByteEncode(d: nat, p: seq<nat>): (b: seq<Byte>) {
    assert Pow2(8) == 256;
    Chunk(8, Concat(d, p))
  }

  /** ByteDecode: bytes to d-bit words. */
  function ByteDecode(d: nat, b: seq<Byte>): (p: seq<nat>)
    requires d > 0
    ensures forall i :: 0 <= i < |p| ==> 0 <= p[i] < Pow2(d)
  {
    Chunk(d, Concat(8, b))
  }

  /** Decoding undoes encoding. */
  lemma DecodeEncode(d: nat, p: seq<nat>, k: nat)
    requires d > 0 && |p| * d == 8 * k
    requires forall i :: 0 <= i < |p| ==> p[i] < Pow2(d)
    ensures ByteDecode(d, ByteEncode(d, p)) == p
    ensures |ByteEncode(d, p)| == k
  {
    ConcatLength(d, p);
    ConcatChunk(8, Concat(d, p), k);
    ChunkConcat(d, p);
  }

  /** Encoding undoes decoding. */
  lemma EncodeDecode(d: nat, b: seq<Byte>, k: nat)
    requires d > 0 && 8 * |b| == k * d
    ensures ByteEncode(d, ByteDecode(d, b)) == b
    ensures |ByteDecode(d, b)| == k
  {
    ConcatLength(8, b);
    ConcatChunk(d, Concat(8, b), k);
    assert Pow2(8) == 256;
    ChunkConcat(8, b);
  }

  lemma EncodeLength(d: nat, p: seq<nat>, k: nat)
    requires |p| * d == 8 * k
    ensures |ByteEncode(d, p)| == k
  {
    hide Chunk, Concat, Pow2;
    ConcatLength(d, p);
    assert Pow2(8) == 256 by { Powers(); }
    ConcatChunk(8, Concat(d, p), k);
  }

  lemma EncodeAppend(d: nat, p: seq<nat>, r: seq<nat>, k: nat)
    requires |p| * d == 8 * k
    ensures ByteEncode(d, p + r) == ByteEncode(d, p) + ByteEncode(d, r)
  {
    ConcatAppend(d, p, r);
    ConcatLength(d, p);
    ChunkAppend(8, Concat(d, p), Concat(d, r), k);
  }

  lemma DecodeAppend(d: nat, b: seq<Byte>, c: seq<Byte>, k: nat)
    requires d > 0 && 8 * |b| == k * d
    ensures ByteDecode(d, b + c) == ByteDecode(d, b) + ByteDecode(d, c)
  {
    ConcatAppend(8, b, c);
    ConcatLength(8, b);
    ChunkAppend(d, Concat(8, b), Concat(8, c), k);
  }
}
