/** The serialisation loops of poly.c and polyvec.c against ByteEncode and
    ByteDecode of section 4.2.1 of FIPS 203. */
module Codec {
  import opened Bits

  lemma ChunkFirst(n: nat, s: seq<Bit>, t: seq<Bit>)
    requires n > 0 && |s| == n
    ensures Chunk(n, s + t) == [FromBits(s)] + Chunk(n, t)
  {
    assert (s + t)[..n] == s && (s + t)[n..] == t;
  }

  lemma ChunkShort(n: nat)
    requires n > 0
    ensures Chunk(n, []) == []
  {}

  lemma ChunkOne(n: nat, s: seq<Bit>)
    requires n > 0 && |s| == n
    ensures Chunk(n, s) == [FromBits(s)]
  {
    ChunkFirst(n, s, []);
    ChunkShort(n);
    assert s + [] == s;
  }

  lemma ConcatOne(d: nat, x: nat)
    ensures Concat(d, [x]) == ToBits(x, d)
  {
    assert [x][1..] == [];
    assert Concat(d, [x]) == ToBits(x, d) + [];
  }

  lemma ConcatTwo(d: nat, x: nat, y: nat)
    ensures Concat(d, [x, y]) == ToBits(x, d) + ToBits(y, d)
  {
    ConcatAppend(d, [x], [y]);
    ConcatOne(d, x);
    ConcatOne(d, y);
    assert [x, y] == [x] + [y];
  }

  /** The number with low m bits x and next n bits y, from its bits. */
  lemma JoinBits(x: nat, m: nat, y: nat, n: nat)
    requires x < Pow2(m) && y < Pow2(n)
    ensures FromBits(ToBits(x, m) + ToBits(y, n)) == x + Pow2(m) * y
  {
    FromBitsAppend(ToBits(x, m), ToBits(y, n));
    FromToBits(x, m);
    FromToBits(y, n);
  }

  // ----- twelve bits: two coefficients in three bytes ------------------------------

  lemma Pack12(x0: nat, x1: nat, y0: nat, y1: nat)
    requires x0 < 256 && x1 < 16 && y0 < 16 && y1 < 256
    ensures ByteEncode(12, [x0 + 256 * x1, y0 + 16 * y1]) == [x0, x1 + 16 * y0, y1]
  {
    hide ToBits, FromBits, Chunk, Concat, Pow2;
    Powers();
    ConcatTwo(12, x0 + 256 * x1, y0 + 16 * y1);
    ToBitsJoin(x0, 8, x1, 4);
    ToBitsJoin(y0, 4, y1, 8);
    var a, b, c, e := ToBits(x0, 8), ToBits(x1, 4), ToBits(y0, 4), ToBits(y1, 8);
    assert a + b + (c + e) == a + ((b + c) + e);
    ChunkFirst(8, a, (b + c) + e);
    ChunkFirst(8, b + c, e);
    ChunkOne(8, e);
    FromToBits(x0, 8);
    JoinBits(x1, 4, y0, 4);
    FromToBits(y1, 8);
  }

  lemma Encode12(x: nat, y: nat)
    requires x < 4096 && y < 4096
    ensures ByteEncode(12, [x, y]) == [x % 256, x / 256 + 16 * (y % 16), y / 16]
  {
    hide ByteEncode;
    Pack12(x % 256, x / 256, y % 16, y / 16);
    assert x == x % 256 + 256 * (x / 256) && y == y % 16 + 16 * (y / 16);
  }

  lemma Decode12(b0: Byte, b1: Byte, b2: Byte)
    ensures ByteDecode(12, [b0, b1, b2]) == [b0 + 256 * (b1 % 16), b1 / 16 + 16 * b2]
  {
    hide ByteEncode, ByteDecode, Pow2;
    Powers();
    Pack12(b0, b1 % 16, b1 / 16, b2);
    assert b1 == b1 % 16 + 16 * (b1 / 16);
    DecodeEncode(12, [b0 + 256 * (b1 % 16), b1 / 16 + 16 * b2], 3);
  }

  // ----- ten bits: four coefficients in five bytes ------------------------------------

  lemma ConcatFour(d: nat, x: nat, y: nat, z: nat, w: nat)
    ensures Concat(d, [x, y, z, w]) == ToBits(x, d) + ToBits(y, d) + (ToBits(z, d) + ToBits(w, d))
  {
    ConcatAppend(d, [x, y], [z, w]);
    ConcatTwo(d, x, y);
    ConcatTwo(d, z, w);
    assert [x, y, z, w] == [x, y] + [z, w];
  }

  lemma Pack10(x0: nat, x1: nat, y0: nat, y1: nat, z0: nat, z1: nat, w0: nat, w1: nat)
    requires x0 < 256 && x1 < 4 && y0 < 64 && y1 < 16 && z0 < 16 && z1 < 64 && w0 < 4 && w1 < 256
    ensures ByteEncode(10, [x0 + 256 * x1, y0 + 64 * y1, z0 + 16 * z1, w0 + 4 * w1])
         == [x0, x1 + 4 * y0, y1 + 16 * z0, z1 + 64 * w0, w1]
  {
    hide ToBits, FromBits, Chunk, Concat, Pow2;
    Powers();
    ConcatFour(10, x0 + 256 * x1, y0 + 64 * y1, z0 + 16 * z1, w0 + 4 * w1);
    ToBitsJoin(x0, 8, x1, 2);
    ToBitsJoin(y0, 6, y1, 4);
    ToBitsJoin(z0, 4, z1, 6);
    ToBitsJoin(w0, 2, w1, 8);
    var a, b, c, e := ToBits(x0, 8), ToBits(x1, 2), ToBits(y0, 6), ToBits(y1, 4);
    var f, g, h, i := ToBits(z0, 4), ToBits(z1, 6), ToBits(w0, 2), ToBits(w1, 8);
    FiveBytes(a, b, c, e, f, g, h, i);
    FromToBits(x0, 8);
    JoinBits(x1, 2, y0, 6);
    JoinBits(y1, 4, z0, 4);
    JoinBits(z1, 6, w0, 2);
    FromToBits(w1, 8);
  }

  lemma Assoc(s: seq<Bit>, t: seq<Bit>, u: seq<Bit>)
    ensures s + t + u == s + (t + u)
  {}

  lemma FiveBytes(a: seq<Bit>, b: seq<Bit>, c: seq<Bit>, e: seq<Bit>,
      f: seq<Bit>, g: seq<Bit>, h: seq<Bit>, i: seq<Bit>)
    requires |a| == |b + c| == |e + f| == |g + h| == |i| == 8
    ensures Chunk(8, a + b + (c + e) + (f + g + (h + i)))
         == [FromBits(a), FromBits(b + c), FromBits(e + f), FromBits(g + h), FromBits(i)]
  {
    hide FromBits, Chunk;
    var t := (g + h) + i;
    Assoc(a, b, c + e);
    Assoc(b, c, e);
    Assoc(f, g, h + i);
    Assoc(g, h, i);
    assert a + b + (c + e) == a + ((b + c) + e) && f + g + (h + i) == f + t;
    Assoc(a, (b + c) + e, f + t);
    Assoc(b + c, e, f + t);
    Assoc(e, f, t);
    ChunkFirst(8, a, (b + c) + ((e + f) + t));
    ChunkFirst(8, b + c, (e + f) + t);
    ChunkFirst(8, e + f, t);
    ChunkFirst(8, g + h, i);
    ChunkOne(8, i);
  }

  lemma Encode10(x: nat, y: nat, z: nat, w: nat)
    requires x < 1024 && y < 1024 && z < 1024 && w < 1024
    ensures ByteEncode(10, [x, y, z, w])
         == [x % 256, x / 256 + 4 * (y % 64), y / 64 + 16 * (z % 16), z / 16 + 64 * (w % 4), w / 4]
  {
    hide ByteEncode;
    Pack10(x % 256, x / 256, y % 64, y / 64, z % 16, z / 16, w % 4, w / 4);
    assert x == x % 256 + 256 * (x / 256) && y == y % 64 + 64 * (y / 64);
    assert z == z % 16 + 16 * (z / 16) && w == w % 4 + 4 * (w / 4);
  }

  lemma Decode10(b0: Byte, b1: Byte, b2: Byte, b3: Byte, b4: Byte)
    ensures ByteDecode(10, [b0, b1, b2, b3, b4])
         == [b0 + 256 * (b1 % 4), b1 / 4 + 64 * (b2 % 16), b2 / 16 + 16 * (b3 % 64), b3 / 64 + 4 * b4]
  {
    hide ByteEncode, ByteDecode, Pow2;
    Powers();
    Pack10(b0, b1 % 4, b1 / 4, b2 % 16, b2 / 16, b3 % 64, b3 / 64, b4);
    assert b1 == b1 % 4 + 4 * (b1 / 4) && b2 == b2 % 16 + 16 * (b2 / 16) && b3 == b3 % 64 + 64 * (b3 / 64);
    var p := [b0 + 256 * (b1 % 4), b1 / 4 + 64 * (b2 % 16), b2 / 16 + 16 * (b3 % 64), b3 / 64 + 4 * b4];
    DecodeEncode(10, p, 5);
  }

  // ----- four bits: two coefficients in a byte ---------------------------------------

  lemma Encode4(x: nat, y: nat)
    requires x < 16 && y < 16
    ensures ByteEncode(4, [x, y]) == [x + 16 * y]
  {
    hide ToBits, FromBits, Chunk, Concat, Pow2;
    Powers();
    ConcatTwo(4, x, y);
    ChunkOne(8, ToBits(x, 4) + ToBits(y, 4));
    JoinBits(x, 4, y, 4);
  }

  lemma Decode4(b: Byte)
    ensures ByteDecode(4, [b]) == [b % 16, b / 16]
  {
    hide ByteEncode, ByteDecode, Pow2;
    Powers();
    Encode4(b % 16, b / 16);
    assert b == b % 16 + 16 * (b / 16);
    DecodeEncode(4, [b % 16, b / 16], 1);
  }

  // ----- one bit: eight coefficients in a byte -----------------------------------------

  lemma {:induction false} ConcatBits(s: seq<Bit>)
    ensures Concat(1, s) == s
  {
    if |s| > 0 {
      ConcatBits(s[1..]);
      assert ToBits(s[0], 1) == [s[0]];
    }
  }

  lemma Encode1(s: seq<Bit>)
    requires |s| == 8
    ensures ByteEncode(1, s) == [FromBits(s)]
  {
    ConcatBits(s);
    ChunkOne(8, s);
  }

  lemma {:induction false} ChunkBits(s: seq<Bit>)
    ensures Chunk(1, s) == s
  {
    if |s| > 0 {
      ChunkBits(s[1..]);
      assert s[..1][1..] == [];
    }
  }

  lemma Decode1(b: Byte)
    ensures ByteDecode(1, [b]) == ToBits(b, 8)
  {
    ConcatOne(8, b);
    ChunkBits(ToBits(b, 8));
  }
}
