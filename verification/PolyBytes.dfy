/** The byte conversions of poly.c and polyvec.c. Output buffers that C fills through
    a moving pointer are sequences that grow at the end. */
module PolyBytes {
  import opened Bits
  import opened Codec
  import opened Ring
  import opened Compress

  function LiftPoly(a: Poly): (r: seq<nat>)
    requires forall i :: 0 <= i < |a| ==> -3329 <= a[i] < 4096
    ensures |r| == |a|
    ensures forall i :: 0 <= i < |a| ==> r[i] == Lift(a[i])
  {
    seq(|a|, i requires 0 <= i < |a| => Lift(a[i]))
  }

  /** Compress_d on every coefficient, taken modulo q. */
  function RoundPoly(d: nat, a: Poly): (r: seq<nat>)
    ensures |r| == |a|
    ensures forall i :: 0 <= i < |a| ==> r[i] == Round(d, a[i] % 3329) < Pow2(d)
  {
    seq(|a|, i requires 0 <= i < |a| => Round(d, a[i] % 3329))
  }

  /** Decompress_d on every word. */
  function ExpandPoly(d: nat, y: seq<nat>): (r: Poly)
    ensures |r| == |y|
    ensures forall i :: 0 <= i < |y| ==> r[i] == Expand(d, y[i])
  {
    seq(|y|, i requires 0 <= i < |y| => Expand(d, y[i]))
  }

  lemma ByteRemainder(x: int, k: int, r: int)
    requires x == 256 * k + r && 0 <= r < 256
    ensures x % 256 == r
  {}

  lemma WordRemainder(x: int, k: int, r: int)
    requires x == 1024 * k + r && 0 <= r < 1024
    ensures x % 1024 == r
  {}

  /** OR of a value below 2^k with a multiple of 2^k, truncated to a byte. */
  lemma OrByte2(a: nat, b: nat)
    requires a < 4
    ensures Or(a, b * 4) % 256 == a + 4 * (b % 64)
  {
    hide Or, Pow2;
    Powers();
    OrAdds(a, b, 2);
    ByteRemainder(a + b * 4, b / 64, a + 4 * (b % 64));
  }

  lemma OrByte4(a: nat, b: nat)
    requires a < 16
    ensures Or(a, b * 16) % 256 == a + 16 * (b % 16)
  {
    hide Or, Pow2;
    Powers();
    OrAdds(a, b, 4);
    ByteRemainder(a + b * 16, b / 16, a + 16 * (b % 16));
  }

  lemma OrByte6(a: nat, b: nat)
    requires a < 64
    ensures Or(a, b * 64) % 256 == a + 64 * (b % 4)
  {
    hide Or, Pow2;
    Powers();
    OrAdds(a, b, 6);
    ByteRemainder(a + b * 64, b / 4, a + 64 * (b % 4));
  }

  lemma Take2<T>(s: seq<T>, i: nat)
    requires 2 * i + 2 <= |s|
    ensures s[..2 * (i + 1)] == s[..2 * i] + [s[2 * i], s[2 * i + 1]]
  {}

  method PolyToBytes(a: Poly) returns (r: seq<Byte>)
    requires |a| == 256 && forall i :: 0 <= i < 256 ==> -3329 <= a[i] < 4096
    ensures r == ByteEncode(12, LiftPoly(a))
  {
    hide ByteEncode, Lift, Or;
    ghost var p := LiftPoly(a);
    EncodeNothing(12);
    r := [];
    var i := 0;
    while i < 128
      invariant 0 <= i <= 128 && r == ByteEncode(12, p[..2 * i])
    {
      var t0 := Lift(a[2 * i]);
      var t1 := Lift(a[2 * i + 1]);
      Powers();
      OrByte4(t0 / 256, t1);
      Encode12(t0, t1);
      Take2(p, i);
      EncodeAppend(12, p[..2 * i], [t0, t1], 3 * i);
      r := r + [t0 % 256, Or(t0 / 256, t1 * 16) % 256, t1 / 16 % 256];
      i := i + 1;
    }
    assert p[..256] == p;
  }

  lemma EncodeNothing(d: nat)
    ensures ByteEncode(d, []) == []
  {}

  lemma DecodeNothing(d: nat)
    requires d > 0
    ensures ByteDecode(d, []) == []
  {}

  lemma Unpack2(b0: nat, b1: nat, b2: nat)
    requires b0 < 256 && b1 < 256 && b2 < 256
    ensures ByteDecode(12, [b0, b1, b2]) == [Or(b0, b1 * 256) % 4096, Or(b1 / 16, b2 * 16) % 4096]
  {
    hide ByteDecode, Or, Pow2;
    Powers();
    OrAdds(b0, b1, 8);
    OrAdds(b1 / 16, b2, 4);
    Decode12(b0, b1, b2);
    TwelveBits(b0, b1);
  }

  lemma TwelveBits(b0: nat, b1: nat)
    requires b0 < 256 && b1 < 256
    ensures (b0 + b1 * 256) % 4096 == b0 + 256 * (b1 % 16)
  {
    QuotientUnique(b0 + b1 * 256, 4096, b1 / 16, b0 + 256 * (b1 % 16));
  }

  method PolyFromBytes(b: seq<Byte>) returns (r: Poly)
    requires |b| == 384
    ensures r == ByteDecode(12, b) && |r| == 256
    ensures forall i :: 0 <= i < 256 ==> 0 <= r[i] < 4096
  {
    hide ByteDecode, Or, Pow2;
    DecodeNothing(12);
    r := [];
    var i := 0;
    while i < 128
      invariant 0 <= i <= 128 && |r| == 2 * i && r == ByteDecode(12, b[..3 * i])
    {
      var b0: nat, b1: nat, b2: nat := b[3 * i], b[3 * i + 1], b[3 * i + 2];
      Unpack2(b0, b1, b2);
      assert b[..3 * (i + 1)] == b[..3 * i] + [b0, b1, b2];
      DecodeAppend(12, b[..3 * i], [b0, b1, b2], 2 * i);
      r := r + [Or(b0, b1 * 256) % 4096, Or(b1 / 16, b2 * 16) % 4096];
      i := i + 1;
    }
    assert b[..384] == b;
    Powers();
  }

  method PolyCompress(a: Poly) returns (r: seq<Byte>)
    requires |a| == 256 && forall i :: 0 <= i < 256 ==> -3329 < a[i] < 3329
    ensures r == ByteEncode(4, RoundPoly(4, a))
  {
    hide ByteEncode, Lift, Or, Code4, Round, Pow2;
    ghost var p := RoundPoly(4, a);
    EncodeNothing(4);
    Powers();
    r := [];
    var i := 0;
    while i < 32
      invariant 0 <= i <= 32 && r == ByteEncode(4, p[..8 * i])
    {
      var t: seq<nat> := [];
      var j := 0;
      while j < 8
        invariant 0 <= j <= 8 && t == p[8 * i..8 * i + j]
      {
        LiftSmall(a[8 * i + j]);
        var u := Lift(a[8 * i + j]);
        Code4Rounds(u);
        t := t + [Code4(u)];
        j := j + 1;
      }
      Compress8(p, i, t);
      r := r + [Or(t[0], t[1] * 16) % 256, Or(t[2], t[3] * 16) % 256,
                Or(t[4], t[5] * 16) % 256, Or(t[6], t[7] * 16) % 256];
      i := i + 1;
    }
    assert p[..256] == p;
  }

  lemma LiftSmall(a: int)
    requires -3329 < a < 3329
    ensures Lift(a) == a % 3329 < 3329
  {}

  lemma Compress8(p: seq<nat>, i: nat, t: seq<nat>)
    requires 8 * i + 8 <= |p| && t == p[8 * i..8 * i + 8]
    requires forall j :: 0 <= j < |p| ==> p[j] < 16
    ensures ByteEncode(4, p[..8 * (i + 1)]) == ByteEncode(4, p[..8 * i])
      + [Or(t[0], t[1] * 16) % 256, Or(t[2], t[3] * 16) % 256,
         Or(t[4], t[5] * 16) % 256, Or(t[6], t[7] * 16) % 256]
  {
    hide ByteEncode, Or, Pow2;
    Powers();
    assert forall j :: 0 <= j < 8 ==> t[j] < 16;
    Compress2(p, 4 * i, t[0], t[1]);
    Compress2(p, 4 * i + 1, t[2], t[3]);
    Compress2(p, 4 * i + 2, t[4], t[5]);
    Compress2(p, 4 * i + 3, t[6], t[7]);
  }

  lemma Compress2(p: seq<nat>, i: nat, x: nat, y: nat)
    requires 2 * i + 2 <= |p| && x == p[2 * i] < 16 && y == p[2 * i + 1] < 16
    ensures ByteEncode(4, p[..2 * (i + 1)]) == ByteEncode(4, p[..2 * i]) + [Or(x, y * 16) % 256]
  {
    hide ByteEncode, Or, Pow2;
    Powers();
    OrByte4(x, y);
    Encode4(x, y);
    Take2(p, i);
    EncodeAppend(4, p[..2 * i], [x, y], i);
  }

  method PolyDecompress(b: seq<Byte>) returns (r: Poly)
    requires |b| == 128
    ensures r == ExpandPoly(4, ByteDecode(4, b)) && |r| == 256
    ensures forall i :: 0 <= i < 256 ==> 0 <= r[i] < 3329
  {
    hide ByteDecode, Pow2, Expand;
    DecodeNothing(4);
    r := [];
    var i := 0;
    while i < 128
      invariant 0 <= i <= 128 && |r| == 2 * i && r == ExpandPoly(4, ByteDecode(4, b[..i]))
      invariant forall j :: 0 <= j < 2 * i ==> 0 <= r[j] < 3329
    {
      Decode4(b[i]);
      assert b[..i + 1] == b[..i] + [b[i]];
      DecodeAppend(4, b[..i], [b[i]], 2 * i);
      Expand4(b[i] % 16);
      Expand4(b[i] / 16);
      var x: nat := b[i];
      r := r + [(x % 16 * 3329 + 8) / 16, (x / 16 * 3329 + 8) / 16];
      i := i + 1;
    }
    assert b[..128] == b;
  }

  lemma Expand4(y: nat)
    requires y < 16
    ensures Expand(4, y) == (y * 3329 + 8) / 16 < 3329
  {
    Powers();
  }

  lemma Expand10(y: nat)
    requires y < 1024
    ensures Expand(10, y) == (y * 3329 + 512) / 1024 < 3329
  {
    Powers();
  }

  /** polyvec_compress for one polynomial of the vector. */
  method PolyCompress10(a: Poly) returns (r: seq<Byte>)
    requires |a| == 256 && forall i :: 0 <= i < 256 ==> -3329 < a[i] < 3329
    ensures r == ByteEncode(10, RoundPoly(10, a))
  {
    hide ByteEncode, Lift, Or, Code10, Round, Pow2;
    ghost var p := RoundPoly(10, a);
    EncodeNothing(10);
    Powers();
    r := [];
    var j := 0;
    while j < 64
      invariant 0 <= j <= 64 && r == ByteEncode(10, p[..4 * j])
    {
      var t: seq<nat> := [];
      var k := 0;
      while k < 4
        invariant 0 <= k <= 4 && t == p[4 * j..4 * j + k]
      {
        LiftSmall(a[4 * j + k]);
        var u := Lift(a[4 * j + k]);
        Code10Rounds(u);
        t := t + [Code10(u)];
        k := k + 1;
      }
      Compress4(p, j, t);
      r := r + [t[0] % 256, Or(t[0] / 256, t[1] * 4) % 256, Or(t[1] / 64, t[2] * 16) % 256,
                Or(t[2] / 16, t[3] * 64) % 256, t[3] / 4 % 256];
      j := j + 1;
    }
    assert p[..256] == p;
  }

  lemma Compress4(p: seq<nat>, j: nat, t: seq<nat>)
    requires 4 * j + 4 <= |p| && t == p[4 * j..4 * j + 4]
    requires forall i :: 0 <= i < |p| ==> p[i] < 1024
    ensures ByteEncode(10, p[..4 * (j + 1)]) == ByteEncode(10, p[..4 * j])
      + [t[0] % 256, Or(t[0] / 256, t[1] * 4) % 256, Or(t[1] / 64, t[2] * 16) % 256,
         Or(t[2] / 16, t[3] * 64) % 256, t[3] / 4 % 256]
  {
    hide ByteEncode, Or, Pow2;
    Powers();
    assert forall i :: 0 <= i < 4 ==> t[i] < 1024;
    OrByte2(t[0] / 256, t[1]);
    OrByte4(t[1] / 64, t[2]);
    OrByte6(t[2] / 16, t[3]);
    Encode10(t[0], t[1], t[2], t[3]);
    assert t == [t[0], t[1], t[2], t[3]];
    assert p[..4 * (j + 1)] == p[..4 * j] + t;
    EncodeAppend(10, p[..4 * j], t, 5 * j);
  }

  /** polyvec_decompress for one polynomial of the vector. */
  method PolyDecompress10(b: seq<Byte>) returns (r: Poly)
    requires |b| == 320
    ensures r == ExpandPoly(10, ByteDecode(10, b)) && |r| == 256
    ensures forall i :: 0 <= i < 256 ==> 0 <= r[i] < 3329
  {
    hide ByteDecode, Or, Pow2, Expand;
    DecodeNothing(10);
    r := [];
    var j := 0;
    while j < 64
      invariant 0 <= j <= 64 && |r| == 4 * j && r == ExpandPoly(10, ByteDecode(10, b[..5 * j]))
      invariant forall i :: 0 <= i < 4 * j ==> 0 <= r[i] < 3329
    {
      ghost var a := b[5 * j..5 * j + 5];
      var a0: nat, a1: nat, a2: nat := b[5 * j], b[5 * j + 1], b[5 * j + 2];
      var a3: nat, a4: nat := b[5 * j + 3], b[5 * j + 4];
      var t := [Or(a0, a1 * 256), Or(a1 / 4, a2 * 64), Or(a2 / 16, a3 * 16), Or(a3 / 64, a4 * 4)];
      assert a == [a0, a1, a2, a3, a4];
      Unpack4(a, a0, a1, a2, a3, a4, t);
      assert b[..5 * (j + 1)] == b[..5 * j] + a;
      DecodeAppend(10, b[..5 * j], a, 4 * j);
      ghost var was := r;
      ghost var y := ByteDecode(10, a);
      var k := 0;
      while k < 4
        invariant 0 <= k <= 4 && r == was + ExpandPoly(10, y[..k])
        invariant forall i :: 0 <= i < |r| ==> 0 <= r[i] < 3329
      {
        Expand10(y[k]);
        r := r + [(t[k] % 1024 * 3329 + 512) / 1024];
        k := k + 1;
      }
      assert y[..4] == y;
      j := j + 1;
    }
    assert b[..320] == b;
  }

  lemma Unpack4(a: seq<Byte>, a0: nat, a1: nat, a2: nat, a3: nat, a4: nat, t: seq<nat>)
    requires a0 < 256 && a1 < 256 && a2 < 256 && a3 < 256 && a4 < 256 && a == [a0, a1, a2, a3, a4]
    requires t == [Or(a0, a1 * 256), Or(a1 / 4, a2 * 64), Or(a2 / 16, a3 * 16), Or(a3 / 64, a4 * 4)]
    ensures |ByteDecode(10, a)| == 4
    ensures forall k :: 0 <= k < 4 ==> ByteDecode(10, a)[k] == t[k] % 1024 < 1024
  {
    hide ByteDecode, Or, Pow2;
    Powers();
    OrAdds(a0, a1, 8);
    OrAdds(a1 / 4, a2, 6);
    OrAdds(a2 / 16, a3, 4);
    OrAdds(a3 / 64, a4, 2);
    Decode10(a0, a1, a2, a3, a4);
    WordRemainder(a0 + a1 * 256, a1 / 4, a0 + 256 * (a1 % 4));
    WordRemainder(a1 / 4 + a2 * 64, a2 / 16, a1 / 4 + 64 * (a2 % 16));
    WordRemainder(a2 / 16 + a3 * 16, a3 / 64, a2 / 16 + 16 * (a3 % 64));
    WordRemainder(a3 / 64 + a4 * 4, 0, a3 / 64 + 4 * a4);
  }

  /** cmov_int16: v where the bit is set, the old value otherwise. */
  function CmovInt16(r: bv16, v: bv16, b: bv16): (x: bv16)
    ensures b == 0 ==> x == r
    ensures b == 1 ==> x == v
  {
    r ^ ((0 - b) & (r ^ v))
  }

  method PolyFromMsg(msg: seq<Byte>) returns (r: Poly)
    requires |msg| == 32
    ensures r == Scale(1665, ByteDecode(1, msg)) && |r| == 256
    ensures forall i :: 0 <= i < 256 ==> r[i] == 0 || r[i] == 1665
  {
    hide ByteDecode, CmovInt16, ToBits;
    DecodeNothing(1);
    r := [];
    var i := 0;
    while i < 32
      invariant 0 <= i <= 32 && |r| == 8 * i && r == Scale(1665, ByteDecode(1, msg[..i]))
      invariant forall k :: 0 <= k < 8 * i ==> r[k] == 0 || r[k] == 1665
    {
      Decode1(msg[i]);
      assert msg[..i + 1] == msg[..i] + [msg[i]];
      DecodeAppend(1, msg[..i], [msg[i]], 8 * i);
      ghost var was := r;
      ghost var bits := ToBits(msg[i], 8);
      var x := msg[i];
      var j := 0;
      while j < 8
        invariant 0 <= j <= 8 && r == was + Scale(1665, bits[..j]) && bits[j..] == ToBits(x, 8 - j)
        invariant forall k :: 0 <= k < |r| ==> r[k] == 0 || r[k] == 1665
      {
        NextBit(x, 8 - j);
        var b := CmovInt16(0, 1665, if x % 2 == 1 then 1 else 0);
        r := r + [b as int];
        x := x / 2;
        j := j + 1;
      }
      assert bits[..8] == bits;
      i := i + 1;
    }
    assert msg[..32] == msg;
  }

  lemma NextBit(x: nat, n: nat)
    requires n > 0
    ensures ToBits(x, n) == [x % 2] + ToBits(x / 2, n - 1)
  {}

  method PolyToMsg(a: Poly) returns (msg: seq<Byte>)
    requires |a| == 256 && forall i :: 0 <= i < 256 ==> -1664 <= a[i] <= 1664
    ensures msg == ByteEncode(1, RoundPoly(1, a))
  {
    hide ByteEncode, Code1, Round, Or, FromBits, Pow2;
    Powers();
    ghost var p := RoundPoly(1, a);
    EncodeNothing(1);
    msg := [];
    var i := 0;
    while i < 32
      invariant 0 <= i <= 32 && msg == ByteEncode(1, p[..8 * i])
    {
      ghost var bits: seq<Bit> := p[8 * i..8 * i + 8];
      var m: nat := 0;
      var w: nat := 1;
      var j := 0;
      while j < 8
        invariant 0 <= j <= 8 && w == Pow2(j) && m == FromBits(bits[..j])
      {
        Code1Decides(a[8 * i + j]);
        var t := Code1(a[8 * i + j]);
        assert t == bits[j] && bits[..j + 1] == bits[..j] + [bits[j]];
        FromBitsAppend(bits[..j], [bits[j]]);
        OneBit(bits[j]);
        OrAdds(m, t, j);
        m := Or(m, t * w);
        DoublePow(j);
        w := 2 * w;
        j := j + 1;
      }
      assert bits[..8] == bits;
      Encode1(bits);
      assert p[..8 * (i + 1)] == p[..8 * i] + bits;
      EncodeAppend(1, p[..8 * i], bits, i);
      msg := msg + [m];
      i := i + 1;
    }
    assert p[..256] == p;
  }

  lemma OneBit(b: Bit)
    ensures FromBits([b]) == b
  {}

  lemma DoublePow(j: nat)
    ensures Pow2(j + 1) == 2 * Pow2(j)
  {}
}
