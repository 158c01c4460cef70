/** The samplers of section 4.2.2 of FIPS 203 by the bits of their input. */
module SampleBits {
  import opened Bits
  import opened Codec
  import opened Sample

  // ----- rejection sampling: the 12-bit words below q ----------------------------------------

  function BelowQ(p: seq<nat>): seq<int> {
    if |p| == 0 then [] else (if p[0] < 3329 then [p[0]] else []) + BelowQ(p[1..])
  }

  lemma BelowTwo(x: nat, y: nat, p: seq<nat>)
    ensures BelowQ([x, y] + p) == (if x < 3329 then [x] else []) + (if y < 3329 then [y] else []) + BelowQ(p)
  {
    var s := [x, y] + p;
    assert s[1..] == [y] + p && ([y] + p)[1..] == p;
  }

  /** Whole groups of three bytes: what is accepted are the words of ByteDecode below q. */
  lemma {:induction false} AcceptedIsDecoded(s: seq<Byte>, k: nat)
    requires |s| == 3 * k
    ensures Accepted(s) == BelowQ(ByteDecode(12, s))
    decreases k
  {
    hide ByteDecode, BelowQ;
    if k == 0 {
      assert s == [];
      NothingDecoded(12);
    } else {
      var b0: Byte, b1: Byte, b2: Byte := s[0], s[1], s[2];
      var head: seq<Byte> := [b0, b1, b2];
      assert s == head + s[3..];
      AcceptedIsDecoded(s[3..], k - 1);
      DecodeAppend(12, head, s[3..], 2);
      Decode12(b0, b1, b2);
      BelowTwo(b0 + 256 * (b1 % 16), b1 / 16 + 16 * b2, ByteDecode(12, s[3..]));
      assert Accepted(s) == Accept3(b0, b1, b2) + Accepted(s[3..]);
    }
  }

  lemma NothingDecoded(d: nat)
    requires d > 0
    ensures ByteDecode(d, []) == [] && BelowQ([]) == []
  {}

  // ----- the centred binomial distribution: four bits a coefficient ----------------------------

  /** a + b - c - d */
  function Difference(a: int, b: int, c: int, d: int): int {
    a + b - c - d
  }

  lemma FourBits(y: nat)
    ensures ToBits(y, 4) == [y % 2, y / 2 % 2, y / 4 % 2, y / 8 % 2]
  {
    BitsStep(y, 4);
    BitsStep(y / 2, 3);
    BitsStep(y / 4, 2);
    BitsStep(y / 8, 1);
    hide ToBits;
    assert y / 2 / 2 == y / 4 && y / 4 / 2 == y / 8;
  }

  lemma BitsStep(y: nat, n: nat)
    requires n > 0
    ensures ToBits(y, n) == [y % 2] + ToBits(y / 2, n - 1) && ToBits(y / 2, 0) == []
  {}

  lemma Nibble(y: nat)
    requires y < 16
    ensures var w := ToBits(y, 4); |w| == 4 && CbdNibble(y) == Difference(w[0], w[1], w[2], w[3])
  {
    hide ToBits;
    FourBits(y);
  }

  lemma TwoNibbles(b: Byte)
    ensures ToBits(b, 8) == ToBits(b % 16, 4) + ToBits(b / 16, 4)
  {
    hide ToBits, Pow2;
    Powers();
    ToBitsJoin(b % 16, 4, b / 16, 4);
  }

  /** One byte gives two coefficients. */
  lemma Pair(b: Byte, i: nat)
    requires i < 2
    ensures var w := ToBits(b, 8);
      |w| == 8 && Cbd([b])[i] == Difference(w[4 * i], w[4 * i + 1], w[4 * i + 2], w[4 * i + 3])
  {
    hide ToBits, CbdNibble;
    TwoNibbles(b);
    Nibble(b % 16);
    Nibble(b / 16);
    assert [b][1..] == [];
  }

  /** Coefficient i is the difference of two sums of two bits, from bit 4i on. */
  lemma {:induction false} CbdByBits(buf: seq<Byte>, i: nat)
    requires i < 2 * |buf|
    ensures |ByteDecode(1, buf)| == 8 * |buf|
    ensures var w := ByteDecode(1, buf);
      Cbd(buf)[i] == Difference(w[4 * i], w[4 * i + 1], w[4 * i + 2], w[4 * i + 3])
  {
    hide ByteDecode, ToBits, CbdNibble, Difference;
    var b: Byte, rest := buf[0], buf[1..];
    assert buf == [b] + rest;
    DecodeAppend(1, [b], rest, 8);
    Decode1(b);
    DecodedLength(rest);
    CbdStep(b, rest);
    if i >= 2 {
      CbdByBits(rest, i - 2);
      Shifted(ToBits(b, 8), ByteDecode(1, rest), i);
    } else {
      Pair(b, i);
    }
  }

  lemma Shifted(v: seq<nat>, w: seq<nat>, i: nat)
    requires |v| == 8 && 2 <= i && 4 * i < |v| + |w| && |w| % 8 == 0
    ensures var s, k := v + w, 4 * (i - 2);
      s[4 * i] == w[k] && s[4 * i + 1] == w[k + 1] && s[4 * i + 2] == w[k + 2] && s[4 * i + 3] == w[k + 3]
  {}

  lemma CbdStep(b: Byte, rest: seq<Byte>)
    ensures Cbd([b] + rest) == Cbd([b]) + Cbd(rest)
  {
    hide CbdNibble;
    assert ([b] + rest)[1..] == rest && [b][1..] == [];
  }

  lemma DecodedLength(b: seq<Byte>)
    ensures |ByteDecode(1, b)| == 8 * |b|
  {
    EncodeDecode(1, b, 8 * |b|);
  }
}
