/** Variable-length integers (section 16 of RFC 9000). */
module Varint {
  import opened Bits

  const MAX_VARINT: nat := 0x4000_0000_0000_0000

  /** put_varint, for the values that have an encoding: the two bits above the value
      give the length. */
  function PutVarint(val: nat): (p: seq<Byte>)
    requires val < MAX_VARINT
    ensures |p| == 1 || |p| == 2 || |p| == 4 || |p| == 8
  {
    if val < 64 then [val]
    else if val < 16384 then [0x40 + val / 256, val % 256]
    else if val < 1073741824 then [0x80 + val / 0x100_0000, val / 65536 % 256, val / 256 % 256, val % 256]
    else [0xc0 + val / 0x100_0000_0000_0000, val / 0x1_0000_0000_0000 % 256, val / 0x100_0000_0000 % 256,
      val / 0x1_0000_0000 % 256, val / 0x100_0000 % 256, val / 65536 % 256, val / 256 % 256, val % 256]
  }

  /** Four big-endian digits. */
  function Four(a: nat, b: nat, c: nat, d: nat): nat {
    ((a * 256 + b) * 256 + c) * 256 + d
  }

  /** quic_parse_varint: the value and the length. If bytes are missing the value is 0
      and the caller's length variable l keeps what it had. */
  function ParseVarint(p: seq<Byte>, l: nat): (r: (nat, nat))
    ensures r.0 < MAX_VARINT
  {
    if |p| < 1 then (0, l)
    else
      var kind: nat, first: nat := p[0] / 64, p[0] % 64;
      if kind == 0 then (first, 1)
      else if kind == 1 then
        if |p| < 2 then (0, l) else (first * 256 + p[1], 2)
      else if kind == 2 then
        if |p| < 4 then (0, l) else (Four(first, p[1], p[2], p[3]), 4)
      else
        if |p| < 8 then (0, l)
        else (Four(first, p[1], p[2], p[3]) * 0x1_0000_0000 + Four(p[4], p[5], p[6], p[7]), 8)
  }

  /** The examples of section A.1 of RFC 9000; the last value has two encodings. */
  lemma Examples(l: nat)
    ensures ParseVarint([0xc2, 0x19, 0x7c, 0x5e, 0xff, 0x14, 0xe8, 0x8c], l) == (151288809941952652, 8)
    ensures ParseVarint([0x9d, 0x7f, 0x3e, 0x7d], l) == (494878333, 4)
    ensures ParseVarint([0x7b, 0xbd], l) == (15293, 2)
    ensures ParseVarint([0x25], l) == (37, 1) && ParseVarint([0x40, 0x25], l) == (37, 2)
  {}

  lemma DigitsOf(val: nat)
    ensures val == Four(val / 0x100_0000, val / 65536 % 256, val / 256 % 256, val % 256)
  {
    CutQuotient(val, 256, 256, 65536);
    CutQuotient(val, 65536, 256, 0x100_0000);
  }

  lemma HighDigits(val: nat)
    ensures val / 0x1_0000_0000 == Four(val / 0x100_0000_0000_0000, val / 0x1_0000_0000_0000 % 256,
              val / 0x100_0000_0000 % 256, val / 0x1_0000_0000 % 256)
    ensures val / 0x100_0000 == val / 0x1_0000_0000 * 256 + val / 0x100_0000 % 256
  {
    CutQuotient(val, 0x1_0000_0000, 256, 0x100_0000_0000);
    CutQuotient(val, 0x100_0000_0000, 256, 0x1_0000_0000_0000);
    CutQuotient(val, 0x1_0000_0000_0000, 256, 0x100_0000_0000_0000);
    CutQuotient(val, 0x100_0000, 256, 0x1_0000_0000);
  }

  /** Parsing what was written returns the value, whatever follows it. */
  lemma VarintRoundTrip(val: nat, rest: seq<Byte>, l: nat)
    requires val < MAX_VARINT
    ensures ParseVarint(PutVarint(val) + rest, l) == (val, |PutVarint(val)|)
  {
    hide ParseVarint, PutVarint, Four;
    if val < 64 {
      OneByte(val, rest, l);
    } else if val < 16384 {
      TwoBytes(val, rest, l);
    } else if val < 1073741824 {
      FourBytes(val, rest, l);
    } else {
      EightBytes(val, rest, l);
    }
  }

  lemma OneByte(val: nat, rest: seq<Byte>, l: nat)
    requires val < 64
    ensures ParseVarint(PutVarint(val) + rest, l) == (val, 1) && |PutVarint(val)| == 1
  {
    hide Four;
  }

  /** The two bits above the value. */
  lemma Tagged(kind: nat, top: nat)
    requires kind < 4 && top < 64
    ensures (64 * kind + top) / 64 == kind && (64 * kind + top) % 64 == top
  {}

  lemma TwoBytes(val: nat, rest: seq<Byte>, l: nat)
    requires 64 <= val < 16384
    ensures ParseVarint(PutVarint(val) + rest, l) == (val, 2) && |PutVarint(val)| == 2
  {
    hide Four;
    Tagged(1, val / 256);
  }

  /** Reading the longer encodings. */
  lemma ParseFour(p: seq<Byte>, l: nat)
    requires |p| >= 4 && p[0] / 64 == 2
    ensures ParseVarint(p, l) == (Four(p[0] % 64, p[1], p[2], p[3]), 4)
  {
    hide Four;
  }

  lemma ParseEight(p: seq<Byte>, l: nat)
    requires |p| >= 8 && p[0] / 64 == 3
    ensures ParseVarint(p, l) == (Four(p[0] % 64, p[1], p[2], p[3]) * 0x1_0000_0000 + Four(p[4], p[5], p[6], p[7]), 8)
  {
    hide Four;
  }

  lemma FourBytes(val: nat, rest: seq<Byte>, l: nat)
    requires 16384 <= val < 1073741824
    ensures ParseVarint(PutVarint(val) + rest, l) == (val, 4) && |PutVarint(val)| == 4
  {
    hide ParseVarint, Four;
    DigitsOf(val);
    Tagged(2, val / 0x100_0000);
    ParseFour(PutVarint(val) + rest, l);
  }

  lemma EightBytes(val: nat, rest: seq<Byte>, l: nat)
    requires 1073741824 <= val < MAX_VARINT
    ensures ParseVarint(PutVarint(val) + rest, l) == (val, 8) && |PutVarint(val)| == 8
  {
    hide ParseVarint;
    HighDigits(val);
    LowDigits(val);
    Tagged(3, val / 0x100_0000_0000_0000);
    ParseEight(PutVarint(val) + rest, l);
  }

  lemma LowDigits(val: nat)
    ensures val == val / 0x1_0000_0000 * 0x1_0000_0000
      + Four(val / 0x100_0000 % 256, val / 65536 % 256, val / 256 % 256, val % 256)
  {
    DigitsOf(val);
    HighDigits(val);
  }
}
