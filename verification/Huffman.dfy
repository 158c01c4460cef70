/** huffman_decode of qpack.c against the encoder of section 5.2 of RFC 7541. */
module Huffman {
  import opened Bits
  import opened HuffTable

  // ----- bit strings, most significant bit first ---------------------------------------------

  function Bin(x: nat, n: nat): (w: seq<Bit>)
    ensures |w| == n
  {
    if n == 0 then [] else Bin(x / 2, n - 1) + [x % 2]
  }

  function Number(w: seq<Bit>): (x: nat)
    ensures x < Pow2(|w|)
  {
    if |w| == 0 then 0 else 2 * Number(w[..|w| - 1]) + w[|w| - 1]
  }

  lemma {:induction false} NumberOfBin(x: nat, n: nat)
    requires x < Pow2(n)
    ensures Number(Bin(x, n)) == x
  {
    if n > 0 {
      NumberOfBin(x / 2, n - 1);
      assert Bin(x, n)[..n - 1] == Bin(x / 2, n - 1);
    }
  }

  lemma {:induction false} BinOfNumber(w: seq<Bit>)
    ensures Bin(Number(w), |w|) == w
  {
    if |w| > 0 {
      BinOfNumber(w[..|w| - 1]);
      assert w == w[..|w| - 1] + [w[|w| - 1]];
    }
  }

  lemma {:induction false} BinJoin(x: nat, m: nat, y: nat, n: nat)
    requires y < Pow2(n)
    ensures Bin(x * Pow2(n) + y, m + n) == Bin(x, m) + Bin(y, n)
  {
    if n > 0 {
      BinJoin(x, m, y / 2, n - 1);
      TwiceProduct(x, Pow2(n - 1));
      BinStep(x * Pow2(n - 1), y, m + n);
    }
  }

  lemma BinStep(t: nat, y: nat, n: nat)
    requires n > 0
    ensures Bin(2 * t + y, n) == Bin(t + y / 2, n - 1) + [y % 2]
  {}

  /** x >> n */
  function Top(x: nat, n: nat): nat {
    if n == 0 then x else Top(x / 2, n - 1)
  }

  /** The n low bits of x. */
  function Low(x: nat, n: nat): (r: nat)
    ensures r < Pow2(n)
  {
    if n == 0 then 0 else x % 2 + 2 * Low(x / 2, n - 1)
  }

  lemma {:induction false} TopLow(x: nat, n: nat)
    ensures x == Top(x, n) * Pow2(n) + Low(x, n)
  {
    if n > 0 {
      TopLow(x / 2, n - 1);
      TwiceProduct(Top(x, n), Pow2(n - 1));
    }
  }

  lemma BinSplit(x: nat, n: nat, c: nat)
    requires c <= n
    ensures Bin(x, n) == Bin(Top(x, n - c), c) + Bin(Low(x, n - c), n - c)
  {
    hide Bin, Top, Low, Pow2;
    TopLow(x, n - c);
    BinJoin(Top(x, n - c), c, Low(x, n - c), n - c);
  }

  lemma BinEqual(x: nat, y: nat, n: nat)
    requires x < Pow2(n) && y < Pow2(n) && Bin(x, n) == Bin(y, n)
    ensures x == y
  {
    NumberOfBin(x, n);
    NumberOfBin(y, n);
  }

  function Ones(n: nat): (w: seq<Bit>)
    ensures |w| == n
  {
    seq(n, _ => 1)
  }

  lemma {:induction false} OnesNumber(n: nat)
    ensures Bin(Pow2(n) - 1, n) == Ones(n)
  {
    if n > 0 {
      OnesNumber(n - 1);
      assert Ones(n) == Ones(n - 1) + [1];
    }
  }

  // ----- the code -----------------------------------------------------------------------------

  function CodeBits(k: Byte): (w: seq<Bit>)
    ensures 5 <= |w| <= 30
  {
    Bin(Code(k), Length(k))
  }

  /** Where a symbol stands among the codes. */
  lemma Entry(k: Byte)
    ensures Code(k) < First(Length(k)) + Count(Length(k)) < Pow2(Length(k))
    ensures First(Length(k)) <= Code(k)
    ensures Base(Length(k)) + Code(k) - First(Length(k)) < 256
    ensures Ordered(Base(Length(k)) + Code(k) - First(Length(k))) == k
  {
    hide Code, Length, First, Count, Base, Ordered;
    EveryEntry(k);
    BelowOnes(Length(k));
  }

  /** No code is the beginning of another. */
  lemma PrefixFree(a: Byte, b: Byte)
    requires CodeBits(a) <= CodeBits(b)
    ensures a == b
  {
    hide Code, Length, First, Count, Base, Ordered, Bin, Pow2, Top, Low;
    Entry(a);
    Entry(b);
    var l, m := Length(a), Length(b);
    BinSplit(Code(b), m, l);
    assert Bin(Code(a), l) == Bin(Top(Code(b), m - l), l);
    TopBelow(Code(b), m, l);
    BinEqual(Code(a), Top(Code(b), m - l), l);
    if l < m {
      Gap(l, m);
      NotBelow(Code(b), First(l) + Count(l), m - l);
    } else {
      TopNothing(Code(b));
    }
  }

  lemma TopNothing(x: nat)
    ensures Top(x, 0) == x && Pow2(0) == 1
  {}

  lemma TopBelow(x: nat, m: nat, l: nat)
    requires l <= m && x < Pow2(m)
    ensures Top(x, m - l) < Pow2(l)
  {
    hide Top, Low, Pow2;
    Pow2Add(l, m - l);
    TopLow(x, m - l);
    if Top(x, m - l) >= Pow2(l) {
      ScaleOrder(Pow2(l), Top(x, m - l), Pow2(m - l));
    }
  }

  lemma NotBelow(x: nat, k: nat, n: nat)
    requires k * Pow2(n) <= x
    ensures Top(x, n) >= k
  {
    hide Top, Low, Pow2;
    TopLow(x, n);
    var q := Top(x, n);
    assert (q + 1) * Pow2(n) == q * Pow2(n) + Pow2(n);
    if q < k {
      ScaleOrder(q + 1, k, Pow2(n));
    }
  }

  lemma {:induction false} SmallLow(x: nat, n: nat)
    requires x < Pow2(n)
    ensures Low(x, n) == x
  {
    if n > 0 {
      SmallLow(x / 2, n - 1);
    }
  }

  lemma NoOnes(k: Byte, n: nat)
    ensures !(CodeBits(k) <= Ones(n))
  {
    hide Code, Length, First, Count, Base, Ordered, Bin;
    if CodeBits(k) <= Ones(n) {
      var l := Length(k);
      assert CodeBits(k) == Ones(n)[..l] == Ones(l);
      OnesNumber(l);
      Entry(k);
      BinEqual(Code(k), Pow2(l) - 1, l);
      assert false;
    }
  }

  // ----- decoding ------------------------------------------------------------------------------

  /** The first symbol, from k on, whose code starts w; 256 if there is none. */
  function FirstMatch(w: seq<Bit>, k: nat): (r: nat)
    requires k <= 256
    ensures k <= r <= 256
    ensures r < 256 ==> CodeBits(r) <= w
    ensures forall j: nat :: k <= j < r ==> !(CodeBits(j) <= w)
    decreases 256 - k
  {
    if k == 256 || CodeBits(k) <= w then k else FirstMatch(w, k + 1)
  }

  /** The symbols of a bit string, up to the first position where no code matches. */
  function Symbols(w: seq<Bit>): seq<Byte> {
    var k := FirstMatch(w, 0);
    if k == 256 then [] else [k] + Symbols(w[|CodeBits(k)|..])
  }

  function InputBits(s: seq<Byte>): (w: seq<Bit>)
    ensures |w| == 8 * |s|
  {
    if |s| == 0 then [] else Bin(s[0], 8) + InputBits(s[1..])
  }

  /** What fits in front of the terminating zero. */
  function Truncated(s: seq<Byte>, room: int): seq<Byte> {
    if |s| <= room then s else if room <= 0 then [] else s[..room]
  }

  // ----- the decoder ---------------------------------------------------------------------------

  /** The symbols are compared in turn with the top bits of the accumulator. */
  method Scan(acc: nat, acc_bits: nat) returns (matched: nat)
    requires acc < Pow2(acc_bits)
    ensures matched == FirstMatch(Bin(acc, acc_bits), 0)
  {
    hide Code, Length, Bin, FirstMatch, Top, Low, Pow2;
    matched := 0;
    StartMatch(Bin(acc, acc_bits), 0);
    while matched < 256
      invariant matched <= 256
      invariant FirstMatch(Bin(acc, acc_bits), 0) == FirstMatch(Bin(acc, acc_bits), matched)
    {
      var clen := Length(matched);
      StartMatch(Bin(acc, acc_bits), matched);
      if clen <= acc_bits {
        TopMatches(acc, acc_bits, matched);
        if Low(Top(acc, acc_bits - clen), clen) == Code(matched) {
          return;
        }
      }
      matched := matched + 1;
    }
    StartMatch(Bin(acc, acc_bits), 256);
  }

  lemma StartMatch(w: seq<Bit>, k: nat)
    requires k <= 256
    ensures FirstMatch(w, k) == if k == 256 || CodeBits(k) <= w then k else FirstMatch(w, k + 1)
  {}

  lemma TopMatches(acc: nat, acc_bits: nat, k: Byte)
    requires acc < Pow2(acc_bits) && Length(k) <= acc_bits
    ensures Low(Top(acc, acc_bits - Length(k)), Length(k)) == Code(k) <==> CodeBits(k) <= Bin(acc, acc_bits)
  {
    hide Code, Length, Bin, First, Count, Base, Ordered, Pow2, Top, Low;
    var l := Length(k);
    var top := Top(acc, acc_bits - l);
    BinSplit(acc, acc_bits, l);
    TopBelow(acc, acc_bits, l);
    SmallLow(top, l);
    Entry(k);
    if CodeBits(k) <= Bin(acc, acc_bits) {
      BinEqual(top, Code(k), l);
    }
  }

  /** The mask that keeps n bits of a 64-bit word. */
  function KeepLow(acc: nat, n: nat): nat {
    if n >= 64 then 0 else Low(acc, n)
  }

  /** huffman_decode: the bytes written before the terminating zero. The accumulator
      never holds more than 63 bits. */
  method Decode(input: seq<Byte>, max_out: int) returns (out: seq<Byte>)
    ensures out == Truncated(Symbols(InputBits(input)), max_out - 1)
  {
    hide Bin, Symbols, FirstMatch, Length, Code, CodeBits, InputBits, Pow2, Low;
    var acc: nat, acc_bits: nat, in_pos: nat := 0, 0, 0;
    out := [];
    ghost var seen: seq<Byte> := [];
    ghost var rest := InputBits(input);
    StartOfInput(input);
    while in_pos < |input| || acc_bits > 0
      invariant in_pos <= |input| && acc_bits <= 63 && acc < Pow2(acc_bits)
      invariant rest == Bin(acc, acc_bits) + InputBits(input[in_pos..])
      invariant out == Truncated(seen, max_out - 1)
      invariant Symbols(InputBits(input)) == seen + Symbols(rest)
      decreases |rest|
    {
      acc, acc_bits, in_pos := Fill(input, acc, acc_bits, in_pos);
      var sym := Scan(acc, acc_bits);
      LongEnough(Bin(acc, acc_bits), InputBits(input[in_pos..]), 0);
      SymbolsStep(rest);
      if sym == 256 {
        break;
      }
      if |out| < max_out - 1 {
        out := out + [sym];
      }
      Consume(acc, acc_bits, sym, InputBits(input[in_pos..]));
      seen, rest := seen + [sym], rest[Length(sym)..];
      acc_bits := acc_bits - Length(sym);
      acc := KeepLow(acc, acc_bits);
    }
    SymbolsStep(rest);
  }

  /** The accumulator is filled while a byte fits and input remains. */
  method Fill(input: seq<Byte>, acc_: nat, bits_: nat, pos_: nat) returns (acc: nat, acc_bits: nat, in_pos: nat)
    requires pos_ <= |input| && bits_ <= 63 && acc_ < Pow2(bits_)
    ensures in_pos <= |input| && acc_bits <= 63 && acc < Pow2(acc_bits)
    ensures acc_bits >= 56 || in_pos == |input|
    ensures Bin(acc, acc_bits) + InputBits(input[in_pos..]) == Bin(acc_, bits_) + InputBits(input[pos_..])
  {
    hide Bin, InputBits, Pow2;
    acc, acc_bits, in_pos := acc_, bits_, pos_;
    while acc_bits <= 55 && in_pos < |input|
      invariant in_pos <= |input| && acc_bits <= 63 && acc < Pow2(acc_bits)
      invariant Bin(acc, acc_bits) + InputBits(input[in_pos..]) == Bin(acc_, bits_) + InputBits(input[pos_..])
    {
      NextByte(input, acc, acc_bits, in_pos);
      acc, acc_bits, in_pos := acc * 256 + input[in_pos], acc_bits + 8, in_pos + 1;
    }
  }

  lemma NextByte(input: seq<Byte>, acc: nat, acc_bits: nat, in_pos: nat)
    requires in_pos < |input| && acc < Pow2(acc_bits)
    ensures acc * 256 + input[in_pos] < Pow2(acc_bits + 8)
    ensures Bin(acc * 256 + input[in_pos], acc_bits + 8) + InputBits(input[in_pos + 1..])
      == Bin(acc, acc_bits) + InputBits(input[in_pos..])
  {
    hide Bin, InputBits;
    Powers();
    Pow2Add(acc_bits, 8);
    BinJoin(acc, acc_bits, input[in_pos], 8);
    FirstInput(input[in_pos..]);
    assert input[in_pos..][1..] == input[in_pos + 1..];
  }

  lemma FirstInput(s: seq<Byte>)
    requires |s| > 0
    ensures InputBits(s) == Bin(s[0], 8) + InputBits(s[1..])
  {}

  lemma StartOfInput(input: seq<Byte>)
    ensures Pow2(0) == 1 && Bin(0, 0) + InputBits(input[0..]) == InputBits(input)
  {
    assert input[0..] == input;
  }

  /** The accumulator holds a whole code unless the input is used up. */
  lemma {:induction false} LongEnough(v: seq<Bit>, u: seq<Bit>, k: nat)
    requires k <= 256 && (|v| >= 30 || |u| == 0)
    ensures FirstMatch(v + u, k) == FirstMatch(v, k)
    decreases 256 - k
  {
    hide CodeBits;
    StartMatch(v, k);
    StartMatch(v + u, k);
    if k < 256 {
      if |u| == 0 {
        assert v + u == v;
      }
      LongEnough(v, u, k + 1);
    }
  }

  lemma SymbolsStep(w: seq<Bit>)
    ensures |w| == 0 ==> Symbols(w) == []
    ensures FirstMatch(w, 0) == 256 ==> Symbols(w) == []
    ensures FirstMatch(w, 0) < 256 ==>
      |w| >= Length(FirstMatch(w, 0)) && Symbols(w) == [FirstMatch(w, 0)] + Symbols(w[Length(FirstMatch(w, 0))..])
  {
    hide FirstMatch, Bin, Code, Length;
  }

  lemma Consume(acc: nat, acc_bits: nat, k: Byte, tail: seq<Bit>)
    requires CodeBits(k) <= Bin(acc, acc_bits)
    ensures Length(k) <= acc_bits
    ensures (Bin(acc, acc_bits) + tail)[Length(k)..] == Bin(Low(acc, acc_bits - Length(k)), acc_bits - Length(k)) + tail
  {
    hide Bin, Code, Length, Pow2, Top, Low;
    BinSplit(acc, acc_bits, Length(k));
  }

  // ----- the encoder of the standard --------------------------------------------------------------

  function EncodeBits(s: seq<Byte>): seq<Bit> {
    if |s| == 0 then [] else CodeBits(s[0]) + EncodeBits(s[1..])
  }

  /** Padding with ones up to a byte boundary. */
  function Padded(w: seq<Bit>): (p: seq<Bit>)
    ensures |p| % 8 == 0
  {
    w + Ones(-|w| % 8)
  }

  function Pack(w: seq<Bit>): (s: seq<Byte>)
    requires |w| % 8 == 0
    ensures 8 * |s| == |w|
  {
    if |w| == 0 then []
    else
      Powers();
      [Number(w[..8])] + Pack(w[8..])
  }

  function Encode(s: seq<Byte>): seq<Byte> {
    Pack(Padded(EncodeBits(s)))
  }

  lemma {:induction false} PackedBits(w: seq<Bit>)
    requires |w| % 8 == 0
    ensures InputBits(Pack(w)) == w
  {
    if |w| > 0 {
      PackedBits(w[8..]);
      BinOfNumber(w[..8]);
      assert w == w[..8] + w[8..];
      FirstInput(Pack(w));
      assert Pack(w)[1..] == Pack(w[8..]);
    }
  }

  /** However many ones follow, the symbols of an encoded string are the string. */
  lemma {:induction false} SymbolsOfEncoding(s: seq<Byte>, n: nat)
    ensures Symbols(EncodeBits(s) + Ones(n)) == s
  {
    hide Symbols, FirstMatch, CodeBits;
    var w := EncodeBits(s) + Ones(n);
    SymbolsStep(w);
    var k := FirstMatch(w, 0);
    if |s| == 0 {
      assert w == Ones(n);
      if k < 256 {
        NoOnes(k, n);
      }
    } else {
      var rest := EncodeBits(s[1..]) + Ones(n);
      assert w == CodeBits(s[0]) + rest;
      if k < 256 {
        CodesMeet(w, k, s[0]);
      }
      LengthOfCode(s[0]);
      assert w[Length(s[0])..] == rest;
      SymbolsOfEncoding(s[1..], n);
    }
  }

  lemma LengthOfCode(k: Byte)
    ensures |CodeBits(k)| == Length(k)
  {}

  /** Two codes that start the same bit string are the same code. */
  lemma CodesMeet(w: seq<Bit>, a: Byte, b: Byte)
    requires CodeBits(a) <= w && CodeBits(b) <= w
    ensures a == b
  {
    hide CodeBits;
    if |CodeBits(a)| <= |CodeBits(b)| {
      assert CodeBits(a) == w[..|CodeBits(a)|] == CodeBits(b)[..|CodeBits(a)|];
      PrefixFree(a, b);
    } else {
      assert CodeBits(b) == w[..|CodeBits(b)|] == CodeBits(a)[..|CodeBits(b)|];
      PrefixFree(b, a);
    }
  }

  /** Decoding undoes encoding, up to the room in the output. */
  lemma RoundTrip(s: seq<Byte>, max_out: int)
    ensures Truncated(Symbols(InputBits(Encode(s))), max_out - 1) == Truncated(s, max_out - 1)
    ensures |s| < max_out ==> Truncated(Symbols(InputBits(Encode(s))), max_out - 1) == s
  {
    hide Symbols, EncodeBits, InputBits, Pack;
    PackedBits(Padded(EncodeBits(s)));
    SymbolsOfEncoding(s, -|EncodeBits(s)| % 8);
  }
}
