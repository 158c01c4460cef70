/** The streaming interface of SHA-256 and SHA-384 in crypto.c against the padding of
    section 5.1 of FIPS 180-4. The compression function is arbitrary. */
module Sha {
  import opened Bits
  import opened Chunks
  import Int128

  const WORD64: int := 0x1_0000_0000_0000_0000
  const BYTES: int := 0x2000_0000_0000_0000

  type Chain = s: seq<nat> | |s| == 8 witness seq(8, i => 0)

  /** Block length in bytes, word length, words in the digest, zero bytes in front of the
      64-bit length. */
  datatype Algorithm = Algorithm(block: nat, word: nat, words: nat, skip: nat,
                                 iv: Chain, compress: (Chain, seq<Byte>) -> Chain)

  predicate Known(a: Algorithm) {
    || (a.block == 64 && a.word == 4 && a.words == 8 && a.skip == 0)
    || (a.block == 128 && a.word == 8 && a.words == 6 && a.skip == 8)
  }

  // ----- the standard ------------------------------------------------------------------------------

  /** The n low bytes of x, most significant first. */
  function ToBe(x: nat, n: nat): (s: seq<Byte>)
    ensures |s| == n
  {
    if n == 0 then [] else ToBe(x / 256, n - 1) + [x % 256]
  }

  function Zeros(n: nat): (s: seq<Byte>)
    ensures |s| == n
  {
    seq(n, i => 0)
  }

  /** How many zero bytes bring a message of this length to the place of the length field. */
  function Gap(a: Algorithm, len: nat): nat
    requires Known(a)
  {
    if a.block == 64 then (55 - len) % 64 else (111 - len) % 128
  }

  /** The length of the message in bits, modulo 2^64, behind zeros up to the field's width. */
  function LengthField(a: Algorithm, len: nat): seq<Byte> {
    Zeros(a.skip) + ToBe(8 * len % WORD64, 8)
  }

  function Padded(a: Algorithm, m: seq<Byte>): seq<Byte>
    requires Known(a)
  {
    m + [0x80] + Zeros(Gap(a, |m|)) + LengthField(a, |m|)
  }

  /** The first i words, most significant byte first. */
  function Emit(a: Algorithm, s: Chain, i: nat): (h: seq<Byte>)
    requires i <= 8
    ensures |h| == a.word * i
  {
    if i == 0 then []
    else
      assert a.word * i == a.word * (i - 1) + a.word;
      Emit(a, s, i - 1) + ToBe(s[i - 1], a.word)
  }

  function Size(a: Algorithm): nat {
    a.word * a.words
  }

  function Hash(a: Algorithm, m: seq<Byte>): (h: seq<Byte>)
    requires Known(a)
    ensures |h| == Size(a)
  {
    Emit(a, Fold(a.compress, a.block, a.iv, Padded(a, m)), a.words)
  }

  /** Word i of the digest is word i of the last chaining value. */
  lemma {:induction false} EmittedWord(a: Algorithm, s: Chain, n: nat, i: nat)
    requires Known(a) && i < n <= 8
    ensures 0 <= a.word * i <= a.word * (i + 1) <= |Emit(a, s, n)|
    ensures Emit(a, s, n)[a.word * i..a.word * (i + 1)] == ToBe(s[i], a.word)
    decreases n
  {
    hide ToBe;
    Products(a.word, i, n);
    var rest, last := Emit(a, s, n - 1), ToBe(s[n - 1], a.word);
    assert Emit(a, s, n) == rest + last;
    if i < n - 1 {
      EmittedWord(a, s, n - 1, i);
      assert (rest + last)[a.word * i..a.word * (i + 1)] == rest[a.word * i..a.word * (i + 1)];
    } else {
      assert (rest + last)[|rest|..] == last;
    }
  }

  lemma Products(w: nat, i: nat, n: nat)
    requires i < n && (w == 4 || w == 8)
    ensures w * i + w == w * (i + 1) <= w * n && w * (n - 1) + w == w * n
  {}

  /** The worked examples of section 5.1 of FIPS 180-4: "abc" in 512 and in 1024 bits. */
  lemma PaddedExample(a: Algorithm)
    requires Known(a)
    ensures Padded(a, [0x61, 0x62, 0x63])
      == [0x61, 0x62, 0x63, 0x80] + Zeros(if a.block == 64 then 59 else 123) + [24]
  {
    assert Padded(a, [0x61, 0x62, 0x63])[3] == 0x80;
    assert ToBe(24, 8) == Zeros(7) + [24] by { TwentyFour(); }
  }

  lemma TwentyFour()
    ensures ToBe(24, 8) == Zeros(7) + [24]
  {
    hide ToBe;
    ToBeStep(0, 24, 8);
    Powers();
    ToBeZero(0, 7);
  }

  // ----- the context ---------------------------------------------------------------------------------

  class Context {
    const a: Algorithm
    var state: Chain
    var bitlen: nat
    var buffer: array<Byte>
    ghost var fed: seq<Byte>

    ghost predicate Valid()
      reads this, buffer
    {
      Known(a) && bitlen == 8 * |fed| % WORD64 && Holding(fed, |fed| % a.block)
    }

    /** The whole blocks of m have been compressed, the others are in the buffer. */
    ghost predicate Holding(m: seq<Byte>, used: nat)
      reads this`state, this`buffer, buffer
    {
      && Known(a) && buffer.Length == a.block && used == |m| % a.block
      && state == Fold(a.compress, a.block, a.iv, m) && buffer[..used] == Rest(a.block, m)
    }

    constructor (algorithm: Algorithm)
      requires Known(algorithm)
      ensures Valid() && fed == [] && a == algorithm && fresh(buffer)
    {
      a, state, bitlen, fed := algorithm, algorithm.iv, 0, [];
      buffer := new Byte[algorithm.block](i => 0);
    }

    /** memcpy into the buffer. */
    method Copy(at: nat, data: seq<Byte>)
      requires at + |data| <= buffer.Length
      modifies buffer
      ensures buffer[..at] == old(buffer[..at]) && buffer[at..at + |data|] == data
    {
      var i := 0;
      while i < |data|
        invariant 0 <= i <= |data|
        invariant buffer[..at] == old(buffer[..at]) && buffer[at..at + i] == data[..i]
      {
        buffer[at + i] := data[i];
        i := i + 1;
      }
    }

    /** Bytes that fit into the block; a full block is compressed. */
    method Fill(x: seq<Byte>, buf_used: nat, ghost m: seq<Byte>) returns (used: nat)
      requires Holding(m, buf_used) && buf_used + |x| <= a.block
      modifies this`state, buffer
      ensures Holding(m + x, used)
    {
      hide Fold, Rest;
      FoldMore(a.compress, a.block, a.iv, m, x);
      RemainderAfter(|m|, |x|, a.block);
      Copy(buf_used, x);
      used := buf_used + |x|;
      assert buffer[..used] == buffer[..buf_used] + x;
      if used == a.block {
        assert buffer[..] == buffer[..used];
        state, used := a.compress(state, buffer[..]), 0;
      }
    }

    /** The data, one buffer at a time. */
    method FillAll(data: seq<Byte>, used: nat, ghost m: seq<Byte>)
      requires Holding(m, used)
      modifies this`state, buffer
      ensures Holding(m + data, |m + data| % a.block)
    {
      hide Holding;
      var off: nat, buf_used: nat := 0, used;
      assert m + data[..0] == m;
      while off < |data|
        invariant off <= |data| && Holding(m + data[..off], buf_used)
      {
        HeldLess(m + data[..off], buf_used);
        var n := Min(|data| - off, a.block - buf_used);
        buf_used := Fill(data[off..off + n], buf_used, m + data[..off]);
        assert m + data[..off] + data[off..off + n] == m + data[..off + n];
        off := off + n;
      }
      assert data[..off] == data;
      HeldLess(m + data, buf_used);
    }

    /** sha256_update, sha384_update: any split of the message feeds the same. */
    method Update(data: seq<Byte>)
      requires Valid()
      modifies this`state, this`bitlen, this`fed, buffer
      ensures Valid() && fed == old(fed) + data
    {
      hide Holding;
      HeldLess(fed, |fed| % a.block);
      LengthWraps(a, bitlen, |fed|, |data|);
      var buf_used := bitlen / 8 % a.block;
      bitlen := (bitlen + 8 * |data|) % WORD64;
      FillAll(data, buf_used, fed);
      fed := fed + data;
    }

    /** One byte 0x80, then zeros up to the length field. */
    method Mark()
      requires Valid()
      modifies this`state, this`bitlen, this`fed, buffer
      ensures Valid() && fed == old(fed) + [0x80] + Zeros(Gap(a, |old(fed)|))
    {
      hide Holding, Gap;
      ghost var m := fed;
      Update([0x80]);
      ghost var j := 0;
      assert fed == m + [0x80] + Zeros(0);
      GapCloses(a, |m|, 0);
      while bitlen % (8 * a.block) != 8 * (a.block - 8 - a.skip)
        invariant Valid() && 0 <= j <= Gap(a, |m|) && fed == m + [0x80] + Zeros(j)
        decreases Gap(a, |m|) - j
      {
        GapCloses(a, |m|, j);
        ZerosNext(m + [0x80], j);
        Update([0]);
        j := j + 1;
      }
      GapCloses(a, |m|, j);
    }

    /** The bit length from before the padding, byte by byte. */
    method WriteLength(bits: nat)
      requires Valid()
      modifies this`state, this`bitlen, this`fed, buffer
      ensures Valid() && fed == old(fed) + Zeros(a.skip) + ToBe(bits, 8)
    {
      hide Valid, ToBe;
      ghost var m := fed;
      var i := 0;
      assert m == m + Zeros(0);
      while i < a.skip
        invariant 0 <= i <= a.skip && Valid() && fed == m + Zeros(i)
      {
        ZerosNext(m, i);
        Update([0]);
        i := i + 1;
      }
      i := 8;
      ghost var written: seq<Byte> := [];
      while i > 0
        invariant 0 <= i <= 8 && Valid() && fed == m + Zeros(a.skip) + written && written + ToBe(bits, i) == ToBe(bits, 8)
        decreases i
      {
        i := i - 1;
        TopByte(bits, i);
        written := written + [ByteOf(bits, i)];
        Update([ByteOf(bits, i)]);
      }
    }

    /** sha256_final, sha384_final */
    method Final() returns (hash: seq<Byte>)
      requires Valid()
      modifies this`state, this`bitlen, this`fed, buffer
      ensures hash == Hash(a, old(fed))
    {
      hide Fold, Holding, ToBe, Gap;
      ghost var m := fed;
      var bits := bitlen;
      Mark();
      WriteLength(bits);
      assert fed == Padded(a, m);
      Compressed();
      hash := [];
      var i := 0;
      while i < a.words
        invariant 0 <= i <= a.words && hash == Emit(a, state, i)
      {
        hash := hash + ToBe(state[i], a.word);
        i := i + 1;
      }
    }

    lemma Compressed()
      requires Valid()
      ensures Known(a) && state == Fold(a.compress, a.block, a.iv, fed)
    {
      hide Fold, Rest;
    }

    lemma HeldLess(m: seq<Byte>, used: nat)
      requires Holding(m, used)
      ensures Known(a) && buffer.Length == a.block && used == |m| % a.block < a.block
    {
      hide Fold, Rest;
    }
  }

  /** The digest of a message that arrives in pieces. */
  method HashPieces(a: Algorithm, pieces: seq<seq<Byte>>) returns (hash: seq<Byte>)
    requires Known(a)
    ensures hash == Hash(a, Join(pieces))
  {
    hide Hash, Join, Context.Valid;
    var ctx := new Context(a);
    var i := 0;
    JoinStart(pieces);
    while i < |pieces|
      invariant 0 <= i <= |pieces| && ctx.Valid() && fresh(ctx.buffer) && ctx.a == a
      invariant Join(pieces) == ctx.fed + Join(pieces[i..])
    {
      ghost var was := ctx.fed;
      ctx.Update(pieces[i]);
      JoinNext(pieces, i, was);
      i := i + 1;
    }
    JoinEnd(ctx.fed);
    assert pieces[i..] == [];
    hash := ctx.Final();
  }

  /** Counting bits modulo 2^64 is counting bytes modulo 2^61. */
  lemma Wrapped(len: nat) returns (k: nat, t: nat)
    ensures len == k * BYTES + t && t < BYTES && 8 * len % WORD64 == 8 * t
  {
    k, t := len / BYTES, len % BYTES;
    QuotientUnique(8 * len, WORD64, k, 8 * t);
  }

  lemma SameLow(k: nat, t: nat)
    ensures (k * BYTES + t) % 64 == t % 64 && (k * BYTES + t) % 128 == t % 128
  {
    QuotientUnique(k * BYTES + t, 64, k * 0x80_0000_0000_0000 + t / 64, t % 64);
    QuotientUnique(k * BYTES + t, 128, k * 0x40_0000_0000_0000 + t / 128, t % 128);
  }

  lemma LengthWraps(a: Algorithm, bitlen: nat, len: nat, n: nat)
    requires Known(a) && bitlen == 8 * len % WORD64
    ensures bitlen / 8 % a.block == len % a.block
    ensures (bitlen + 8 * n) % WORD64 == 8 * (len + n) % WORD64
  {
    var k, t := Wrapped(len);
    SameLow(k, t);
    var l, u := Wrapped(t + n);
    QuotientUnique(8 * (len + n), WORD64, k + l, 8 * u);
  }

  // ----- the end of the message ------------------------------------------------------------------------

  lemma WrapBits(x: nat)
    ensures (8 * x % WORD64) % 512 == 8 * (x % 64)
    ensures (8 * x % WORD64) % 1024 == 8 * (x % 128)
  {
    var k, t := Wrapped(x);
    SameLow(k, t);
    QuotientUnique(8 * t, 512, t / 64, 8 * (t % 64));
    QuotientUnique(8 * t, 1024, t / 128, 8 * (t % 128));
  }

  lemma GapEnds(len: int)
    ensures (len + 1 + (55 - len) % 64) % 64 == 56 && (len + 1 + (111 - len) % 128) % 128 == 112
  {
    QuotientUnique(len + 1 + (55 - len) % 64, 64, -((55 - len) / 64), 56);
    QuotientUnique(len + 1 + (111 - len) % 128, 128, -((111 - len) / 128), 112);
  }

  lemma Before(x: nat, y: nat, n: nat, r: nat)
    requires (n == 64 || n == 128) && y % n == r && x <= y < x + n
    ensures x % n == r <==> x == y
  {}

  /** The length field is reached exactly when the gap is closed. */
  lemma GapCloses(a: Algorithm, len: nat, j: nat)
    requires Known(a) && j <= Gap(a, len)
    ensures (8 * (len + 1 + j) % WORD64) % (8 * a.block) == 8 * (a.block - 8 - a.skip) <==> j == Gap(a, len)
  {
    WrapBits(len + 1 + j);
    GapEnds(len);
    Before(len + 1 + j, len + 1 + Gap(a, len), a.block, a.block - 8 - a.skip);
  }

  /** (uint8_t)(x >> 8 * i) */
  function ByteOf(x: nat, i: nat): Byte {
    if i == 0 then x % 256 else ByteOf(x / 256, i - 1)
  }

  lemma {:induction false} TopByte(x: nat, i: nat)
    ensures ToBe(x, i + 1) == [ByteOf(x, i)] + ToBe(x, i)
  {
    if i > 0 {
      TopByte(x / 256, i - 1);
    }
  }

  lemma ZerosNext(m: seq<Byte>, j: nat)
    ensures m + Zeros(j) + [0] == m + Zeros(j + 1)
  {}

  // ----- the length field of the standard -----------------------------------------------------------------

  lemma {:induction false} ToBeSplit(h: nat, m: nat, l: nat, n: nat)
    requires l < Pow2(8 * n)
    ensures ToBe(h * Pow2(8 * n) + l, m + n) == ToBe(h, m) + ToBe(l, n)
  {
    hide Pow2;
    if n == 0 {
      BytePower(0);
    } else {
      var p := Pow2(8 * (n - 1));
      BytePower(n);
      Regroup(256, h, p);
      ToBeSplit(h, m, l / 256, n - 1);
      ToBeStep(h * p, l, m + n);
    }
  }

  lemma ToBeStep(t: nat, l: nat, n: nat)
    requires n > 0
    ensures ToBe(256 * t + l, n) == ToBe(t + l / 256, n - 1) + [l % 256]
  {}

  lemma {:induction false} ToBeZero(x: nat, n: nat)
    requires x < Pow2(8 * n)
    ensures ToBe(x, n) == Zeros(n) <==> x == 0
  {
    if n > 0 {
      Powers();
      Pow2Add(8, 8 * (n - 1));
      ToBeZero(x / 256, n - 1);
      assert Zeros(n) == Zeros(n - 1) + [0];
      if ToBe(x, n) == Zeros(n) {
        assert ToBe(x, n)[..n - 1] == ToBe(x / 256, n - 1) && ToBe(x, n)[n - 1] == x % 256;
        assert Zeros(n)[..n - 1] == Zeros(n - 1);
      }
    }
  }

  lemma Power64()
    ensures Pow2(64) == WORD64
  {
    hide Pow2;
    Int128.PowersOfWords();
    Pow2Add(32, 32);
  }

  /** The field is the standard's, 64 or 128 bits wide, if and only if the 64-bit count did
      not wrap or the field is no wider than it. */
  lemma LengthFits(a: Algorithm, len: nat)
    requires Known(a) && 8 * len < WORD64 * WORD64
    ensures LengthField(a, len) == ToBe(8 * len, a.skip + 8) <==> a.skip == 0 || 8 * len < WORD64
  {
    hide ToBe, Pow2;
    var h, l := 8 * len / WORD64, 8 * len % WORD64;
    Power64();
    assert 8 * len == h * WORD64 + l;
    ToBeSplit(h, a.skip, l, 8);
    ToBeZero(h, 8);
    if a.skip == 8 {
      var t, z := ToBe(h, 8), Zeros(8);
      assert (t + ToBe(l, 8))[..8] == t && (z + ToBe(l, 8))[..8] == z;
      assert h == 0 <==> 8 * len < WORD64;
    } else {
      ToBeNothing(h);
    }
  }

  lemma ToBeNothing(h: nat)
    ensures ToBe(h, 0) == [] && Zeros(0) == []
  {}
}
