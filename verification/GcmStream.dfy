/** The counter blocks of AES-GCM by their numbers (section 7.1 of NIST SP 800-38D): the
    data are masked from the block with number 2 on, the tag with number 1. */
module GcmStream {
  import opened Gf128
  import opened Ctr
  import opened Gcm
  import Bits

  const TWO32: nat := 0x1_0000_0000

  /** The IV, then a number modulo 2^32 in 32 bits, most significant first. */
  function Numbered(iv: seq<Word>, x: nat): Block
    requires |iv| == 12 && AreBytes(iv)
  {
    iv + Cut(OfNumber(x % TWO32, 32))
  }

  lemma {:induction false} OfNumberOf(w: Word)
    ensures OfNumber(Number(w), |w|) == w
  {
    if |w| > 0 {
      hide OfNumber;
      var v, b := w[..|w| - 1], w[|w| - 1];
      OfNumberOf(v);
      OfNumberStep(Number(v), b, |v|);
      assert w == v + [b];
    }
  }

  lemma OfNumberStep(x: nat, b: bool, n: nat)
    ensures OfNumber(2 * x + if b then 1 else 0, n + 1) == OfNumber(x, n) + [b]
  {
    var y := 2 * x + if b then 1 else 0;
    assert y / 2 == x && y % 2 == if b then 1 else 0;
  }

  lemma PowerIs()
    ensures Power(32) == TWO32
  {
    hide Power;
    assert Power(0) == 1 by { PowerNothing(); }
    PowerEight(0);
    PowerEight(8);
    PowerEight(16);
    PowerEight(24);
  }

  lemma PowerNothing()
    ensures Power(0) == 1
  {}

  lemma PowerEight(n: nat)
    ensures Power(n + 8) == 256 * Power(n)
  {
    hide Power;
    PowerTwo(n);
    PowerTwo(n + 2);
    PowerTwo(n + 4);
    PowerTwo(n + 6);
  }

  lemma PowerTwo(n: nat)
    ensures Power(n + 2) == 4 * Power(n)
  {
    assert Power(n + 1) == 2 * Power(n);
  }

  /** The first counter block has the number 1. */
  lemma FirstCounter(iv: seq<Word>)
    requires |iv| == 12 && AreBytes(iv)
    ensures J0(iv)[..12] == iv && Number(Flatten(J0(iv)[12..])) == 1
    ensures J0(iv) == Numbered(iv, 1)
  {
    hide Flatten, Cut, OfNumber;
    var s := J0(iv)[12..];
    LastBytes();
    assert s == ZeroBytes(3) + [Zero(7) + [true]];
    var w := Flatten(s);
    OneIs(w);
    OfNumberOf(w);
    CutFlatten(s);
    assert J0(iv) == iv + s;
  }

  /** 31 zeros and a one. */
  lemma LastBytes()
    ensures Flatten(ZeroBytes(3) + [Zero(7) + [true]]) == Zero(31) + [true]
  {
    hide Flatten;
    var x := Zero(7) + [true];
    FlattenAppend(ZeroBytes(3), [x]);
    FlattenZeros(3);
    FlattenFirst([x]);
    IncNothing();
    assert [x][1..] == [];
    assert Zero(24) + x == Zero(31) + [true];
  }

  lemma OneIs(w: Word)
    requires w == Zero(31) + [true]
    ensures Number(w) == 1
  {
    ZeroNumber(31);
    assert w[..31] == Zero(31);
  }

  lemma {:induction false} ZeroNumber(n: nat)
    ensures Number(Zero(n)) == 0
  {
    if n > 0 {
      ZeroNumber(n - 1);
      assert Zero(n)[..n - 1] == Zero(n - 1);
    }
  }

  lemma NextNumber(x: nat)
    ensures (x + 1) % TWO32 == if x % TWO32 + 1 == TWO32 then 0 else x % TWO32 + 1
  {}

  lemma NextNumbered(iv: seq<Word>, x: nat)
    requires |iv| == 12 && AreBytes(iv)
    ensures Next(Numbered(iv, x)) == Numbered(iv, x + 1)
  {
    hide Flatten, Cut, OfNumber, Inc, Number;
    PowerIs();
    var w := OfNumber(x % TWO32, 32);
    NumberOf(x % TWO32, 32);
    IncNumber(w);
    NextNumber(x);
    OfNumberOf(Inc(w));
    FlattenCut(w);
    var b := Numbered(iv, x);
    assert b[..12] == iv && b[12..] == Cut(w);
  }

  /** Block k of the key stream that starts at number x, on whatever data there is. */
  lemma {:induction false} StreamFrom(rounds: seq<Round>, iv: seq<Word>, x: nat, data: seq<Word>, k: nat)
    requires |iv| == 12 && AreBytes(iv) && AreBytes(data) && 16 * k < |data|
    ensures var e := Bits.Min(16 * k + 16, |data|);
      Stream(rounds, Numbered(iv, x), data)[16 * k..e]
        == XorBytes(data[16 * k..e], Encipher(rounds, Numbered(iv, x + k))[..e - 16 * k])
    decreases k
  {
    hide Stream, Encipher, Numbered, XorBytes, Next;
    StreamBlock(rounds, Numbered(iv, x), data);
    var n := Bits.Min(16, |data|);
    if k > 0 {
      var e := Bits.Min(16 * k + 16, |data|);
      NextNumbered(iv, x);
      StreamFrom(rounds, iv, x + 1, data[16..], k - 1);
      Further(data, data[..16], data[16..], k, e);
      var s := Stream(rounds, Numbered(iv, x), data);
      Further(s, s[..16], Stream(rounds, Numbered(iv, x + 1), data[16..]), k, e);
    }
  }

  lemma Further<T>(s: seq<T>, a: seq<T>, b: seq<T>, k: nat, e: nat)
    requires k > 0 && |a| == 16 && s == a + b && 16 * k <= e <= |s|
    ensures s[16 * k..e] == b[16 * (k - 1)..e - 16]
  {}

  /** Block k of the ciphertext is masked with the cipher of the counter block k + 2. */
  lemma CipherBlock(rounds: seq<Round>, iv: seq<Word>, data: seq<Word>, k: nat)
    requires |iv| == 12 && AreBytes(iv) && AreBytes(data) && 16 * k < |data|
    ensures var e := Bits.Min(16 * k + 16, |data|);
      Stream(rounds, Next(J0(iv)), data)[16 * k..e]
        == XorBytes(data[16 * k..e],
             Encipher(rounds, iv + Cut(OfNumber((k + 2) % 0x1_0000_0000, 32)))[..e - 16 * k])
  {
    hide Stream, Encipher, XorBytes, Next, J0, Cut, OfNumber;
    FirstCounter(iv);
    NextNumbered(iv, 1);
    StreamFrom(rounds, iv, 2, data, k);
  }

  /** The tag is the hash under the cipher of the counter block 1; the hash key is the
      cipher of zeros. */
  lemma TagMask(rounds: seq<Round>, iv: seq<Word>, aad: seq<Word>, ct: seq<Word>)
    requires |iv| == 12 && AreBytes(iv) && AreBytes(aad) && AreBytes(ct)
    ensures HashKey(rounds) == Flatten(Encipher(rounds, ZeroBytes(16)))
    ensures Numbered(iv, 1) == iv + Cut(OfNumber(1, 32))
    ensures Tag(rounds, iv, aad, ct)
      == XorBytes(Cut(Ghash(Zero(128), HashKey(rounds), HashInput(aad, ct))), Encipher(rounds, Numbered(iv, 1)))
  {
    hide Ghash, Flatten, Encipher, XorBytes, J0, Cut, OfNumber, Hashed, HashInput;
    FirstCounter(iv);
    HashedIsGhash(rounds, aad, ct);
  }

  /** The last hashed block holds the length of the associated data and that of the
      ciphertext in bits. */
  lemma LengthsAre(aad: nat, ct: nat)
    requires 8 * aad < Power(64) && 8 * ct < Power(64)
    ensures Number(Flatten(LengthBlock(aad, ct)[..8])) == 8 * aad
    ensures Number(Flatten(LengthBlock(aad, ct)[8..])) == 8 * ct
  {
    hide Flatten, Cut, OfNumber, Number, Power;
    NumberOf(8 * aad, 64);
    NumberOf(8 * ct, 64);
    FlattenCut(OfNumber(8 * aad, 64));
    FlattenCut(OfNumber(8 * ct, 64));
    var b := LengthBlock(aad, ct);
    assert b[..8] == Cut(OfNumber(8 * aad, 64)) && b[8..] == Cut(OfNumber(8 * ct, 64));
  }
}
