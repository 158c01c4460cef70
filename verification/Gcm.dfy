/** AES-GCM of aes.c (section 7 of NIST SP 800-38D) over counter mode and GHASH. */
module Gcm {
  import opened Gf128
  import GcmTable
  import GcmClmul
  import opened Ctr

  // ----- the tag -----------------------------------------------------------------------------

  /** The n low bits of a number, most significant first. */
  function OfNumber(x: nat, n: nat): (w: Word)
    ensures |w| == n
  {
    if n == 0 then [] else OfNumber(x / 2, n - 1) + [x % 2 == 1]
  }

  lemma {:induction false} NumberOf(x: nat, n: nat)
    requires x < Power(n)
    ensures Number(OfNumber(x, n)) == x
  {
    if n > 0 {
      NumberOf(x / 2, n - 1);
      assert OfNumber(x, n)[..n - 1] == OfNumber(x / 2, n - 1);
    }
  }

  /** The first counter block: the IV, then 1 in 32 bits. */
  function J0(iv: seq<Word>): Block
    requires |iv| == 12 && AreBytes(iv)
  {
    iv + [Zero(8), Zero(8), Zero(8), Zero(7) + [true]]
  }

  function ZeroBlock(): Block {
    ZeroBytes(16)
  }

  /** The hash key: the encipherment of the zero block. */
  function HashKey(rounds: seq<Round>): (h: Word)
    ensures |h| == 128
  {
    Flatten(Encipher(rounds, ZeroBlock()))
  }

  /** Both lengths in bits, as 64-bit numbers. */
  function LengthBlock(aad: nat, ct: nat): Block {
    Cut(OfNumber(8 * aad, 64)) + Cut(OfNumber(8 * ct, 64))
  }

  function Hashed(rounds: seq<Round>, aad: seq<Word>, ct: seq<Word>): (y: Word)
    requires AreBytes(aad) && AreBytes(ct)
    ensures |y| == 128
  {
    var h := HashKey(rounds);
    Ghash(Ghash(Ghash(Zero(128), h, aad), h, ct), h, LengthBlock(|aad|, |ct|))
  }

  function Tag(rounds: seq<Round>, iv: seq<Word>, aad: seq<Word>, ct: seq<Word>): (t: Block)
    requires |iv| == 12 && AreBytes(iv) && AreBytes(aad) && AreBytes(ct)
  {
    XorBytes(Cut(Hashed(rounds, aad, ct)), Encipher(rounds, J0(iv)))
  }

  // ----- the standard's definition -----------------------------------------------------------

  /** A || 0^v || C || 0^u || [len(A)]_64 || [len(C)]_64 */
  function HashInput(aad: seq<Word>, ct: seq<Word>): (s: seq<Word>)
    requires AreBytes(aad) && AreBytes(ct)
    ensures AreBytes(s)
  {
    aad + ZeroBytes(-|aad| % 16) + ct + ZeroBytes(-|ct| % 16) + LengthBlock(|aad|, |ct|)
  }

  /** GHASH of whole blocks followed by more data. */
  lemma {:induction false} GhashAppend(y: Word, h: Word, s: seq<Word>, t: seq<Word>, k: nat)
    requires |y| == |h| == 128 && AreBytes(s) && AreBytes(t) && |s| == 16 * k
    ensures Ghash(y, h, s + t) == Ghash(Ghash(y, h, s), h, t)
    decreases k
  {
    hide Product, Xor, Padded;
    if k == 0 {
      assert s + t == t;
    } else {
      assert (s + t)[..16] == s[..16] && (s + t)[16..] == s[16..] + t;
      GhashAppend(Product(Xor(y, Padded(s[..16])), h), h, s[16..], t, k - 1);
    }
  }

  /** Padding the last block with zeros changes nothing. */
  lemma {:induction false} GhashPadded(y: Word, h: Word, s: seq<Word>)
    requires |y| == |h| == 128 && AreBytes(s)
    ensures Ghash(y, h, s + ZeroBytes(-|s| % 16)) == Ghash(y, h, s)
    decreases |s|
  {
    hide Product, Xor, Padded, Ghash, ZeroBytes;
    if |s| < 16 {
      Fill(|s|);
      LastPadded(y, h, s, -|s| % 16);
    } else {
      var z := ZeroBytes(-|s| % 16);
      SameFill(|s|);
      assert (s + z)[..16] == s[..16] && (s + z)[16..] == s[16..] + z;
      GhashStep(y, h, s);
      GhashStep(y, h, s + z);
      GhashPadded(Product(Xor(y, Padded(s[..16])), h), h, s[16..]);
    }
  }

  lemma SameFill(n: int)
    requires n >= 16
    ensures -n % 16 == -(n - 16) % 16
  {}

  /** One whole block. */
  lemma GhashStep(y: Word, h: Word, data: seq<Word>)
    requires |y| == |h| == 128 && AreBytes(data) && |data| >= 16
    ensures Ghash(y, h, data) == Ghash(Product(Xor(y, Padded(data[..16])), h), h, data[16..])
  {
    hide Product, Xor, Padded;
  }

  lemma LastPadded(y: Word, h: Word, s: seq<Word>, n: nat)
    requires |y| == |h| == 128 && AreBytes(s) && |s| < 16 && n == if |s| == 0 then 0 else 16 - |s|
    ensures Ghash(y, h, s + ZeroBytes(n)) == Ghash(y, h, s)
  {
    hide Product, Xor, Padded, Ghash, ZeroBytes;
    if n == 0 {
      assert s + ZeroBytes(0) == s;
    } else {
      SamePadding(s, n);
      OneBlock(y, h, s);
      OneBlock(y, h, s + ZeroBytes(n));
    }
  }

  lemma Fill(n: int)
    requires 0 <= n < 16
    ensures -n % 16 == if n == 0 then 0 else 16 - n
  {}

  lemma OneBlock(y: Word, h: Word, d: seq<Word>)
    requires |y| == |h| == 128 && AreBytes(d) && 0 < |d| <= 16
    ensures Ghash(y, h, d) == Product(Xor(y, Padded(d)), h)
  {
    hide Product, Xor, Padded;
    assert d[..|d|] == d && d[|d|..] == [];
  }

  lemma SamePadding(s: seq<Word>, n: nat)
    requires AreBytes(s) && |s| + n == 16
    ensures Padded(s + ZeroBytes(n)) == Padded(s)
  {
    hide Flatten;
    FlattenZeros(n);
    FlattenAppend(s, ZeroBytes(n));
  }

  /** Three calls in turn are one GHASH of the whole. */
  lemma HashedIsGhash(rounds: seq<Round>, aad: seq<Word>, ct: seq<Word>)
    requires AreBytes(aad) && AreBytes(ct)
    ensures Hashed(rounds, aad, ct) == Ghash(Zero(128), HashKey(rounds), HashInput(aad, ct))
  {
    hide Ghash, LengthBlock, HashKey;
    var h := HashKey(rounds);
    var a, c, l := aad + ZeroBytes(-|aad| % 16), ct + ZeroBytes(-|ct| % 16), LengthBlock(|aad|, |ct|);
    GhashPadded(Zero(128), h, aad);
    WholeBlocks(|aad|);
    GhashAppend(Zero(128), h, a, c + l, |a| / 16);
    var y := Ghash(Zero(128), h, aad);
    GhashPadded(y, h, ct);
    WholeBlocks(|ct|);
    GhashAppend(y, h, c, l, |c| / 16);
    assert HashInput(aad, ct) == a + (c + l);
  }

  lemma WholeBlocks(n: int)
    ensures n + -n % 16 == 16 * ((n + -n % 16) / 16)
  {}

  // ----- encryption and decryption --------------------------------------------------------------

  /** gcm_ghash_tab on either path. */
  method GhashInto(pclmul: bool, t: GcmTable.Table, x: array<Word>, data: seq<Word>)
    requires t.Valid() && x.Length == 16 && AreBytes(x[..]) && AreBytes(data) && x != t.HH && x != t.HL
    modifies x
    ensures AreBytes(x[..]) && Flatten(x[..]) == Ghash(old(Flatten(x[..])), t.key, data)
  {
    hide Ghash, Flatten, Cut;
    if pclmul {
      GcmClmul.SwappedLoad(x[..]);
      GcmClmul.SwappedLoad(t.h);
      var y := GcmClmul.GhashClmul(GcmClmul.Load(GcmClmul.Reverse(x[..])), GcmClmul.Load(GcmClmul.Reverse(t.h)), data);
      var bytes := Cut(y);
      FlattenCut(y);
      Store(x, bytes);
    } else {
      GcmTable.GhashTab(t, x, data);
    }
  }

  method ZeroArray(n: nat) returns (x: array<Word>)
    ensures fresh(x) && x[..] == ZeroBytes(n)
  {
    x := new Word[n](i => Zero(8));
  }

  /** memcpy of a block. */
  method Store(x: array<Word>, bytes: seq<Word>)
    requires x.Length == |bytes| == 16
    modifies x
    ensures x[..] == bytes
  {
    var i := 0;
    while i < 16
      invariant 0 <= i <= 16 && x[..i] == bytes[..i]
    {
      x[i] := bytes[i];
      i := i + 1;
    }
  }

  /** The big-endian length block, filled from both ends of its halves. */
  method FillLengths(aad: nat, ct: nat) returns (lb: seq<Word>)
    ensures lb == LengthBlock(aad, ct)
  {
    hide OfNumber, Cut, Shr, Zero;
    var al, il := OfNumber(8 * aad, 64), OfNumber(8 * ct, 64);
    var b := ZeroArray(16);
    var i := 0;
    while i < 8
      invariant 0 <= i <= 8 && b.Length == 16
      invariant forall k :: 8 - i <= k < 8 ==> b[k] == ByteAt(al, k) && b[8 + k] == ByteAt(il, k)
    {
      ShiftedByte(al, 7 - i);
      ShiftedByte(il, 7 - i);
      b[7 - i], b[15 - i] := Shr(al, 8 * i)[56..], Shr(il, 8 * i)[56..];
      i := i + 1;
    }
    lb := b[..];
    IsCut(al, lb[..8]);
    IsCut(il, lb[8..]);
    assert lb == lb[..8] + lb[8..];
  }

  /** Byte k of a 64-bit word, from the top. */
  function ByteAt(w: Word, k: nat): Word
    requires |w| == 64 && k < 8
  {
    w[8 * k..8 * k + 8]
  }

  lemma IsCut(w: Word, s: seq<Word>)
    requires |w| == 64 && |s| == 8 && forall k :: 0 <= k < 8 ==> s[k] == ByteAt(w, k)
    ensures s == Cut(w)
  {
    hide Cut;
    forall k | 0 <= k < 8 ensures s[k] == Cut(w)[k] {
      CutAt(w, k);
    }
  }

  lemma ShiftedByte(w: Word, k: nat)
    requires |w| == 64 && k < 8
    ensures Shr(w, 8 * (7 - k))[56..] == ByteAt(w, k)
  {}

  lemma {:induction false} CutAt(w: Word, k: nat)
    requires |w| % 8 == 0 && 8 * k < |w|
    ensures k < |Cut(w)| && Cut(w)[k] == w[8 * k..8 * k + 8]
    decreases k
  {
    if k > 0 {
      CutAt(w[8..], k - 1);
      assert Cut(w)[k] == Cut(w[8..])[k - 1];
      assert w[8..][8 * (k - 1)..8 * (k - 1) + 8] == w[8 * k..8 * k + 8];
    }
  }

  /** The tag over associated data and ciphertext. */
  method ComputeTag(pclmul: bool, rounds: seq<Round>, iv: seq<Word>, aad: seq<Word>, ct: seq<Word>) returns (tag: seq<Word>)
    requires |iv| == 12 && AreBytes(iv) && AreBytes(aad) && AreBytes(ct)
    ensures tag == Tag(rounds, iv, aad, ct)
  {
    hide Ghash, Flatten, Encipher, Cut;
    var h := Encipher(rounds, ZeroBlock());
    var tbl := new GcmTable.Table(h);
    var x := ZeroArray(16);
    FlattenZeros(16);
    if |aad| > 0 {
      GhashInto(pclmul, tbl, x, aad);
    } else {
      GhashNothing(Zero(128), Flatten(h), aad);
    }
    GhashInto(pclmul, tbl, x, ct);
    var lb := FillLengths(|aad|, |ct|);
    GhashInto(pclmul, tbl, x, lb);
    CutFlatten(x[..]);
    tag := XorBytes(x[..], Encipher(rounds, J0(iv)));
  }

  lemma GhashNothing(y: Word, h: Word, s: seq<Word>)
    requires |y| == |h| == 128 && |s| == 0
    ensures Ghash(y, h, s) == y
  {}

  /** The key stream from the second counter block on, by either loop. */
  method ApplyStream(aesni: bool, rounds: seq<Round>, iv: seq<Word>, input: seq<Word>, out: array<Word>)
    requires |rounds| >= 2 && |iv| == 12 && AreBytes(iv) && AreBytes(input) && out.Length == |input|
    modifies out
    ensures out[..] == Stream(rounds, Next(J0(iv)), input)
  {
    hide Stream, Next;
    var ctr := ZeroArray(16);
    Store(ctr, J0(iv));
    IncBytes(ctr);
    if aesni {
      EightWay(rounds, ctr, input, out);
    } else {
      CtrXor(rounds, ctr, input, out);
    }
  }

  /** aes_gcm_encrypt, with and without the processor's AES and carry-less multiplication. */
  method Encrypt(aesni: bool, pclmul: bool, rounds: seq<Round>, iv: seq<Word>, aad: seq<Word>, input: seq<Word>,
                 out: array<Word>) returns (tag: seq<Word>)
    requires |rounds| >= 2 && |iv| == 12 && AreBytes(iv) && AreBytes(aad) && AreBytes(input)
    requires out.Length == |input|
    modifies out
    ensures out[..] == Stream(rounds, Next(J0(iv)), input)
    ensures tag == Tag(rounds, iv, aad, Stream(rounds, Next(J0(iv)), input))
  {
    hide Stream, Next, Tag;
    ApplyStream(aesni, rounds, iv, input, out);
    tag := ComputeTag(pclmul, rounds, iv, aad, out[..]);
  }

  /** The tags are compared without an early exit. */
  method Differ(a: seq<Word>, b: seq<Word>) returns (diff: bool)
    requires |a| == |b| == 16 && AreBytes(a) && AreBytes(b)
    ensures diff <==> a != b
  {
    var d := Zero(8);
    var i := 0;
    while i < 16
      invariant 0 <= i <= 16 && |d| == 8
      invariant d == Zero(8) <==> a[..i] == b[..i]
    {
      Accumulated(d, a[i], b[i]);
      assert a[..i + 1] == a[..i] + [a[i]] && b[..i + 1] == b[..i] + [b[i]];
      d := Or(d, Xor(a[i], b[i]));
      i := i + 1;
    }
    assert a[..16] == a && b[..16] == b;
    diff := d != Zero(8);
  }

  lemma Accumulated(d: Word, x: Word, y: Word)
    requires |d| == |x| == |y|
    ensures Or(d, Xor(x, y)) == Zero(|d|) <==> d == Zero(|d|) && x == y
  {
    var o := Or(d, Xor(x, y));
    if o == Zero(|d|) {
      assert forall p :: 0 <= p < |d| ==> !o[p];
      assert x == y;
    }
  }

  /** (int)len */
  function ToInt32(x: nat): (r: int)
    ensures x < 0x8000_0000 ==> r == x
    ensures (x - r) % 0x1_0000_0000 == 0 && -0x8000_0000 <= r < 0x8000_0000
  {
    (x + 0x8000_0000) % 0x1_0000_0000 - 0x8000_0000
  }

  /** aes_gcm_decrypt: the tag decides, and a rejected message leaves the output as it was. */
  method Decrypt(aesni: bool, pclmul: bool, rounds: seq<Round>, iv: seq<Word>, aad: seq<Word>, input: seq<Word>,
                 out: array<Word>, tag: seq<Word>) returns (r: int)
    requires |rounds| >= 2 && |iv| == 12 && AreBytes(iv) && AreBytes(aad) && AreBytes(input)
    requires out.Length == |input| && |tag| == 16 && AreBytes(tag)
    modifies out
    ensures tag == Tag(rounds, iv, aad, input) ==>
      r == ToInt32(|input|) && out[..] == Stream(rounds, Next(J0(iv)), input)
    ensures tag != Tag(rounds, iv, aad, input) ==> r == -1 && out[..] == old(out[..])
  {
    hide Stream, Next, Tag;
    var expected := ComputeTag(pclmul, rounds, iv, aad, input);
    var diff := Differ(expected, tag);
    if diff {
      return -1;
    }
    ApplyStream(aesni, rounds, iv, input, out);
    r := ToInt32(|input|);
  }

  /** Whatever the paths taken on either side, decryption accepts and returns the plaintext. */
  method RoundTrip(aesni: bool, pclmul: bool, aesni': bool, pclmul': bool, rounds: seq<Round>, iv: seq<Word>,
                   aad: seq<Word>, plain: seq<Word>) returns (r: int, result: seq<Word>)
    requires |rounds| >= 2 && |iv| == 12 && AreBytes(iv) && AreBytes(aad) && AreBytes(plain)
    ensures r == ToInt32(|plain|) && result == plain
  {
    hide Stream, Next, Tag;
    var c := ZeroArray(|plain|);
    var p := ZeroArray(|plain|);
    var tag := Encrypt(aesni, pclmul, rounds, iv, aad, plain, c);
    r := Decrypt(aesni', pclmul', rounds, iv, aad, c[..], p, tag);
    StreamTwice(rounds, Next(J0(iv)), plain);
    result := p[..];
  }
}
