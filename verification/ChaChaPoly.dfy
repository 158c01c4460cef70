/** ChaCha20-Poly1305 of crypto.c (section 2.8 of RFC 8439). */
module ChaChaPoly {
  import opened Bits
  import opened Verify
  import opened ChaCha
  import Poly1305
  import Poly1305State

  /** The one-time key: the start of block 0. */
  function PolyKey(key: seq<Byte>, nonce: seq<Byte>): (k: seq<Byte>)
    requires |key| == 32 && |nonce| == 12
    ensures |k| == 32
  {
    Block(Initial(key, 0, nonce))[..32]
  }

  /** The tag over the padded data and both lengths, stored in 32 bits. */
  function Tag(key: seq<Byte>, nonce: seq<Byte>, ad: seq<Byte>, ct: seq<Byte>): seq<Byte>
    requires |key| == 32 && |nonce| == 12
  {
    Poly1305.Mac(PolyKey(key, nonce), Poly1305.MacData(ad, ct, |ad| % TWO32, |ct| % TWO32))
  }

  /** For lengths that fit it is the tag of the standard. */
  lemma TagIsStandard(key: seq<Byte>, nonce: seq<Byte>, ad: seq<Byte>, ct: seq<Byte>)
    requires |key| == 32 && |nonce| == 12 && |ad| < TWO32 && |ct| < TWO32
    ensures Tag(key, nonce, ad, ct) == Poly1305.Mac(PolyKey(key, nonce), Poly1305.MacData(ad, ct, |ad|, |ct|))
  {
    hide Poly1305.Mac, Poly1305.MacData, PolyKey;
  }

  /** Masking zeros gives the key stream itself. */
  method OneTimeKey(sse2: bool, key: seq<Byte>, nonce: seq<Byte>) returns (k: seq<Byte>)
    requires |key| == 32 && |nonce| == 12
    ensures k == PolyKey(key, nonce)
  {
    hide Block, Initial, Stream;
    var buf := new Byte[32](i => 0);
    var zeros := buf[..];
    ChaChaXor(sse2, key, 0, nonce, zeros, buf);
    StreamOfZeros(Initial(key, 0, nonce), zeros);
    k := buf[..];
  }

  lemma StreamOfZeros(s: State, zeros: seq<Byte>)
    requires |zeros| == 32 && forall i :: 0 <= i < 32 ==> zeros[i] == 0
    ensures Stream(s, zeros) == Block(s)[..32]
  {
    hide Block;
    StreamStep(s, zeros);
    StreamNothing(Ahead(s, 1));
    assert zeros[..32] == zeros && zeros[32..] == [];
  }

  method TagOf(key: seq<Byte>, nonce: seq<Byte>, polyKey: seq<Byte>, ad: seq<Byte>, ct: seq<Byte>) returns (tag: seq<Byte>)
    requires |key| == 32 && |nonce| == 12 && polyKey == PolyKey(key, nonce)
    ensures tag == Tag(key, nonce, ad, ct)
  {
    hide Poly1305.Mac, Poly1305.MacData, PolyKey;
    tag := Poly1305State.AeadTag(polyKey, ad, ct);
  }

  /** chacha20_poly1305_encrypt */
  method Encrypt(sse2: bool, key: seq<Byte>, nonce: seq<Byte>, ad: seq<Byte>, input: seq<Byte>, out: array<Byte>)
    returns (tag: seq<Byte>)
    requires |key| == 32 && |nonce| == 12 && |input| < INT_ROOM && out.Length == |input|
    modifies out
    ensures out[..] == Stream(Initial(key, 1, nonce), input)
    ensures tag == Tag(key, nonce, ad, Stream(Initial(key, 1, nonce), input))
  {
    hide Stream, Initial, Tag, PolyKey;
    var polyKey := OneTimeKey(sse2, key, nonce);
    ChaChaXor(sse2, key, 1, nonce, input, out);
    tag := TagOf(key, nonce, polyKey, ad, out[..]);
  }

  /** The tags are compared without an early exit. */
  method Differ(a: seq<Byte>, b: seq<Byte>) returns (diff: nat)
    requires |a| == |b| == 16
    ensures diff != 0 <==> a != b
  {
    hide Or, Xor;
    diff := 0;
    var i := 0;
    while i < 16
      invariant 0 <= i <= 16
      invariant diff == 0 <==> a[..i] == b[..i]
    {
      OrZero(diff, Xor(a[i], b[i]));
      XorZero(a[i], b[i]);
      assert a[..i + 1] == a[..i] + [a[i]] && b[..i + 1] == b[..i] + [b[i]];
      diff := Or(diff, Xor(a[i], b[i]));
      i := i + 1;
    }
    assert a[..16] == a && b[..16] == b;
  }

  /** chacha20_poly1305_decrypt: -1 and an untouched output unless the tag is right. */
  method Decrypt(sse2: bool, key: seq<Byte>, nonce: seq<Byte>, ad: seq<Byte>, input: seq<Byte>, out: array<Byte>,
                 tag: seq<Byte>) returns (r: int)
    requires |key| == 32 && |nonce| == 12 && |input| < INT_ROOM && out.Length == |input| && |tag| == 16
    modifies out
    ensures tag == Tag(key, nonce, ad, input) ==> r == |input| && out[..] == Stream(Initial(key, 1, nonce), input)
    ensures tag != Tag(key, nonce, ad, input) ==> r == -1 && out[..] == old(out[..])
  {
    hide Stream, Initial, PolyKey;
    var polyKey := OneTimeKey(sse2, key, nonce);
    var expected := TagOf(key, nonce, polyKey, ad, input);
    var diff := Differ(expected, tag);
    if diff != 0 {
      return -1;
    }
    ChaChaXor(sse2, key, 1, nonce, input, out);
    r := |input|;
  }

  /** Decryption undoes encryption at every length, whichever way each side computes. */
  method RoundTrip(sse2: bool, sse2': bool, key: seq<Byte>, nonce: seq<Byte>, ad: seq<Byte>, plain: seq<Byte>)
    returns (r: int, result: seq<Byte>)
    requires |key| == 32 && |nonce| == 12 && |plain| < INT_ROOM
    ensures r == |plain| && result == plain
  {
    hide Stream, Initial, PolyKey;
    var c, p := new Byte[|plain|](i => 0), new Byte[|plain|](i => 0);
    var tag := Encrypt(sse2, key, nonce, ad, plain, c);
    r := Decrypt(sse2', key, nonce, ad, c[..], p, tag);
    StreamTwice(Initial(key, 1, nonce), plain);
    result := p[..];
  }
}
