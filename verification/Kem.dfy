/** kem.c: the key encapsulation mechanism around K-PKE, with implicit rejection
    (sections 6 and 7 of FIPS 203). */
module Kem {
  import opened Bits
  import opened PolyBytes
  import opened Sample
  import opened Kpke
  import opened Correct
  import opened Verify

  function FourParts(a: seq<Byte>, b: seq<Byte>, c: seq<Byte>, d: seq<Byte>): (s: seq<Byte>)
    requires |a| == 1152 && |b| == 1184 && |c| == |d| == 32
    ensures |s| == 2400 && s[..1152] == a && s[1152..2336] == b && s[2336..2368] == c && s[2368..] == d
  {
    a + b + c + d
  }

  /** dk = dk_PKE || ek || H(ek) || z. */
  function DecapsulationKey(h: Hash, d: seq<Byte>, z: seq<Byte>, n: nat): (sk: seq<Byte>)
    requires |z| == 32 && EnoughAll(h, Seeds(h, d)[..32], n)
    ensures |sk| == 2400 && sk[..1152] == SecretKey(h, d) && sk[1152..2336] == PublicKey(h, d, n)
    ensures sk[2336..2368] == Digest(h, Sha3x256, PublicKey(h, d, n), 32) && sk[2368..] == z
  {
    var pk := PublicKey(h, d, n);
    FourParts(SecretKey(h, d), pk, Digest(h, Sha3x256, pk, 32), z)
  }

  /** (K, r) = G(m || H(ek)). */
  function KeyAndCoins(h: Hash, m: seq<Byte>, digest: seq<Byte>): (kr: seq<Byte>)
    ensures |kr| == 64
  {
    Digest(h, Sha3x512, m + digest, 64)
  }

  /** J(z || c). */
  function Rejection(h: Hash, z: seq<Byte>, c: seq<Byte>): (k: seq<Byte>)
    ensures |k| == 32
  {
    Digest(h, Shake256, z + c, 32)
  }

  /** The ciphertext that encapsulation of m under pk produces. */
  function Ciphertext(h: Hash, m: seq<Byte>, pk: seq<Byte>, digest: seq<Byte>, n: nat): (c: seq<Byte>)
    requires |m| == 32 && |pk| == 1184 && EnoughAll(h, pk[1152..], n)
    ensures |c| == 1088
  {
    Encryption(h, m, pk, KeyAndCoins(h, m, digest)[32..], n)
  }

  /** ML-KEM.Decaps: the key of the re-encrypted message if re-encryption
      reproduces c, the rejection key otherwise. */
  function Decapsulation(h: Hash, c: seq<Byte>, sk: seq<Byte>, n: nat): (k: seq<Byte>)
    requires |c| == 1088 && |sk| == 2400 && EnoughAll(h, sk[1152..2336][1152..], n)
    ensures |k| == 32
  {
    var pk, digest, z := sk[1152..2336], sk[2336..2368], sk[2368..];
    var m := Decryption(c, sk[..1152]);
    if Ciphertext(h, m, pk, digest, n) == c then KeyAndCoins(h, m, digest)[..32] else Rejection(h, z, c)
  }

  // ----- the three operations -----------------------------------------------------------

  /** crypto_kem_keypair_derand. */
  method KemKeyPair(h: Hash, coins: seq<Byte>, ghost n: nat) returns (pk: seq<Byte>, sk: seq<Byte>)
    requires |coins| == 64 && EnoughAll(h, Seeds(h, coins[..32])[..32], n)
    ensures pk == PublicKey(h, coins[..32], n)
    ensures sk == DecapsulationKey(h, coins[..32], coins[32..], n)
  {
    hide PublicKey, SecretKey, Seeds, EnoughAll;
    pk, sk := KeyPair(h, coins[..32], n);
    sk := sk + pk;
    sk := sk + Digest(h, Sha3x256, pk, 32);
    sk := sk + coins[32..];
  }

  /** crypto_kem_enc_derand. */
  method KemEnc(h: Hash, pk: seq<Byte>, coins: seq<Byte>, ghost n: nat) returns (ct: seq<Byte>, ss: seq<Byte>)
    requires |coins| == 32 && |pk| == 1184 && EnoughAll(h, pk[1152..], n)
    ensures ct == Ciphertext(h, coins, pk, Digest(h, Sha3x256, pk, 32), n)
    ensures ss == KeyAndCoins(h, coins, Digest(h, Sha3x256, pk, 32))[..32]
    ensures var g := Digest(h, Sha3x512, coins + Digest(h, Sha3x256, pk, 32), 64);
      ss == g[..32] && ct == Encryption(h, coins, pk, g[32..], n)
  {
    hide Encryption, EnoughAll;
    var buf := coins + Digest(h, Sha3x256, pk, 32);
    var kr := Digest(h, Sha3x512, buf, 64);
    assert buf[..32] == coins;
    ct := Encrypt(h, buf[..32], pk, kr[32..], n);
    ss := kr[..32];
  }

  /** crypto_kem_dec. */
  method KemDec(h: Hash, ct: seq<Byte>, sk: seq<Byte>, ghost n: nat) returns (ss: seq<Byte>)
    requires |ct| == 1088 && |sk| == 2400 && EnoughAll(h, sk[1152..2336][1152..], n)
    ensures ss == Decapsulation(h, ct, sk, n)
    ensures var m := Decryption(ct, sk[..1152]);
      var g := Digest(h, Sha3x512, m + sk[2336..2368], 64);
      ss == if Encryption(h, m, sk[1152..2336], g[32..], n) == ct then g[..32]
            else Digest(h, Shake256, sk[2368..] + ct, 32)
  {
    hide Encryption, Decryption, EnoughAll;
    var pk := sk[1152..2336];
    var buf := Decrypt(ct, sk[..1152]);
    var kr := Digest(h, Sha3x512, buf + sk[2336..2368], 64);
    var cmp := Encrypt(h, buf, pk, kr[32..], n);
    var fail := Compare(ct, cmp, 1088);
    assert ct[..1088] == ct && cmp[..1088] == cmp;
    var key := Digest(h, Shake256, sk[2368..] + ct, 32);
    var out := new Byte[32](i requires 0 <= i < 32 => key[i]);
    assert out[..] == key;
    Cmov(out, kr, 32, 1 - fail);
    ss := out[..];
  }

  // ----- correctness -----------------------------------------------------------------------

  /** For every key pair and message, decapsulation returns the encapsulated secret
      whenever the total noise of that encryption fits. */
  lemma DecapsulationCorrect(h: Hash, d: seq<Byte>, z: seq<Byte>, m: seq<Byte>, n: nat)
    requires |z| == 32 && |m| == 32 && EnoughAll(h, Seeds(h, d)[..32], n)
    requires NoiseFits(TotalNoise(h, d, m, KeyAndCoins(h, m, EncapsDigest(h, d, n))[32..], n), m)
    ensures Decapsulation(h, Ciphertext(h, m, PublicKey(h, d, n), EncapsDigest(h, d, n), n),
              DecapsulationKey(h, d, z, n), n)
         == KeyAndCoins(h, m, EncapsDigest(h, d, n))[..32]
  {
    hide PublicKey, SecretKey, DecapsulationKey, EnoughAll, TotalNoise, Encryption, Decryption, NoiseFits, Digest,
      Seeds, Rejection;
    DecryptionCorrect(h, d, m, KeyAndCoins(h, m, EncapsDigest(h, d, n))[32..], n);
  }

  /** H(ek) of a generated key. */
  function EncapsDigest(h: Hash, d: seq<Byte>, n: nat): seq<Byte>
    requires EnoughAll(h, Seeds(h, d)[..32], n)
  {
    Digest(h, Sha3x256, PublicKey(h, d, n), 32)
  }

  /** Implicit rejection: whatever the key and the ciphertext, the result is the key
      of the decrypted message or the rejection key; and a ciphertext that is not
      the encryption of its own decryption is always rejected. */
  lemma ImplicitRejection(h: Hash, c: seq<Byte>, sk: seq<Byte>, n: nat)
    requires |c| == 1088 && |sk| == 2400 && EnoughAll(h, sk[1152..2336][1152..], n)
    ensures (forall m | |m| == 32 :: Ciphertext(h, m, sk[1152..2336], sk[2336..2368], n) != c)
      ==> Decapsulation(h, c, sk, n) == Rejection(h, sk[2368..], c)
  {
    hide Ciphertext, Decryption, EnoughAll, Rejection, KeyAndCoins;
  }

  /** poly_tobytes undoes poly_frombytes on every byte string. */
  lemma BytesRoundTrip(b: seq<Byte>)
    requires |b| == 384
    ensures |ByteDecode(12, b)| == 256
    ensures forall i :: 0 <= i < 256 ==> ByteDecode(12, b)[i] < 4096
    ensures ByteEncode(12, LiftPoly(ByteDecode(12, b))) == b
  {
    hide ByteEncode, ByteDecode, Pow2;
    Powers();
    EncodeDecode(12, b, 256);
    var p := ByteDecode(12, b);
    assert LiftPoly(p) == p;
  }
}
