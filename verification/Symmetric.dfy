/** symmetric-shake.c and symmetric.h: the hash functions of ML-KEM, which the other
    modules take as a parameter, are sponges. */
module Symmetric {
  import opened Bits
  import opened Sample
  import Sponge
  import Chunks
  import Kem
  import Verify

  function Rate(id: HashId): (r: nat)
    ensures 0 < r <= 200
  {
    match id
    case Sha3x256 => 136
    case Sha3x512 => 72
    case Shake128 => 168
    case Shake256 => 136
  }

  function Suffix(id: HashId): Byte {
    if id == Sha3x256 || id == Sha3x512 then 0x06 else 0x1f
  }

  /** The four functions over one permutation. */
  function Keccak(f: Sponge.Permutation): Hash {
    (id, input, k) => Sponge.OutputByte(f, Rate(id), Sponge.Absorbed(f, Rate(id), input, Suffix(id)), k)
  }

  /** The padding in bytes, as in table 6 of section B.2 of FIPS 202. */
  lemma PaddingBytes(id: HashId, m: seq<Byte>)
    ensures var q := Rate(id) - |m| % Rate(id);
      Sponge.Padded(m, Rate(id), Suffix(id)) == m +
        if id == Sha3x256 || id == Sha3x512 then
          (if q == 1 then [0x86] else [0x06] + seq(q - 2, i => 0) + [0x80])
        else
          (if q == 1 then [0x9f] else [0x1f] + seq(q - 2, i => 0) + [0x80])
  {
    TopBitAdded(0x06);
    TopBitAdded(0x1f);
  }

  lemma TopBitAdded(pad: Byte)
    requires pad < 128
    ensures Verify.XorByte(pad, 0x80) == pad + 0x80
  {
    hide Verify.Xor, Pow2;
    Powers();
    Verify.XorParted(0, 1, pad, 0, 7);
    Verify.XorNothing(pad);
    Verify.XorNothing(1);
  }

  lemma DigestIsSponge(f: Sponge.Permutation, id: HashId, input: seq<Byte>, n: nat)
    ensures Digest(Keccak(f), id, input, n) == Sponge.Digest(f, Rate(id), input, Suffix(id), n)
  {
    hide Sponge.OutputByte, Sponge.Absorbed;
  }

  /** hash_h, hash_g and prf: one call of sha3_256, sha3_512 or shake256. */
  method OneShot(f: Sponge.Permutation, id: HashId, input: seq<Byte>, n: nat) returns (out: seq<Byte>)
    ensures out == Digest(Keccak(f), id, input, n)
  {
    hide Keccak, Sponge.Digest;
    out := Sponge.Hash(f, Rate(id), [input], Suffix(id), n);
    Chunks.JoinOne(input);
    DigestIsSponge(f, id, input, n);
  }

  /** rkprf: key and ciphertext absorbed one after the other give the rejection secret. */
  method RejectionSecret(f: Sponge.Permutation, key: seq<Byte>, input: seq<Byte>) returns (out: seq<Byte>)
    ensures out == Kem.Rejection(Keccak(f), key, input)
  {
    hide Keccak, Sponge.Digest;
    out := Sponge.Hash(f, 136, [key, input], 0x1f, 32);
    Chunks.JoinStart([key, input]);
    Chunks.JoinNext([key, input], 0, []);
    Chunks.JoinOne(input);
    assert [key, input][1..] == [input];
    DigestIsSponge(f, Shake256, key + input, 32);
  }

  /** The blocks that the matrix sampler reads, first several, then one at a time. */
  method StreamBlocks(f: Sponge.Permutation, input: seq<Byte>, blocks: nat, more: nat)
    returns (first: seq<Byte>, next: seq<Byte>)
    ensures first == Digest(Keccak(f), Shake128, input, 168 * blocks)
    ensures next == Block(Keccak(f), input, 168 * blocks, 168 * more)
  {
    hide Keccak, Sponge.Digest;
    first, next := Sponge.Shake128(f, input, blocks, more);
    DigestIsSponge(f, Shake128, input, 168 * (blocks + more));
    assert Digest(Keccak(f), Shake128, input, 168 * (blocks + more))
        == Digest(Keccak(f), Shake128, input, 168 * blocks) + Block(Keccak(f), input, 168 * blocks, 168 * more);
    Parts(first, next, Digest(Keccak(f), Shake128, input, 168 * blocks),
          Block(Keccak(f), input, 168 * blocks, 168 * more));
  }

  lemma Parts(a: seq<Byte>, b: seq<Byte>, c: seq<Byte>, d: seq<Byte>)
    requires a + b == c + d && |a| == |c|
    ensures a == c && b == d
  {
    assert (a + b)[..|a|] == a && (c + d)[..|a|] == c && (a + b)[|a|..] == b && (c + d)[|a|..] == d;
  }
}
