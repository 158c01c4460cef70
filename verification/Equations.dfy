/** The equations of K-PKE (section 5 of FIPS 203) with every seed byte, every nonce and
    every place in the keys and the ciphertext written out. */
module Equations {
  import opened Bits
  import opened Ring
  import opened NttTree
  import opened PolyBytes
  import opened PolyArith
  import opened Sample
  import opened Kpke

  /** A polynomial of the public matrix, from the input of its byte stream. */
  function Public(h: Hash, input: seq<Byte>, n: nat): (f: Poly)
    requires Enough(h, input, n)
    ensures |f| == 256
  {
    FromNtt(SampleNtt(h, input, n))
  }

  /** A small polynomial, from the input of its byte stream. */
  function Small(h: Hash, input: seq<Byte>): (f: Poly)
    ensures |f| == 256
  {
    Cbd(Digest(h, Shake256, input, 128))
  }

  function Publics(h: Hash, a: seq<Byte>, b: seq<Byte>, c: seq<Byte>, n: nat): (v: Vec)
    requires Enough(h, a, n) && Enough(h, b, n) && Enough(h, c, n)
    ensures IsVec(v)
  {
    [Public(h, a, n), Public(h, b, n), Public(h, c, n)]
  }

  function Smalls(h: Hash, a: seq<Byte>, b: seq<Byte>, c: seq<Byte>): (v: Vec)
    ensures IsVec(v)
  {
    [Small(h, a), Small(h, b), Small(h, c)]
  }

  /** The coefficients of a transform in 384 bytes. */
  function Coded(f: Poly): seq<Byte> {
    ByteEncode(12, NatPoly(Canon(f)))
  }

  /** t_i is the sum of a_ij s_j, plus e_i: a_ij from rho, j, i; s_j from sigma, j; e_i from
      sigma, 3 + i; rho and sigma are the halves of G(d, 3). */
  lemma KeyEquation(h: Hash, d: seq<Byte>, n: nat, i: nat, rho: seq<Byte>, sigma: seq<Byte>)
    requires |rho| == 32 && rho + sigma == Digest(h, Sha3x512, d + [3], 64)
    requires EnoughAll(h, Seeds(h, d)[..32], n) && i < 3
    ensures Enough(h, rho + [0, i], n) && Enough(h, rho + [1, i], n) && Enough(h, rho + [2, i], n)
    ensures KeyT(h, d, n)[i] == Add(
      Dot(Publics(h, rho + [0, i], rho + [1, i], rho + [2, i], n), Smalls(h, sigma + [0], sigma + [1], sigma + [2])),
      Small(h, sigma + [3 + i]))
  {
    hide SampleNtt, Enough, FromNtt, Cbd, Digest, Dot, Add, EnoughAll;
    assert rho == Seeds(h, d)[..32] && sigma == Seeds(h, d)[32..];
    RowSeeds(h, rho, n, i, 0);
    RowSeeds(h, rho, n, i, 1);
    RowSeeds(h, rho, n, i, 2);
  }

  /** u_i is the sum of a_ji y_j, plus e1_i: a_ji from rho, i, j; y_j from the coins, j; e1_i
      from the coins, 3 + i. */
  lemma CipherEquation(h: Hash, rho: seq<Byte>, coins: seq<Byte>, n: nat, i: nat)
    requires EnoughAll(h, rho, n) && i < 3
    ensures Enough(h, rho + [i, 0], n) && Enough(h, rho + [i, 1], n) && Enough(h, rho + [i, 2], n)
    ensures CipherU(h, rho, coins, n)[i] == Add(
      Dot(Publics(h, rho + [i, 0], rho + [i, 1], rho + [i, 2], n),
          Smalls(h, coins + [0], coins + [1], coins + [2])),
      Small(h, coins + [3 + i]))
  {
    hide SampleNtt, Enough, FromNtt, Cbd, Digest, Dot, Add, EnoughAll;
    RowSeeds(h, rho, n, i, 0);
    RowSeeds(h, rho, n, i, 1);
    RowSeeds(h, rho, n, i, 2);
  }

  /** v is the sum of t_j y_j, plus e2 from the coins, 6, plus the message. */
  lemma MessageEquation(h: Hash, t: Vec, m: seq<Byte>, coins: seq<Byte>)
    requires IsVec(t) && |m| == 32
    ensures CipherV(h, t, m, coins) == Add(
      Add(Dot(t, Smalls(h, coins + [0], coins + [1], coins + [2])), Small(h, coins + [6])),
      Message(m))
  {
    hide Cbd, Digest, Dot, Add, Message;
  }

  /** Where the polynomials of a key lie: 384 bytes each, in order. */
  lemma KeyPart(f: Vec, i: nat)
    requires IsVec(f) && i < 3
    ensures EncodeVec12(f)[384 * i..384 * i + 384] == Coded(f[i])
  {
    hide ByteEncode, Canon;
    var a, b, c := ByteEncode(12, NatPoly(Canon(f[0]))), ByteEncode(12, NatPoly(Canon(f[1]))),
      ByteEncode(12, NatPoly(Canon(f[2])));
    EncodeLength(12, NatPoly(Canon(f[0])), 384);
    EncodeLength(12, NatPoly(Canon(f[1])), 384);
    EncodeLength(12, NatPoly(Canon(f[2])), 384);
    ThreeParts(a, b, c);
  }

  lemma ThreeParts<T>(a: seq<T>, b: seq<T>, c: seq<T>)
    requires |a| == |b| == |c| == 384
    ensures (a + b + c)[..384] == a && (a + b + c)[384..768] == b && (a + b + c)[768..1152] == c
  {}

  /** Where the polynomials of a ciphertext lie: u_i in 320 bytes each, then v. */
  lemma CipherPart(u: Vec, v: Poly, i: nat)
    requires IsVec(u) && |v| == 256 && i < 3
    ensures PackCipher(u, v)[320 * i..320 * i + 320] == ByteEncode(10, RoundPoly(10, u[i]))
    ensures PackCipher(u, v)[960..] == ByteEncode(4, RoundPoly(4, v))
  {
    hide ByteEncode, RoundPoly;
    EncodeLength(10, RoundPoly(10, u[0]), 320);
    EncodeLength(10, RoundPoly(10, u[1]), 320);
    EncodeLength(10, RoundPoly(10, u[2]), 320);
    EncodeLength(4, RoundPoly(4, v), 128);
    FourParts(ByteEncode(10, RoundPoly(10, u[0])), ByteEncode(10, RoundPoly(10, u[1])),
              ByteEncode(10, RoundPoly(10, u[2])), ByteEncode(4, RoundPoly(4, v)));
  }

  lemma FourParts<T>(a: seq<T>, b: seq<T>, c: seq<T>, d: seq<T>)
    requires |a| == |b| == |c| == 320 && |d| == 128
    ensures var s := a + b + c + d; s[..320] == a && s[320..640] == b && s[640..960] == c && s[960..] == d
  {}
}
