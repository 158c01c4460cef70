/** HMAC (RFC 2104) and the two expansion loops of HKDF (section 2.3 of RFC 5869) in
    crypto.c. */
module Hkdf {
  import opened Bits
  import opened Verify
  import opened Sha

  // ----- HMAC ---------------------------------------------------------------------------------------

  /** The key, hashed if it is longer than a block, filled up with zeros. */
  function KeyBlock(a: Algorithm, key: seq<Byte>): (k: seq<Byte>)
    requires Known(a)
    ensures |k| == a.block
  {
    var short := if |key| > a.block then Hash(a, key) else key;
    short + Zeros(a.block - |short|)
  }

  function Xored(k: seq<Byte>, c: Byte): (r: seq<Byte>)
    ensures |r| == |k| && forall i :: 0 <= i < |k| ==> r[i] == XorByte(k[i], c)
  {
    seq(|k|, i requires 0 <= i < |k| => XorByte(k[i], c))
  }

  function Hmac(a: Algorithm, key: seq<Byte>, m: seq<Byte>): (h: seq<Byte>)
    requires Known(a)
    ensures |h| == Size(a)
  {
    var k := KeyBlock(a, key);
    Hash(a, Xored(k, 0x5c) + Hash(a, Xored(k, 0x36) + m))
  }

  /** A key filled up with zeros to n bytes, every byte with a constant added. */
  function Pad(key: seq<Byte>, n: nat, c: Byte): (r: seq<Byte>)
    ensures |r| == n
  {
    seq(n, i requires 0 <= i < n => PadByte(key, i, c))
  }

  function PadByte(key: seq<Byte>, i: nat, c: Byte): Byte {
    var b: Byte := if i < |key| then key[i] else 0;
    XorByte(b, c)
  }

  /** Section 2 of RFC 2104, for a key that fits into the block. */
  lemma HmacWritten(a: Algorithm, key: seq<Byte>, m: seq<Byte>)
    requires Known(a) && |key| <= a.block
    ensures Hmac(a, key, m) == Hash(a, Pad(key, a.block, 0x5c) + Hash(a, Pad(key, a.block, 0x36) + m))
  {
    hide Hash, XorByte;
    var k := KeyBlock(a, key);
    assert forall i :: 0 <= i < a.block ==> k[i] == if i < |key| then key[i] else 0;
    assert Xored(k, 0x5c) == Pad(key, a.block, 0x5c) && Xored(k, 0x36) == Pad(key, a.block, 0x36);
  }

  /** Zeros behind a key that fit into the block make no difference. */
  lemma ZerosBehind(a: Algorithm, key: seq<Byte>, n: nat, m: seq<Byte>)
    requires Known(a) && |key| + n <= a.block
    ensures Hmac(a, key + Zeros(n), m) == Hmac(a, key, m)
  {
    hide Hash;
    assert Zeros(n) + Zeros(a.block - |key| - n) == Zeros(a.block - |key|);
    assert KeyBlock(a, key + Zeros(n)) == KeyBlock(a, key);
  }

  /** A key that is longer than a block acts as its digest. */
  lemma LongKey(a: Algorithm, key: seq<Byte>, m: seq<Byte>)
    requires Known(a) && |key| > a.block
    ensures Hmac(a, key, m) == Hmac(a, Hash(a, key), m)
  {
    hide Hash;
    assert Size(a) <= a.block;
    assert KeyBlock(a, Hash(a, key)) == KeyBlock(a, key);
  }

  method PaddedKey(a: Algorithm, key: seq<Byte>) returns (k: seq<Byte>)
    requires Known(a)
    ensures k == KeyBlock(a, key)
  {
    hide Hash;
    k := key;
    if |key| > a.block {
      var ctx := new Context(a);
      ctx.Update(key);
      k := ctx.Final();
      assert [] + key == key;
    }
    k := k + Zeros(a.block - |k|);
  }

  method Pads(k: seq<Byte>) returns (i_key_pad: seq<Byte>, o_key_pad: seq<Byte>)
    ensures i_key_pad == Xored(k, 0x36) && o_key_pad == Xored(k, 0x5c)
  {
    hide XorByte;
    i_key_pad, o_key_pad := [], [];
    var i := 0;
    while i < |k|
      invariant 0 <= i <= |k| == |Xored(k, 0x36)| == |Xored(k, 0x5c)|
      invariant i_key_pad == Xored(k, 0x36)[..i] && o_key_pad == Xored(k, 0x5c)[..i]
    {
      i_key_pad, o_key_pad := i_key_pad + [XorByte(k[i], 0x36)], o_key_pad + [XorByte(k[i], 0x5c)];
      i := i + 1;
    }
  }

  /** A context that has been fed one block. */
  method Started(a: Algorithm, prefix: seq<Byte>) returns (c: Context)
    requires Known(a)
    ensures fresh(c) && fresh(c.buffer) && c.Valid() && c.a == a && c.fed == prefix
  {
    hide Context.Valid;
    c := new Context(a);
    c.Update(prefix);
  }

  class HmacContext {
    var inner: Context
    var outer: Context
    ghost var key: seq<Byte>
    ghost var fed: seq<Byte>

    ghost predicate Valid()
      reads this, inner, outer, inner.buffer, outer.buffer
    {
      && inner != outer && inner.buffer != outer.buffer && inner.a == outer.a
      && inner.Valid() && outer.Valid()
      && inner.fed == Xored(KeyBlock(inner.a, key), 0x36) + fed
      && outer.fed == Xored(KeyBlock(inner.a, key), 0x5c)
    }

    /** hmac_sha256_init, hmac_sha384_init */
    constructor (a: Algorithm, k: seq<Byte>)
      requires Known(a)
      ensures Valid() && key == k && fed == [] && inner.a == a
      ensures fresh(inner) && fresh(outer) && fresh(inner.buffer) && fresh(outer.buffer)
    {
      key, fed := k, [];
      var b := PaddedKey(a, k);
      var i_key_pad, o_key_pad := Pads(b);
      var i := Started(a, i_key_pad);
      var o := Started(a, o_key_pad);
      inner, outer := i, o;
      new;
      hide Hash, XorByte, KeyBlock, Context.Valid, Known;
    }

    method Update(data: seq<Byte>)
      requires Valid()
      modifies inner`state, inner`bitlen, inner`fed, inner.buffer, this`fed
      ensures Valid() && fed == old(fed) + data
    {
      hide XorByte, KeyBlock, Context.Valid;
      inner.Update(data);
      fed := fed + data;
    }

    /** hmac_sha256_final, hmac_sha384_final; a context yields one result. */
    method Final() returns (mac: seq<Byte>)
      requires Valid()
      modifies inner`state, inner`bitlen, inner`fed, inner.buffer
      modifies outer`state, outer`bitlen, outer`fed, outer.buffer
      ensures mac == Hmac(inner.a, key, fed)
    {
      hide XorByte, KeyBlock, Hash, Context.Valid;
      var inner_hash := inner.Final();
      outer.Update(inner_hash);
      mac := outer.Final();
    }
  }

  // ----- the standard's expansion --------------------------------------------------------------------

  /** T(i) of RFC 5869; the counter is one byte. */
  function T(a: Algorithm, prk: seq<Byte>, info: seq<Byte>, i: nat): (t: seq<Byte>)
    requires Known(a) && i <= 255
    ensures i > 0 ==> |t| == Size(a)
  {
    if i == 0 then [] else Hmac(a, prk, T(a, prk, info, i - 1) + info + [i])
  }

  // ----- the loops -----------------------------------------------------------------------------------------

  /** Block i as the loops compute it. The counter wraps. The SHA-256 loop asks the counter
      whether there is an earlier block, the SHA-384 loop the number of the block. */
  function BlockAt(a: Algorithm, prk: seq<Byte>, info: seq<Byte>, i: nat, byCounter: bool): (t: seq<Byte>)
    requires Known(a) && i > 0
    ensures |t| == Size(a)
  {
    var earlier := if byCounter then i % 256 > 1 else i > 1;
    Hmac(a, prk, (if earlier then BlockAt(a, prk, info, i - 1, byCounter) else []) + info + [i % 256])
  }

  /** The first n blocks. */
  function Blocks(a: Algorithm, prk: seq<Byte>, info: seq<Byte>, n: nat, byCounter: bool): (r: seq<Byte>)
    requires Known(a)
    ensures |r| == Size(a) * n
  {
    if n == 0 then []
    else
      assert Size(a) * n == Size(a) * (n - 1) + Size(a);
      Blocks(a, prk, info, n - 1, byCounter) + BlockAt(a, prk, info, n, byCounter)
  }

  /** The first len bytes of the blocks. */
  function Okm(a: Algorithm, prk: seq<Byte>, info: seq<Byte>, len: nat, byCounter: bool): (r: seq<Byte>)
    requires Known(a)
    ensures |r| == len
  {
    Enough(a, len);
    Blocks(a, prk, info, len, byCounter)[..len]
  }

  lemma Enough(a: Algorithm, n: nat)
    requires Known(a)
    ensures Size(a) * n >= n && Size(a) > 0
  {}

  method NextBlock(a: Algorithm, prk: seq<Byte>, info: seq<Byte>, t: seq<Byte>, earlier: bool, c: Byte) returns (r: seq<Byte>)
    requires Known(a)
    ensures r == Hmac(a, prk, (if earlier then t else []) + info + [c])
  {
    hide Hmac, HmacContext.Valid;
    var ctx := new HmacContext(a, prk);
    if earlier {
      ctx.Update(t);
    }
    assert ctx.fed == if earlier then t else [];
    ctx.Update(info);
    ctx.Update([c]);
    r := ctx.Final();
  }

  /** What has been written after i blocks. */
  function Written(a: Algorithm, prk: seq<Byte>, info: seq<Byte>, i: nat, byCounter: bool, olen: nat): (r: seq<Byte>)
    requires Known(a)
    ensures |r| == Min(olen, Size(a) * i)
  {
    Blocks(a, prk, info, i, byCounter)[..Min(olen, Size(a) * i)]
  }

  lemma WrittenNext(a: Algorithm, prk: seq<Byte>, info: seq<Byte>, i: nat, byCounter: bool, olen: nat)
    requires Known(a) && Size(a) * i < olen
    ensures Written(a, prk, info, i + 1, byCounter, olen)
      == Written(a, prk, info, i, byCounter, olen) + BlockAt(a, prk, info, i + 1, byCounter)[..Min(olen - Size(a) * i, Size(a))]
  {
    hide BlockAt;
    assert Size(a) * (i + 1) == Size(a) * i + Size(a);
  }

  lemma {:induction false} BlocksPrefix(a: Algorithm, prk: seq<Byte>, info: seq<Byte>, i: nat, j: nat, byCounter: bool)
    requires Known(a) && i <= j
    ensures Size(a) * i <= Size(a) * j
    ensures Blocks(a, prk, info, j, byCounter)[..Size(a) * i] == Blocks(a, prk, info, i, byCounter)
    decreases j
  {
    hide BlockAt;
    if i < j {
      BlocksPrefix(a, prk, info, i, j - 1, byCounter);
    }
  }

  /** Once the blocks suffice, what is written no longer depends on their number. */
  lemma WrittenEnough(a: Algorithm, prk: seq<Byte>, info: seq<Byte>, i: nat, byCounter: bool, olen: nat)
    requires Known(a) && Size(a) * i >= olen
    ensures Written(a, prk, info, i, byCounter, olen) == Okm(a, prk, info, olen, byCounter)
  {
    hide BlockAt, Blocks;
    Enough(a, olen);
    var j := if i < olen then olen else i;
    BlocksPrefix(a, prk, info, i, j, byCounter);
    BlocksPrefix(a, prk, info, olen, j, byCounter);
    var b := Blocks(a, prk, info, j, byCounter);
    assert b[..Size(a) * i][..olen] == b[..olen] == b[..Size(a) * olen][..olen];
  }

  /** hkdf_sha256_expand: until the output is full. */
  method ExpandByOffset(a: Algorithm, prk: seq<Byte>, info: seq<Byte>, olen: nat) returns (okm: seq<Byte>)
    requires Known(a)
    ensures okm == Okm(a, prk, info, olen, true)
  {
    hide BlockAt, Written, Okm, Hmac, Size, Known;
    okm := [];
    var t: seq<Byte> := [];
    var c := 1;
    ghost var i: nat := 0;
    Enough(a, 1);
    while |okm| < olen
      invariant c == (i + 1) % 256 && (i > 0 ==> t == BlockAt(a, prk, info, i, true))
      invariant okm == Written(a, prk, info, i, true, olen)
      decreases olen - |okm|
    {
      BlockOf(a, prk, info, i + 1, true);
      t := NextBlock(a, prk, info, t, c > 1, c);
      WrittenNext(a, prk, info, i, true, olen);
      var n := Min(olen - |okm|, Size(a));
      assert |okm| == Size(a) * i;
      okm := okm + t[..n];
      CounterWraps(i);
      i, c := i + 1, (c + 1) % 256;
    }
    WrittenEnough(a, prk, info, i, true, olen);
  }

  lemma CounterWraps(i: nat)
    ensures ((i + 1) % 256 + 1) % 256 == (i + 2) % 256
  {}

  lemma BlockOf(a: Algorithm, prk: seq<Byte>, info: seq<Byte>, i: nat, byCounter: bool)
    requires Known(a) && i > 0
    ensures var earlier := if byCounter then i % 256 > 1 else i > 1;
      BlockAt(a, prk, info, i, byCounter)
      == Hmac(a, prk, (if earlier then BlockAt(a, prk, info, i - 1, byCounter) else []) + info + [i % 256])
  {
    hide Hmac;
  }

  /** hkdf_sha384_expand: a number of blocks fixed beforehand. */
  method ExpandByCount(a: Algorithm, prk: seq<Byte>, info: seq<Byte>, okm_len: nat) returns (okm: seq<Byte>)
    requires Known(a)
    ensures okm == Okm(a, prk, info, okm_len, false)
  {
    hide BlockAt, Written, Okm, Hmac, Size, Known;
    Enough(a, 1);
    var n := (okm_len + Size(a) - 1) / Size(a);
    CountIs(a, okm_len, n);
    okm := [];
    var t: seq<Byte> := [];
    var c, left, i := 1, okm_len, 0;
    while i < n
      invariant 0 <= i <= n && c == (i + 1) % 256 && (i > 0 ==> t == BlockAt(a, prk, info, i, false))
      invariant okm == Written(a, prk, info, i, false, okm_len) && left == okm_len - |okm|
    {
      BlockOf(a, prk, info, i + 1, false);
      t := NextBlock(a, prk, info, t, i > 0, c);
      StillShort(a, okm_len, n, i);
      WrittenNext(a, prk, info, i, false, okm_len);
      var take := if left < Size(a) then left else Size(a);
      okm, left := okm + t[..take], left - take;
      CounterWraps(i);
      i, c := i + 1, (c + 1) % 256;
    }
    WrittenEnough(a, prk, info, i, false, okm_len);
  }

  lemma CountIs(a: Algorithm, len: nat, n: nat)
    requires Known(a) && Size(a) > 0 && n == (len + Size(a) - 1) / Size(a)
    ensures Size(a) * n >= len && Size(a) * n < len + Size(a)
  {}

  lemma StillShort(a: Algorithm, len: nat, n: nat, i: nat)
    requires Known(a) && Size(a) * n < len + Size(a) && i < n
    ensures Size(a) * i < len
  {}

  // ----- what the standard promises -----------------------------------------------------------------------

  lemma {:induction false} BlockIsT(a: Algorithm, prk: seq<Byte>, info: seq<Byte>, i: nat, byCounter: bool)
    requires Known(a) && 0 < i <= 255
    ensures BlockAt(a, prk, info, i, byCounter) == T(a, prk, info, i)
  {
    hide Hmac;
    if i > 1 {
      BlockIsT(a, prk, info, i - 1, byCounter);
    }
  }

  /** T(1) | T(2) | ... | T(n) */
  function Ts(a: Algorithm, prk: seq<Byte>, info: seq<Byte>, n: nat): seq<Byte>
    requires Known(a) && n <= 255
  {
    if n == 0 then [] else Ts(a, prk, info, n - 1) + T(a, prk, info, n)
  }

  lemma {:induction false} BlocksAreTs(a: Algorithm, prk: seq<Byte>, info: seq<Byte>, n: nat, byCounter: bool)
    requires Known(a) && n <= 255
    ensures Blocks(a, prk, info, n, byCounter) == Ts(a, prk, info, n)
  {
    hide BlockAt, T;
    if n > 0 {
      BlocksAreTs(a, prk, info, n - 1, byCounter);
      BlockIsT(a, prk, info, n, byCounter);
    }
  }

  /** Up to 255 blocks both loops compute the output of the standard. */
  lemma OkmIsStandard(a: Algorithm, prk: seq<Byte>, info: seq<Byte>, len: nat, n: nat, byCounter: bool)
    requires Known(a) && n <= 255 && len <= Size(a) * n
    ensures len <= |Ts(a, prk, info, n)| && Okm(a, prk, info, len, byCounter) == Ts(a, prk, info, n)[..len]
  {
    hide Blocks, Ts, Okm;
    BlocksAreTs(a, prk, info, n, byCounter);
    WrittenEnough(a, prk, info, n, byCounter, len);
  }

  /** A shorter output is the beginning of a longer one. */
  lemma OkmPrefix(a: Algorithm, prk: seq<Byte>, info: seq<Byte>, m: nat, n: nat, byCounter: bool)
    requires Known(a) && m <= n
    ensures Okm(a, prk, info, n, byCounter)[..m] == Okm(a, prk, info, m, byCounter)
  {
    hide Blocks, Okm;
    Enough(a, n);
    WrittenEnough(a, prk, info, n, byCounter, m);
    WrittenEnough(a, prk, info, n, byCounter, n);
  }

  /** Beyond 255 blocks the SHA-256 loop starts again from the first. */
  lemma {:induction false} BlocksRepeat(a: Algorithm, prk: seq<Byte>, info: seq<Byte>, i: nat)
    requires Known(a) && i > 0
    ensures BlockAt(a, prk, info, i + 256, true) == BlockAt(a, prk, info, i, true)
  {
    hide Hmac;
    if i % 256 > 1 {
      BlocksRepeat(a, prk, info, i - 1);
    }
  }
}
