/** The sponge of keccak.c, fed and read in pieces, against the padded message taken block
    by block (section 4 of FIPS 202). The permutation is arbitrary. */
module Sponge {
  import opened Bits
  import opened Verify
  import opened Chunks

  /** The 25 words of the state, seen as bytes. */
  type Lanes = s: seq<Byte> | |s| == 200 witness seq(200, i => 0)
  type Permutation = Lanes -> Lanes

  function Empty(): Lanes {
    seq(200, i => 0)
  }

  /** The first bytes of the state with a string added. */
  function Mixed(s: Lanes, x: seq<Byte>): (t: Lanes)
    ensures forall i :: 0 <= i < 200 ==> t[i] == if i < |x| then XorByte(s[i], x[i]) else s[i]
  {
    seq(200, i requires 0 <= i < 200 => if i < |x| then XorByte(s[i], x[i]) else s[i])
  }

  /** A block is added, then the state permuted. */
  function Step(f: Permutation): (Lanes, seq<Byte>) -> Lanes {
    (s, block) => f(Mixed(s, block))
  }

  // ----- the standard's definition ---------------------------------------------------------------

  /** The end of the last block: the domain suffix first, the last bit of the padding in
      the last byte, which may be the same one. */
  function Ending(p: nat, pad: Byte): (e: seq<Byte>)
    requires p > 0
    ensures |e| == p
  {
    if p == 1 then [XorByte(pad, 0x80)] else [pad] + seq(p - 2, i => 0) + [0x80]
  }

  function Padded(m: seq<Byte>, rate: nat, pad: Byte): (p: seq<Byte>)
    requires rate > 0
  {
    m + Ending(rate - |m| % rate, pad)
  }

  /** The state after the padded message. */
  function Absorbed(f: Permutation, rate: nat, m: seq<Byte>, pad: Byte): Lanes
    requires rate > 0
  {
    Fold(Step(f), rate, Empty(), Padded(m, rate, pad))
  }

  function Turned(f: Permutation, s: Lanes, n: nat): Lanes {
    if n == 0 then s else f(Turned(f, s, n - 1))
  }

  /** Bytes from..from + n of the output: rate bytes of each state in turn. */
  function Output(f: Permutation, rate: nat, s: Lanes, from: nat, n: nat): (out: seq<Byte>)
    requires 0 < rate <= 200
    ensures |out| == n && forall i :: 0 <= i < n ==> out[i] == OutputByte(f, rate, s, from + i)
  {
    seq<Byte>(n, i requires 0 <= i < n => OutputByte(f, rate, s, from + i))
  }

  function OutputByte(f: Permutation, rate: nat, s: Lanes, k: nat): Byte
    requires 0 < rate <= 200
  {
    OutputIndex(rate, k);
    Turned(f, s, k / rate)[k % rate]
  }

  lemma OutputIndex(rate: nat, k: nat)
    requires 0 < rate <= 200
    ensures 0 <= k / rate && k % rate < 200
  {}

  /** Reading on is reading more at once. */
  lemma OutputJoin(f: Permutation, rate: nat, s: Lanes, from: nat, m: nat, n: nat)
    requires 0 < rate <= 200
    ensures Output(f, rate, s, from, m) + Output(f, rate, s, from + m, n) == Output(f, rate, s, from, m + n)
  {
    hide OutputByte;
  }

  // ----- the state ---------------------------------------------------------------------------------

  class State {
    const f: Permutation
    const rate: nat
    var ctx: array<Byte>
    var pos: nat
    ghost var fed: seq<Byte>
    ghost var turns: nat

    ghost predicate Valid()
      reads this, ctx
    {
      0 < rate <= 200 && ctx.Length == 200 && pos <= rate
    }

    /** All of fed has been absorbed, the last pos bytes of it without a permutation yet. */
    ghost predicate Absorbing()
      reads this, ctx
    {
      && Valid() && pos == |fed| % rate
      && ctx[..] == Mixed(Fold(Step(f), rate, Empty(), fed), Rest(rate, fed))
    }

    /** The state s has been permuted turns times, and pos bytes of it have been read. */
    ghost predicate Squeezing(s: Lanes)
      reads this, ctx
    {
      Valid() && ctx[..] == Turned(f, s, turns)
    }

    /** ks_init */
    constructor (permutation: Permutation, r: nat)
      requires 0 < r <= 200
      ensures Absorbing() && fed == [] && fresh(ctx) && f == permutation && rate == r
    {
      f, rate, pos, fed, turns := permutation, r, 0, [], 0;
      ctx := new Byte[200](i => 0);
      new;
      StartsEmpty(f, rate);
      assert ctx[..] == Empty();
    }

    method Permute()
      requires Valid()
      modifies ctx
      ensures ctx[..] == f(old(ctx[..]))
    {
      var t := f(ctx[..]);
      var i := 0;
      while i < 200
        invariant 0 <= i <= 200
        invariant ctx[..i] == t[..i]
      {
        ctx[i] := t[i];
        i := i + 1;
      }
    }

    /** ks_absorb: any split of the input into calls absorbs the same. */
    method Absorb(input: seq<Byte>)
      requires Absorbing()
      modifies this`pos, this`fed, ctx
      ensures Absorbing() && fed == old(fed) + input
    {
      hide Fold, Step, Rest, Mixed;
      var i := 0;
      while i < |input|
        invariant 0 <= i <= |input|
        invariant Absorbing() && fed == old(fed) + input[..i]
      {
        ghost var was, p := ctx[..], pos;
        AddByte(f, rate, fed, input[i]);
        ctx[pos] := XorByte(ctx[pos], input[i]);
        pos := pos + 1;
        assert ctx[..] == was[p := XorByte(was[p], input[i])];
        if pos == rate {
          Permute();
          pos := 0;
        }
        fed := fed + [input[i]];
        i := i + 1;
        assert input[..i] == input[..i - 1] + [input[i - 1]];
      }
      assert input[..i] == input;
    }

    /** ks_finalize */
    method Finalize(pad: Byte)
      requires Absorbing()
      modifies this`pos, this`turns, ctx
      ensures Squeezing(Absorbed(f, rate, fed, pad)) && pos == 0 && turns == 0
    {
      hide Fold, Step, Rest, Mixed;
      ghost var was := ctx[..];
      LastBlock(f, rate, fed, pad);
      ctx[pos] := XorByte(ctx[pos], pad);
      ghost var mid := ctx[..];
      assert mid == was[pos := XorByte(was[pos], pad)];
      ctx[rate - 1] := XorByte(ctx[rate - 1], 0x80);
      assert ctx[..] == mid[rate - 1 := XorByte(mid[rate - 1], 0x80)];
      Permute();
      pos, turns := 0, 0;
    }

    /** ks_squeeze: the next n bytes, wherever the last call stopped. */
    method Squeeze(n: nat, ghost s: Lanes) returns (out: seq<Byte>)
      requires Squeezing(s)
      modifies this`pos, this`turns, ctx
      ensures Squeezing(s) && turns * rate + pos == old(turns * rate + pos) + n
      ensures out == Output(f, rate, s, old(turns * rate + pos), n)
    {
      hide Turned, OutputByte;
      ghost var from := turns * rate + pos;
      out := [];
      var i := 0;
      while i < n
        invariant 0 <= i <= n && Squeezing(s) && turns * rate + pos == from + i
        invariant out == Output(f, rate, s, from, i)
      {
        if pos == rate {
          Permute();
          TurnedNext(f, s, turns);
          assert (turns + 1) * rate == turns * rate + rate;
          pos, turns := 0, turns + 1;
        }
        ByteAt(f, rate, s, turns, pos);
        out := out + [ctx[pos]];
        pos := pos + 1;
        i := i + 1;
      }
    }

    /** ks_squeezeblocks: whole blocks, each followed by a permutation; pos plays no part. */
    method SqueezeBlocks(nblocks: nat, ghost s: Lanes) returns (out: seq<Byte>)
      requires Squeezing(s)
      modifies this`turns, ctx
      ensures Squeezing(s) && turns == old(turns) + nblocks
      ensures out == Output(f, rate, s, old(turns) * rate, nblocks * rate)
    {
      hide Turned, OutputByte, Output;
      ghost var first := turns;
      out := [];
      var b := 0;
      NoOutput(f, rate, s, first);
      while b < nblocks
        invariant 0 <= b <= nblocks && Squeezing(s) && turns == first + b
        invariant out == Output(f, rate, s, first * rate, b * rate)
      {
        WholeBlock(f, rate, s, first, b);
        out := out + ctx[..rate];
        Permute();
        TurnedNext(f, s, turns);
        turns := turns + 1;
        b := b + 1;
      }
    }
  }

  // ----- hash functions ------------------------------------------------------------------------------

  /** The n-byte digest of a message. */
  function Digest(f: Permutation, rate: nat, m: seq<Byte>, pad: Byte, n: nat): seq<Byte>
    requires 0 < rate <= 200
  {
    Output(f, rate, Absorbed(f, rate, m, pad), 0, n)
  }

  /** sha3_256 (136, 0x06, 32), sha3_512 (72, 0x06, 64) and shake256 (136, 0x1f, any n); the
      message in any number of pieces, as through the incremental interface. */
  method Hash(f: Permutation, rate: nat, pieces: seq<seq<Byte>>, pad: Byte, n: nat) returns (out: seq<Byte>)
    requires 0 < rate <= 200
    ensures out == Digest(f, rate, Join(pieces), pad, n)
  {
    hide Absorbed, Output, Join;
    var k := AbsorbPieces(f, rate, pieces);
    k.Finalize(pad);
    out := k.Squeeze(n, Absorbed(f, rate, k.fed, pad));
  }

  method AbsorbPieces(f: Permutation, rate: nat, pieces: seq<seq<Byte>>) returns (k: State)
    requires 0 < rate <= 200
    ensures fresh(k) && fresh(k.ctx) && k.f == f && k.rate == rate && k.Absorbing() && k.fed == Join(pieces)
  {
    k := new State(f, rate);
    var i := 0;
    JoinStart(pieces);
    while i < |pieces|
      invariant 0 <= i <= |pieces| && k.Absorbing() && fresh(k.ctx) && Join(pieces) == k.fed + Join(pieces[i..])
    {
      ghost var was := k.fed;
      k.Absorb(pieces[i]);
      JoinNext(pieces, i, was);
      i := i + 1;
    }
    JoinEnd(k.fed);
  }

  /** shake128_absorb, then blocks in two calls: the key stream of the matrix sampler. */
  method Shake128(f: Permutation, m: seq<Byte>, blocks: nat, more: nat) returns (first: seq<Byte>, next: seq<Byte>)
    ensures |first| == 168 * blocks && first + next == Digest(f, 168, m, 0x1f, 168 * (blocks + more))
  {
    hide Absorbed, Output, Turned, Fold, Mixed, Join, Step;
    var k := AbsorbPieces(f, 168, [m]);
    JoinOne(m);
    k.Finalize(0x1f);
    ghost var s := Absorbed(f, 168, m, 0x1f);
    first := k.SqueezeBlocks(blocks, s);
    next := k.SqueezeBlocks(more, s);
    OutputJoin(f, 168, s, 0, 168 * blocks, 168 * more);
  }

  // ----- one step at a time --------------------------------------------------------------------------

  lemma StartsEmpty(f: Permutation, rate: nat)
    requires rate > 0
    ensures Mixed(Fold(Step(f), rate, Empty(), []), Rest(rate, [])) == Empty()
  {
    hide Mixed, Step, Rest;
    FoldBlock(Step(f), rate, Empty(), []);
    WholeAndRest(rate, []);
    assert Rest(rate, []) == [];
    MixedNothing(Empty());
  }

  lemma MixedByte(s: Lanes, x: seq<Byte>, b: Byte)
    requires |x| < 200
    ensures Mixed(s, x + [b]) == Mixed(s, x)[|x| := XorByte(Mixed(s, x)[|x|], b)]
  {
    hide XorByte;
  }

  lemma AddByte(f: Permutation, rate: nat, m: seq<Byte>, b: Byte)
    requires 0 < rate <= 200
    ensures var s := Mixed(Fold(Step(f), rate, Empty(), m), Rest(rate, m));
      var t: Lanes := s[|m| % rate := XorByte(s[|m| % rate], b)];
      var done := |m| % rate + 1 == rate;
      && |m + [b]| % rate == (if done then 0 else |m| % rate + 1)
      && Mixed(Fold(Step(f), rate, Empty(), m + [b]), Rest(rate, m + [b])) == if done then f(t) else t
  {
    hide Fold, Rest, Mixed;
    FoldMore(Step(f), rate, Empty(), m, [b]);
    RemainderAfter(|m|, 1, rate);
    MixedByte(Fold(Step(f), rate, Empty(), m), Rest(rate, m), b);
    if |m| % rate + 1 == rate {
      MixedNothing(Fold(Step(f), rate, Empty(), m + [b]));
    }
  }

  lemma MixedNothing(s: Lanes)
    ensures Mixed(s, []) == s
  {}

  /** Adding the suffix and the last bit to the state adds the end of the padded block. */
  lemma LastBlock(f: Permutation, rate: nat, m: seq<Byte>, pad: Byte)
    requires 0 < rate <= 200
    ensures var s := Mixed(Fold(Step(f), rate, Empty(), m), Rest(rate, m));
      var t: Lanes := s[|m| % rate := XorByte(s[|m| % rate], pad)];
      f(t[rate - 1 := XorByte(t[rate - 1], 0x80)]) == Absorbed(f, rate, m, pad)
  {
    hide Fold, Rest, Mixed, Ending;
    var e := Ending(rate - |m| % rate, pad);
    FoldMore(Step(f), rate, Empty(), m, e);
    MixedEnding(Fold(Step(f), rate, Empty(), m), Rest(rate, m), rate, pad);
  }

  lemma MixedEnding(s: Lanes, x: seq<Byte>, rate: nat, pad: Byte)
    requires |x| < rate <= 200
    ensures var u := Mixed(s, x);
      var t: Lanes := u[|x| := XorByte(u[|x|], pad)];
      t[rate - 1 := XorByte(t[rate - 1], 0x80)] == Mixed(s, x + Ending(rate - |x|, pad))
  {
    hide XorByte;
    var p := rate - |x|;
    if p == 1 {
      XorByteAssociative(s[|x|], pad, 0x80);
    } else {
      forall i | 0 <= i < 200 ensures XorByte(s[i], 0) == s[i] {
        XorByteZero(s[i]);
      }
    }
  }

  lemma XorByteAssociative(a: Byte, b: Byte, c: Byte)
    ensures XorByte(XorByte(a, b), c) == XorByte(a, XorByte(b, c))
  {
    XorAssociative(a, b, c);
  }

  lemma XorByteZero(a: Byte)
    ensures XorByte(a, 0) == a
  {}

  lemma TurnedNext(f: Permutation, s: Lanes, n: nat)
    ensures Turned(f, s, n + 1) == f(Turned(f, s, n))
  {}

  lemma ByteAt(f: Permutation, rate: nat, s: Lanes, j: nat, p: nat)
    requires p < rate <= 200
    ensures 0 <= j * rate && OutputByte(f, rate, s, j * rate + p) == Turned(f, s, j)[p]
  {
    QuotientUnique(j * rate + p, rate, j, p);
  }

  lemma NoOutput(f: Permutation, rate: nat, s: Lanes, first: nat)
    requires 0 < rate <= 200
    ensures 0 <= first * rate && Output(f, rate, s, first * rate, 0 * rate) == []
  {}

  lemma WholeBlock(f: Permutation, rate: nat, s: Lanes, first: nat, b: nat)
    requires 0 < rate <= 200
    ensures 0 <= first * rate && 0 <= b * rate && 0 <= (b + 1) * rate
    ensures Output(f, rate, s, first * rate, b * rate) + Turned(f, s, first + b)[..rate]
      == Output(f, rate, s, first * rate, (b + 1) * rate)
  {
    hide Turned, OutputByte;
    assert (b + 1) * rate == b * rate + rate && (first + b) * rate == first * rate + b * rate;
    var out, last := Output(f, rate, s, first * rate, (b + 1) * rate), Turned(f, s, first + b);
    forall k | b * rate <= k < (b + 1) * rate ensures out[k] == last[k - b * rate] {
      ByteAt(f, rate, s, first + b, k - b * rate);
    }
  }
}
