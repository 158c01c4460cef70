/** Counter mode on AES blocks (aes.c; section 6.5 of NIST SP 800-38D): the loop that
    carries from byte to byte, and the eight-way interleaved one. */
module Ctr {
  import opened Gf128
  import Bits

  type Block = b: seq<Word> | |b| == 16 && AreBytes(b) witness ZeroBytes(16)

  /** One round of the cipher with its round key. */
  type Round = Block -> Block

  function Encipher(rounds: seq<Round>, b: Block): Block {
    if |rounds| == 0 then b else rounds[|rounds| - 1](Encipher(rounds[..|rounds| - 1], b))
  }

  // ----- counters ------------------------------------------------------------------------------

  /** The next word, modulo 2^n. */
  function Inc(w: Word): (r: Word)
    ensures |r| == |w|
  {
    if |w| == 0 then []
    else if w[|w| - 1] then Inc(w[..|w| - 1]) + [false] else w[..|w| - 1] + [true]
  }

  function Number(w: Word): nat {
    if |w| == 0 then 0 else 2 * Number(w[..|w| - 1]) + if w[|w| - 1] then 1 else 0
  }

  function Power(n: nat): (p: nat)
    ensures p > 0
  {
    if n == 0 then 1 else 2 * Power(n - 1)
  }

  lemma {:induction false} IncNumber(w: Word)
    ensures Number(w) < Power(|w|)
    ensures Number(Inc(w)) == if Number(w) + 1 == Power(|w|) then 0 else Number(w) + 1
  {
    if |w| > 0 {
      var v := w[..|w| - 1];
      IncNumber(v);
      assert Inc(w)[..|w| - 1] == if w[|w| - 1] then Inc(v) else v;
    }
  }

  /** A carry leaves the lower part exactly when that part wraps to zero. */
  lemma {:induction false} IncJoin(a: Word, b: Word)
    ensures Inc(a + b) == (if Inc(b) == Zero(|b|) then Inc(a) else a) + Inc(b)
  {
    if |b| == 0 {
      assert a + b == a;
    } else {
      var c, x := b[..|b| - 1], [b[|b| - 1]];
      assert (a + b)[..|a + b| - 1] == a + c;
      IncJoin(a, c);
      if x[0] {
        assert Inc(b) == Zero(|b|) <==> Inc(c) == Zero(|c|) by {
          assert Inc(b)[..|c|] == Inc(c) && Zero(|b|)[..|c|] == Zero(|c|);
          assert Zero(|b|) == Zero(|c|) + [false];
        }
      } else {
        assert Inc(b)[|c|];
      }
    }
  }

  /** A bit string as bytes. */
  function Cut(w: Word): (s: seq<Word>)
    requires |w| % 8 == 0
    ensures AreBytes(s) && 8 * |s| == |w|
  {
    if |w| == 0 then [] else [w[..8]] + Cut(w[8..])
  }

  lemma {:induction false} FlattenCut(w: Word)
    requires |w| % 8 == 0
    ensures Flatten(Cut(w)) == w
  {
    if |w| > 0 {
      FlattenCut(w[8..]);
      assert Cut(w)[1..] == Cut(w[8..]);
    }
  }

  lemma {:induction false} CutFlatten(s: seq<Word>)
    requires AreBytes(s)
    ensures Cut(Flatten(s)) == s
  {
    if |s| > 0 {
      CutFlatten(s[1..]);
      assert Flatten(s)[..8] == s[0] && Flatten(s)[8..] == Flatten(s[1..]);
    }
  }

  /** inc32: the last four bytes count, the others stay. */
  function Next(b: Block): Block {
    b[..12] + Cut(Inc(Flatten(b[12..])))
  }

  /** The counter block k blocks on. */
  function After(b: Block, k: nat): Block {
    if k == 0 then b else Next(After(b, k - 1))
  }

  /** The increment that adds one to a byte and goes on while it wraps. */
  method IncBytes(ctr: array<Word>)
    requires ctr.Length == 16 && AreBytes(ctr[..])
    modifies ctr
    ensures AreBytes(ctr[..]) && ctr[..] == Next(old(ctr[..]))
  {
    hide Inc, Flatten;
    ghost var was := ctr[..];
    var i := 15;
    Suffix(was, ctr[..], 15);
    while i >= 12
      invariant 11 <= i <= 15 && AreBytes(ctr[..]) && ctr[..i + 1] == was[..i + 1]
      invariant Inc(Flatten(was[12..])) == Inc(Flatten(was[12..i + 1])) + Flatten(ctr[i + 1..])
    {
      ghost var higher := ctr[i + 1..];
      ctr[i] := Inc(ctr[i]);
      assert ctr[i + 1..] == higher && ctr[..i] == was[..i];
      Carry(was, ctr[..], i);
      if ctr[i] != Zero(8) {
        break;
      }
      i := i - 1;
    }
    Finished(was, ctr[..], i);
  }

  lemma Suffix(was: seq<Word>, s: seq<Word>, i: nat)
    requires AreBytes(was) && |was| == 16 && s == was && i == 15
    ensures Flatten(s[i + 1..]) == [] && was[12..i + 1] == was[12..] && s[..i + 1] == was[..i + 1]
  {}

  /** Adding one at byte i. */
  lemma Carry(was: seq<Word>, s: seq<Word>, i: nat)
    requires AreBytes(was) && AreBytes(s) && |was| == |s| == 16 && 12 <= i <= 15 && s[i] == Inc(was[i])
    ensures Inc(Flatten(was[12..i + 1])) + Flatten(s[i + 1..])
      == (if s[i] == Zero(8) then Inc(Flatten(was[12..i])) else Flatten(was[12..i])) + Flatten(s[i..])
  {
    hide Inc, Flatten;
    FlattenLast(was[12..i + 1]);
    assert was[12..i + 1][..i - 12] == was[12..i];
    IncJoin(Flatten(was[12..i]), was[i]);
    FlattenFirst(s[i..]);
    assert s[i..][1..] == s[i + 1..];
  }

  lemma FlattenLast(s: seq<Word>)
    requires AreBytes(s) && |s| > 0
    ensures Flatten(s) == Flatten(s[..|s| - 1]) + s[|s| - 1]
  {
    var x := s[|s| - 1];
    FlattenAppend(s[..|s| - 1], [x]);
    assert s == s[..|s| - 1] + [x] && [x][1..] == [];
    assert Flatten([x]) == x;
  }

  lemma FlattenFirst(s: seq<Word>)
    requires AreBytes(s) && |s| > 0
    ensures Flatten(s) == s[0] + Flatten(s[1..])
  {}

  /** The loop ends by a byte that did not wrap, or after four that did. */
  lemma Finished(was: seq<Word>, s: seq<Word>, i: int)
    requires AreBytes(was) && AreBytes(s) && |was| == |s| == 16 && 11 <= i <= 15
    requires i >= 12 ==> s[..i] == was[..i] && Inc(Flatten(was[12..])) == Flatten(was[12..i]) + Flatten(s[i..])
    requires i == 11 ==>
      s[..12] == was[..12] && Inc(Flatten(was[12..])) == Inc(Flatten(was[12..12])) + Flatten(s[12..])
    ensures s == Next(was)
  {
    hide Inc, Flatten;
    if i >= 12 {
      FlattenAppend(s[12..i], s[i..]);
      assert s[12..i] + s[i..] == s[12..] && s[12..i] == s[..i][12..] == was[12..i];
      assert s[..12] == s[..i][..12] == was[..12];
    } else {
      IncNothing();
      assert was[12..12] == [] && [] + Flatten(s[12..]) == Flatten(s[12..]);
    }
    CutFlatten(s[12..]);
    assert s == s[..12] + s[12..];
  }

  lemma IncNothing()
    ensures Inc([]) == [] && Flatten([]) == []
  {}

  // ----- counter mode ----------------------------------------------------------------------------

  /** Bytewise addition of two strings of the same length. */
  function XorBytes(s: seq<Word>, t: seq<Word>): (r: seq<Word>)
    requires |s| == |t| && AreBytes(s) && AreBytes(t)
    ensures |r| == |s| && AreBytes(r)
    ensures forall i :: 0 <= i < |s| ==> |s[i]| == |t[i]| && r[i] == Xor(s[i], t[i])
  {
    seq(|s|, i requires 0 <= i < |s| => Xor(s[i], t[i]))
  }

  /** One block of the key stream after another. */
  function Stream(rounds: seq<Round>, ctr: Block, data: seq<Word>): (r: seq<Word>)
    requires AreBytes(data)
    ensures |r| == |data| && AreBytes(r)
    decreases |data|
  {
    if |data| == 0 then []
    else
      var n := Bits.Min(16, |data|);
      XorBytes(data[..n], Encipher(rounds, ctr)[..n]) + Stream(rounds, Next(ctr), data[n..])
  }

  /** Decryption is the same operation. */
  lemma {:induction false} StreamTwice(rounds: seq<Round>, ctr: Block, data: seq<Word>)
    requires AreBytes(data)
    ensures Stream(rounds, ctr, Stream(rounds, ctr, data)) == data
    decreases |data|
  {
    hide Next, Encipher;
    if |data| > 0 {
      var n := Bits.Min(16, |data|);
      var k := Encipher(rounds, ctr)[..n];
      var s := Stream(rounds, ctr, data);
      assert s[..n] == XorBytes(data[..n], k) && s[n..] == Stream(rounds, Next(ctr), data[n..]);
      StreamTwice(rounds, Next(ctr), data[n..]);
      forall i | 0 <= i < n ensures XorBytes(s[..n], k)[i] == data[i] {
        XorAssoc(data[i], k[i], k[i]);
        XorLaws(data[i], k[i]);
        assert Xor(k[i], k[i]) == Zero(8);
      }
      assert XorBytes(s[..n], k) == data[..n];
      assert data == data[..n] + data[n..];
    }
  }

  /** The plain loop: one block, then the counter. */
  method CtrXor(rounds: seq<Round>, ctr: array<Word>, input: seq<Word>, out: array<Word>)
    requires ctr.Length == 16 && AreBytes(ctr[..]) && AreBytes(input) && out.Length == |input| && ctr != out
    modifies ctr, out
    ensures out[..] == Stream(rounds, old(ctr[..]), input)
    ensures AreBytes(ctr[..]) && ctr[..] == After(old(ctr[..]), (|input| + 15) / 16)
  {
    hide Next, Encipher, Stream, XorBytes;
    ghost var first: Block := ctr[..];
    var i := 0;
    StreamStart(rounds, first, input, out[..]);
    while i < |input|
      invariant 0 <= i <= |input| && AreBytes(ctr[..])
      invariant Progress(rounds, first, input, i, ctr[..], out[..])
    {
      var mask := Encipher(rounds, ctr[..]);
      var n := Bits.Min(16, |input| - i);
      ghost var was := out[..];
      XorInto(input, mask, i, n, out);
      BlockDone(rounds, first, input, i, ctr[..], was, out[..]);
      IncBytes(ctr);
      i := i + n;
    }
    StreamEnd(rounds, first, input, ctr[..], out[..]);
  }

  /** The first i bytes are written, and the rest will be continued from counter c. */
  ghost predicate Progress(rounds: seq<Round>, first: Block, input: seq<Word>, i: nat, c: Block, out: seq<Word>)
    requires AreBytes(input)
  {
    && i <= |input| == |out| && (i % 16 == 0 || i == |input|) && c == After(first, (i + 15) / 16)
    && Stream(rounds, first, input) == out[..i] + Stream(rounds, c, input[i..])
  }

  lemma StreamStart(rounds: seq<Round>, first: Block, input: seq<Word>, out: seq<Word>)
    requires AreBytes(input) && |out| == |input|
    ensures Progress(rounds, first, input, 0, first, out)
  {
    hide Stream;
    assert input[0..] == input && out[..0] == [];
  }

  lemma StreamEnd(rounds: seq<Round>, first: Block, input: seq<Word>, c: Block, out: seq<Word>)
    requires AreBytes(input) && Progress(rounds, first, input, |input|, c, out)
    ensures out == Stream(rounds, first, input) && c == After(first, (|input| + 15) / 16)
  {
    hide Stream;
    assert input[|input|..] == [] && out[..|input|] == out;
  }

  /** One block, of whatever length remains, is masked with the enciphered counter. */
  ghost predicate Masked(input: seq<Word>, mask: Block, i: nat, n: nat, was: seq<Word>, out: seq<Word>)
    requires AreBytes(input) && i + n <= |input| && n <= 16
  {
    && |out| == |was| == |input|
    && out[..i] == was[..i] && out[i..i + n] == XorBytes(input[i..i + n], mask[..n])
  }

  lemma BlockDone(rounds: seq<Round>, first: Block, input: seq<Word>, i: nat, c: Block, was: seq<Word>, out: seq<Word>)
    requires AreBytes(input) && i < |input| && Progress(rounds, first, input, i, c, was)
    requires Masked(input, Encipher(rounds, c), i, Bits.Min(16, |input| - i), was, out)
    ensures Progress(rounds, first, input, i + Bits.Min(16, |input| - i), Next(c), out)
  {
    hide Next, Encipher, Stream, XorBytes;
    var n := Bits.Min(16, |input| - i);
    StreamBlock(rounds, c, input[i..]);
    assert input[i..][..n] == input[i..i + n] && input[i..][n..] == input[i + n..];
    assert out[..i + n] == out[..i] + out[i..i + n];
    BlockCount(i, |input|);
  }

  lemma BlockCount(i: nat, len: nat)
    requires i < len && (i % 16 == 0 || i == len)
    ensures (i + Bits.Min(16, len - i) + 15) / 16 == (i + 15) / 16 + 1
    ensures (i + Bits.Min(16, len - i)) % 16 == 0 || i + Bits.Min(16, len - i) == len
  {}

  lemma StreamBlock(rounds: seq<Round>, c: Block, data: seq<Word>)
    requires AreBytes(data) && |data| > 0
    ensures var n := Bits.Min(16, |data|);
      Stream(rounds, c, data) == XorBytes(data[..n], Encipher(rounds, c)[..n]) + Stream(rounds, Next(c), data[n..])
  {
    hide Next, Encipher, XorBytes;
  }

  method XorInto(input: seq<Word>, mask: Block, i: nat, n: nat, out: array<Word>)
    requires AreBytes(input) && i + n <= |input| == out.Length && n <= 16
    modifies out
    ensures Masked(input, mask, i, n, old(out[..]), out[..])
    ensures forall k :: 0 <= k < out.Length && !(i <= k < i + n) ==> out[k] == old(out[k])
  {
    var j := 0;
    while j < n
      invariant 0 <= j <= n
      invariant forall k :: 0 <= k < out.Length && !(i <= k < i + j) ==> out[k] == old(out[k])
      invariant forall k :: 0 <= k < j ==> |input[i + k]| == |mask[k]| && out[i + k] == Xor(input[i + k], mask[k])
    {
      out[i + j] := Xor(input[i + j], mask[j]);
      j := j + 1;
    }
  }

  // ----- eight blocks at a time ------------------------------------------------------------------

  /** Bytes 12 to 15 of the block hold the counter, most significant byte first. */
  function WithCounter(b: Block, c: Word): (r: Block)
    requires |c| == 32
  {
    b[..12] + Cut(c)
  }

  lemma CounterAfter(b: Block, c: Word)
    requires |c| == 32
    ensures Next(WithCounter(b, c)) == WithCounter(b, Inc(c))
  {
    hide Inc;
    FlattenCut(c);
    assert WithCounter(b, c)[12..] == Cut(c);
  }

  lemma CounterOf(b: Block)
    ensures WithCounter(b, Flatten(b[12..])) == b
  {
    CutFlatten(b[12..]);
  }

  /** The word j steps on. */
  function IncBy(c: Word, j: nat): (r: Word)
    ensures |r| == |c|
  {
    if j == 0 then c else Inc(IncBy(c, j - 1))
  }

  /** The counter block j steps on. */
  function At(b: Block, c: Word, j: nat): Block
    requires |c| == 32
  {
    WithCounter(b, IncBy(c, j))
  }

  lemma EncipherStep(rounds: seq<Round>, b: Block, r: nat)
    requires r < |rounds|
    ensures Encipher(rounds[..r + 1], b) == rounds[r](Encipher(rounds[..r], b))
    ensures Encipher(rounds[..0], b) == b && rounds[..|rounds|] == rounds
  {
    assert rounds[..r + 1][..r] == rounds[..r];
  }

  /** Each register has gone through r rounds, those before j through one more. */
  ghost predicate Lanes(rounds: seq<Round>, b: Block, c: Word, r: nat, j: nat, regs: seq<Block>)
    requires |c| == 32
  {
    && r + 1 <= |rounds| && j <= |regs| == 8
    && forall l :: 0 <= l < 8 ==> regs[l] == Encipher(rounds[..if l < j then r + 1 else r], At(b, c, l))
  }

  lemma LaneStep(rounds: seq<Round>, b: Block, c: Word, r: nat, j: nat, regs: seq<Block>)
    requires |c| == 32 && j < 8 && Lanes(rounds, b, c, r, j, regs)
    ensures Lanes(rounds, b, c, r, j + 1, regs[j := rounds[r](regs[j])])
  {
    hide Encipher, At;
    EncipherStep(rounds, At(b, c, j), r);
  }

  /** Eight counter blocks, each with the first round key added. */
  method LoadCounters(rounds: seq<Round>, b: Block, c_: Word) returns (regs: seq<Block>, c: Word)
    requires |c_| == 32 && |rounds| > 0
    ensures Lanes(rounds, b, c_, 0, 8, regs) && c == IncBy(c_, 8)
  {
    hide Encipher, WithCounter, Inc;
    c := c_;
    regs := [];
    var j := 0;
    while j < 8
      invariant 0 <= j <= 8 && |regs| == j && |c| == 32 && c == IncBy(c_, j)
      invariant forall l :: 0 <= l < j ==> regs[l] == Encipher(rounds[..1], At(b, c_, l))
    {
      EncipherStep(rounds, At(b, c_, j), 0);
      regs := regs + [rounds[0](WithCounter(b, c))];
      c := Inc(c);
      j := j + 1;
    }
  }

  /** The middle rounds, interleaved over the registers. */
  method MiddleRounds(rounds: seq<Round>, ghost b: Block, ghost c: Word, regs_: seq<Block>) returns (regs: seq<Block>)
    requires |c| == 32 && |rounds| >= 2 && Lanes(rounds, b, c, 0, 8, regs_)
    ensures Lanes(rounds, b, c, |rounds| - 1, 0, regs)
  {
    hide Encipher, At;
    regs := regs_;
    var r := 1;
    while r < |rounds| - 1
      invariant 1 <= r <= |rounds| - 1
      invariant Lanes(rounds, b, c, r, 0, regs)
    {
      var j := 0;
      while j < 8
        invariant 0 <= j <= 8
        invariant Lanes(rounds, b, c, r, j, regs)
      {
        LaneStep(rounds, b, c, r, j, regs);
        regs := regs[j := rounds[r](regs[j])];
        j := j + 1;
      }
      r := r + 1;
    }
  }

  /** The last round and the output of each register. */
  method StoreBlocks(rounds: seq<Round>, ghost first: Block, ghost c: Word, regs_: seq<Block>, input: seq<Word>,
                     i: nat, out: array<Word>)
    requires |c| == 32 && |rounds| >= 2 && Lanes(rounds, first, c, |rounds| - 1, 0, regs_)
    requires AreBytes(input) && i + 128 <= |input| == out.Length
    requires Progress(rounds, first, input, i, At(first, c, 0), out[..])
    modifies out
    ensures Progress(rounds, first, input, i + 128, At(first, c, 8), out[..])
  {
    hide Encipher, Progress, WithCounter, Inc, Next, Masked;
    var regs: seq<Block> := regs_;
    var j := 0;
    while j < 8
      invariant 0 <= j <= 8
      invariant Lanes(rounds, first, c, |rounds| - 1, j, regs)
      invariant Progress(rounds, first, input, i + 16 * j, At(first, c, j), out[..])
    {
      LaneStep(rounds, first, c, |rounds| - 1, j, regs);
      EncipherStep(rounds, first, |rounds| - 1);
      regs := regs[j := rounds[|rounds| - 1](regs[j])];
      ghost var was := out[..];
      XorInto(input, regs[j], i + 16 * j, 16, out);
      BlockDone(rounds, first, input, i + 16 * j, At(first, c, j), was, out[..]);
      CounterAfter(first, IncBy(c, j));
      j := j + 1;
    }
  }

  /** aesni_ctr_xor: the same stream, and the counter left behind the data. */
  method EightWay(rounds: seq<Round>, ctr: array<Word>, input: seq<Word>, out: array<Word>)
    requires |rounds| >= 2
    requires ctr.Length == 16 && AreBytes(ctr[..]) && AreBytes(input) && out.Length == |input| && ctr != out
    modifies ctr, out
    ensures out[..] == Stream(rounds, old(ctr[..]), input)
    ensures AreBytes(ctr[..]) && ctr[..] == After(old(ctr[..]), (|input| + 15) / 16)
  {
    hide Encipher, Stream, Progress, WithCounter, Inc, Next, Masked, Lanes, Flatten;
    var cb: Block := ctr[..];
    var c := Flatten(cb[12..]);
    CounterOf(cb);
    StreamStart(rounds, cb, input, out[..]);
    var i := 0;
    while i + 128 <= |input|
      invariant 0 <= i <= |input| && |c| == 32
      invariant Progress(rounds, cb, input, i, WithCounter(cb, c), out[..])
    {
      ghost var c0 := c;
      var regs: seq<Block>;
      regs, c := LoadCounters(rounds, cb, c);
      regs := MiddleRounds(rounds, cb, c0, regs);
      StoreBlocks(rounds, cb, c0, regs, input, i, out);
      i := i + 128;
    }
    while i < |input|
      invariant 0 <= i <= |input| && |c| == 32
      invariant Progress(rounds, cb, input, i, WithCounter(cb, c), out[..])
    {
      var mask := Encipher(rounds, WithCounter(cb, c));
      var n := Bits.Min(16, |input| - i);
      ghost var was := out[..];
      XorInto(input, mask, i, n, out);
      BlockDone(rounds, cb, input, i, WithCounter(cb, c), was, out[..]);
      CounterAfter(cb, c);
      c := Inc(c);
      i := i + n;
    }
    StreamEnd(rounds, cb, input, WithCounter(cb, c), out[..]);
    ghost var done := out[..];
    var last := WithCounter(cb, c);
    var k := 0;
    while k < 16
      invariant 0 <= k <= 16 && out[..] == done && ctr[..k] == last[..k]
    {
      ctr[k] := last[k];
      k := k + 1;
    }
  }
}
