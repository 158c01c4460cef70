/** ChaCha20 of chacha20.c (section 2 of RFC 8439): the block function, four blocks at a
    time on vector lanes, and the key stream. */
module ChaCha {
  import opened Bits
  import opened LittleEndian
  import opened Verify
  import Int128

  const TWO32: int := 0x1_0000_0000

  /** The loops count in int and look 256 bytes ahead. */
  const INT_ROOM: int := 0x7fff_ff00

  type Uint32 = x: int | 0 <= x < 0x1_0000_0000
  type State = s: seq<Uint32> | |s| == 16 witness seq(16, i => 0)

  // ----- words ---------------------------------------------------------------------------------

  function Add32(a: Uint32, b: Uint32): Uint32 {
    (a + b) % TWO32
  }

  function Xor32(a: Uint32, b: Uint32): Uint32 {
    Int128.PowersOfWords();
    XorBound(a, b, 32);
    Xor(a, b)
  }

  /** x >> n, one bit at a time. */
  function Down(x: Uint32, n: nat): Uint32
    decreases n
  {
    if n == 0 then x else Down(x / 2, n - 1)
  }

  /** x << n in 32 bits. */
  function Up(x: Uint32, n: nat): Uint32
    decreases n
  {
    if n == 0 then x else Up(2 * x % TWO32, n - 1)
  }

  /** x << n joined with x >> m. */
  function Joined(x: Uint32, n: nat, m: nat): Uint32 {
    Int128.PowersOfWords();
    OrBound(Up(x, n), Down(x, m), 32);
    Or(Up(x, n), Down(x, m))
  }

  /** rotl32; the right shift is by -n modulo 32. */
  function Rotl(x: Uint32, n: int): Uint32
    requires 0 < n < 32
  {
    Joined(x, n, -n % 32)
  }

  lemma {:induction false} DownTop(x: Uint32, n: nat, hi: nat, lo: nat)
    requires lo < Pow2(n) && x == hi * Pow2(n) + lo
    ensures Down(x, n) == hi
    decreases n
  {
    hide Pow2;
    Pow2Step(n);
    if n > 0 {
      var p := Pow2(n - 1);
      TwiceProduct(hi, p);
      LowBit(lo, hi * p);
      DownTop(x / 2, n - 1, hi, lo / 2);
    }
  }

  lemma {:induction false} UpLow(x: Uint32, n: nat, hi: nat, lo: nat)
    requires n <= 32 && hi < Pow2(n) && lo < Pow2(32 - n) && x == hi * Pow2(32 - n) + lo
    ensures Up(x, n) == lo * Pow2(n)
    decreases n
  {
    hide Pow2;
    if n == 0 {
      Powers();
      assert hi == 0;
    } else {
      var rest := UpStep(x, n, hi, lo);
      UpLow(2 * x % TWO32, n - 1, rest, 2 * lo);
      PowersAround(n);
      TwiceProduct(lo, Pow2(n - 1));
    }
  }

  /** The top bit falls out. */
  lemma UpStep(x: Uint32, n: nat, hi: nat, lo: nat) returns (rest: nat)
    requires 0 < n <= 32 && hi < Pow2(n) && lo < Pow2(32 - n) && x == hi * Pow2(32 - n) + lo
    ensures rest < Pow2(n - 1) && 2 * lo < Pow2(33 - n) && 2 * x % TWO32 == rest * Pow2(33 - n) + 2 * lo
  {
    hide Pow2;
    PowersAround(n);
    var p, m := Pow2(n - 1), Pow2(32 - n);
    rest := if hi < p then hi else hi - p;
    assert hi == if hi < p then rest else p + rest;
    SplitProduct(rest, p, m);
    RoomBelow(rest, p, m);
    TwiceProduct(rest, m);
    TopShifted(x, p * m, rest * m, lo, hi < p);
  }

  lemma PowersAround(n: nat)
    requires 0 < n <= 32
    ensures Pow2(n) == 2 * Pow2(n - 1) && Pow2(33 - n) == 2 * Pow2(32 - n)
    ensures 2 * (Pow2(n - 1) * Pow2(32 - n)) == TWO32
  {
    hide Pow2;
    Int128.PowersOfWords();
    Powers();
    Pow2Add(n - 1, 1);
    Pow2Add(32 - n, 1);
    Pow2Add(n - 1, 33 - n);
    TwiceProduct(Pow2(n - 1), Pow2(32 - n));
  }

  lemma SplitProduct(rest: nat, p: nat, m: nat)
    ensures (p + rest) * m == p * m + rest * m
  {}

  lemma RoomBelow(rest: nat, p: nat, m: nat)
    requires rest < p
    ensures rest * m + m <= p * m
  {
    assert (rest + 1) * m <= p * m;
  }

  lemma TopShifted(x: nat, pm: nat, rm: nat, lo: nat, clear: bool)
    requires 2 * pm == TWO32 && x == (if clear then 0 else pm) + rm + lo && rm + lo < pm
    ensures 2 * x % TWO32 == 2 * rm + 2 * lo
  {}

  lemma OppositeShift(n: int)
    requires 0 < n < 32
    ensures -n % 32 == 32 - n
  {}

  /** The n high bits become the low ones. */
  lemma RotlRotates(x: Uint32, n: nat, hi: nat, lo: nat)
    requires 0 < n < 32 && hi < Pow2(n) && lo < Pow2(32 - n) && x == hi * Pow2(32 - n) + lo
    ensures Rotl(x, n) == lo * Pow2(n) + hi
  {
    hide Pow2, Or, Up, Down;
    OppositeShift(n);
    UpLow(x, n, hi, lo);
    DownTop(x, 32 - n, hi, lo);
    OrCommutes(lo * Pow2(n), hi);
    OrAdds(hi, lo, n);
  }

  lemma {:induction false} OrCommutes(a: nat, b: nat)
    ensures Or(a, b) == Or(b, a)
    decreases a + b
  {
    if a > 0 && b > 0 {
      OrCommutes(a / 2, b / 2);
    }
  }

  // ----- the block function ----------------------------------------------------------------------

  /** Half of what a quarter round does: an addition, an exclusive or and a rotation. */
  function Mix(x: State, p: nat, q: nat, r: nat, n: int): State
    requires p < 16 && q < 16 && r < 16 && 0 < n < 32
  {
    var y: State := x[p := Add32(x[p], x[q])];
    y[r := Rotl(Xor32(y[r], y[p]), n)]
  }

  function Quarter(x: State, a: nat, b: nat, c: nat, d: nat): State
    requires a < 16 && b < 16 && c < 16 && d < 16
  {
    Mix(Mix(Mix(Mix(x, a, b, d, 16), c, d, b, 12), a, b, d, 8), c, d, b, 7)
  }

  /** Four columns, then four diagonals. */
  function DoubleRound(x: State): State {
    var y := Quarter(Quarter(Quarter(Quarter(x, 0, 4, 8, 12), 1, 5, 9, 13), 2, 6, 10, 14), 3, 7, 11, 15);
    Quarter(Quarter(Quarter(Quarter(y, 0, 5, 10, 15), 1, 6, 11, 12), 2, 7, 8, 13), 3, 4, 9, 14)
  }

  function Rounds(x: State, n: nat): State {
    if n == 0 then x else DoubleRound(Rounds(x, n - 1))
  }

  function Sum(x: State, y: State): (z: State)
    ensures forall i :: 0 <= i < 16 ==> z[i] == Add32(x[i], y[i])
  {
    seq(16, i requires 0 <= i < 16 => Add32(x[i], y[i]))
  }

  /** The words in little-endian order. */
  function Serialized(x: seq<Uint32>): (s: seq<Byte>)
    ensures |s| == 4 * |x|
  {
    if |x| == 0 then [] else ToLe(x[0], 4) + Serialized(x[1..])
  }

  /** The block function with n double rounds. */
  function Core(s: State, n: nat): (b: seq<Byte>)
    ensures |b| == 64
  {
    Serialized(Sum(Rounds(s, n), s))
  }

  function Block(s: State): (b: seq<Byte>)
    ensures |b| == 64
  {
    Core(s, 10)
  }

  /** The state for the block n further on. */
  function Ahead(s: State, n: nat): State {
    s[12 := (s[12] + n) % TWO32]
  }

  /** The first n blocks of the key stream. */
  function Blocks(s: State, n: nat): (r: seq<Byte>)
    ensures |r| == 64 * n
  {
    if n == 0 then [] else Blocks(s, n - 1) + Block(Ahead(s, n - 1))
  }

  lemma BlockIsCore(s: State)
    ensures Block(s) == Core(s, 10)
  {}

  // ----- the scalar block ------------------------------------------------------------------------

  method QuarterRound(x: array<Uint32>, a: nat, b: nat, c: nat, d: nat)
    requires x.Length == 16 && a < 16 && b < 16 && c < 16 && d < 16
    modifies x
    ensures x[..] == Quarter(old(x[..]), a, b, c, d)
  {
    hide Mix;
    MixInPlace(x, a, b, d, 16);
    MixInPlace(x, c, d, b, 12);
    MixInPlace(x, a, b, d, 8);
    MixInPlace(x, c, d, b, 7);
  }

  /** x[p] += x[q]; x[r] = rotl32(x[r] ^ x[p], n) */
  method MixInPlace(x: array<Uint32>, p: nat, q: nat, r: nat, n: int)
    requires x.Length == 16 && p < 16 && q < 16 && r < 16 && 0 < n < 32
    modifies x
    ensures x[..] == Mix(old(x[..]), p, q, r, n)
  {
    hide Rotl, Xor32, Add32;
    ghost var was := x[..];
    x[p] := Add32(x[p], x[q]);
    assert x[..] == was[p := Add32(was[p], was[q])];
    ghost var y := x[..];
    x[r] := Rotl(Xor32(x[r], x[p]), n);
    assert x[..] == y[r := Rotl(Xor32(y[r], y[p]), n)];
  }

  method DoubleRoundInPlace(x: array<Uint32>)
    requires x.Length == 16
    modifies x
    ensures x[..] == DoubleRound(old(x[..]))
  {
    hide Quarter;
    QuarterRound(x, 0, 4, 8, 12);
    QuarterRound(x, 1, 5, 9, 13);
    QuarterRound(x, 2, 6, 10, 14);
    QuarterRound(x, 3, 7, 11, 15);
    QuarterRound(x, 0, 5, 10, 15);
    QuarterRound(x, 1, 6, 11, 12);
    QuarterRound(x, 2, 7, 8, 13);
    QuarterRound(x, 3, 4, 9, 14);
  }

  /** chacha20_block: rounds come in pairs. */
  method BlockOf(s: State, num_rounds: nat) returns (out: seq<Byte>)
    ensures out == Core(s, (num_rounds + 1) / 2)
  {
    hide DoubleRound, Add32, Serialized;
    var x := new Uint32[16](i requires 0 <= i < 16 => s[i]);
    assert x[..] == s;
    var i: int := num_rounds;
    while i > 0
      invariant -1 <= i <= num_rounds && (num_rounds - i) % 2 == 0
      invariant x[..] == Rounds(s, (num_rounds - i) / 2)
    {
      DoubleRoundInPlace(x);
      i := i - 2;
    }
    ghost var y := x[..];
    i := 0;
    while i < 16
      invariant 0 <= i <= 16
      invariant forall k :: 0 <= k < 16 ==> x[k] == if k < i then Add32(y[k], s[k]) else y[k]
    {
      x[i] := Add32(x[i], s[i]);
      i := i + 1;
    }
    assert x[..] == Sum(y, s);
    out := Serialize(x[..]);
  }

  method Serialize(x: seq<Uint32>) returns (out: seq<Byte>)
    ensures out == Serialized(x)
  {
    hide ToLe;
    out := [];
    var i := 0;
    SerializedNothing();
    while i < |x|
      invariant 0 <= i <= |x|
      invariant out == Serialized(x[..i])
    {
      SerializedNext(x, i);
      out := out + ToLe(x[i], 4);
      i := i + 1;
    }
    assert x[..i] == x;
  }

  lemma SerializedNothing()
    ensures Serialized([]) == []
  {}

  lemma {:induction false} SerializedAppend(x: seq<Uint32>, y: seq<Uint32>)
    ensures Serialized(x + y) == Serialized(x) + Serialized(y)
  {
    hide ToLe;
    if |x| == 0 {
      assert x + y == y;
    } else {
      SerializedAppend(x[1..], y);
      assert (x + y)[1..] == x[1..] + y;
    }
  }

  lemma SerializedNext(x: seq<Uint32>, i: nat)
    requires i < |x|
    ensures Serialized(x[..i + 1]) == Serialized(x[..i]) + ToLe(x[i], 4)
  {
    hide ToLe;
    SerializedAppend(x[..i], [x[i]]);
    assert x[..i + 1] == x[..i] + [x[i]] && [x[i]][1..] == [];
    assert Serialized([x[i]]) == ToLe(x[i], 4);
  }

  // ----- four blocks on vector lanes -----------------------------------------------------------------

  /** A vector register of four words. */
  type Vector = v: seq<Uint32> | |v| == 4 witness seq(4, i => 0)
  const NoWords: Vector := [0, 0, 0, 0]
  type Vectors = v: seq<Vector> | |v| == 16 witness seq<Vector>(16, i => NoWords)

  function AddV(a: Vector, b: Vector): (c: Vector)
    ensures forall l :: 0 <= l < 4 ==> c[l] == Add32(a[l], b[l])
  {
    [Add32(a[0], b[0]), Add32(a[1], b[1]), Add32(a[2], b[2]), Add32(a[3], b[3])]
  }

  function XorV(a: Vector, b: Vector): (c: Vector)
    ensures forall l :: 0 <= l < 4 ==> c[l] == Xor32(a[l], b[l])
  {
    [Xor32(a[0], b[0]), Xor32(a[1], b[1]), Xor32(a[2], b[2]), Xor32(a[3], b[3])]
  }

  /** ROL32V: two shifts of every lane, joined. */
  function RotlV(a: Vector, n: int): (c: Vector)
    requires 0 < n < 32
    ensures forall l :: 0 <= l < 4 ==> c[l] == Joined(a[l], n, 32 - n)
  {
    [Joined(a[0], n, 32 - n), Joined(a[1], n, 32 - n), Joined(a[2], n, 32 - n), Joined(a[3], n, 32 - n)]
  }

  /** One block's words: lane l of every register. */
  function Lane(v: Vectors, l: nat): (x: State)
    requires l < 4
    ensures forall i :: 0 <= i < 16 ==> x[i] == v[i][l]
  {
    seq(16, i requires 0 <= i < 16 => v[i][l])
  }

  method MixV(v: array<Vector>, p: nat, q: nat, r: nat, n: int)
    requires v.Length == 16 && p < 16 && q < 16 && r < 16 && 0 < n < 32
    modifies v
    ensures forall l :: 0 <= l < 4 ==> Lane(v[..], l) == Mix(Lane(old(v[..]), l), p, q, r, n)
  {
    hide Xor32, Add32, AddV, XorV, RotlV;
    ghost var was: Vectors := v[..];
    v[p] := AddV(v[p], v[q]);
    ghost var mid: Vectors := v[..];
    v[r] := RotlV(XorV(v[r], v[p]), n);
    forall l | 0 <= l < 4 ensures Lane(v[..], l) == Mix(Lane(was, l), p, q, r, n) {
      LaneMix(was, mid, v[..], p, q, r, n, l);
    }
  }

  lemma LaneMix(was: Vectors, mid: Vectors, now: Vectors, p: nat, q: nat, r: nat, n: int, l: nat)
    requires p < 16 && q < 16 && r < 16 && 0 < n < 32 && l < 4
    requires mid == was[p := AddV(was[p], was[q])] && now == mid[r := RotlV(XorV(mid[r], mid[p]), n)]
    ensures Lane(now, l) == Mix(Lane(was, l), p, q, r, n)
  {
    hide Xor32, Add32, AddV, XorV, RotlV;
    assert Lane(mid, l) == Lane(was, l)[p := Add32(was[p][l], was[q][l])];
    assert now[r][l] == Rotl(Xor32(mid[r][l], mid[p][l]), n);
    assert Lane(now, l) == Lane(mid, l)[r := now[r][l]];
  }

  /** The macro QR. */
  method QuarterV(v: array<Vector>, a: nat, b: nat, c: nat, d: nat)
    requires v.Length == 16 && a < 16 && b < 16 && c < 16 && d < 16
    modifies v
    ensures forall l :: 0 <= l < 4 ==> Lane(v[..], l) == Quarter(Lane(old(v[..]), l), a, b, c, d)
  {
    hide Mix;
    MixV(v, a, b, d, 16);
    MixV(v, c, d, b, 12);
    MixV(v, a, b, d, 8);
    MixV(v, c, d, b, 7);
  }

  method DoubleRoundV(v: array<Vector>)
    requires v.Length == 16
    modifies v
    ensures forall l :: 0 <= l < 4 ==> Lane(v[..], l) == DoubleRound(Lane(old(v[..]), l))
  {
    hide Quarter;
    QuarterV(v, 0, 4, 8, 12);
    QuarterV(v, 1, 5, 9, 13);
    QuarterV(v, 2, 6, 10, 14);
    QuarterV(v, 3, 7, 11, 15);
    QuarterV(v, 0, 5, 10, 15);
    QuarterV(v, 1, 6, 11, 12);
    QuarterV(v, 2, 7, 8, 13);
    QuarterV(v, 3, 4, 9, 14);
  }

  /** chacha20_4block: the lanes count from the state's counter on. */
  method FourBlocks(s: State) returns (out: seq<Byte>)
    ensures out == Blocks(s, 4)
  {
    hide DoubleRound, Add32, Serialized, Block;
    var v := new Vector[16](i requires 0 <= i < 16 => [s[i], s[i], s[i], s[i]]);
    v[12] := AddV(v[12], [0, 1, 2, 3]);
    var o: Vectors := v[..];
    LanesStart(s, o);
    var r := 0;
    while r < 10
      invariant 0 <= r <= 10
      invariant forall l :: 0 <= l < 4 ==> Lane(v[..], l) == Rounds(Lane(o, l), r)
    {
      DoubleRoundV(v);
      r := r + 1;
    }
    ghost var y: Vectors := v[..];
    var i := 0;
    while i < 16
      invariant 0 <= i <= 16
      invariant forall k :: 0 <= k < 16 ==> v[k] == if k < i then AddV(y[k], o[k]) else y[k]
    {
      v[i] := AddV(v[i], o[i]);
      i := i + 1;
    }
    ghost var z: Vectors := v[..];
    out := [];
    var b := 0;
    while b < 4
      invariant 0 <= b <= 4 && v[..] == z
      invariant out == Blocks(s, b)
    {
      LaneSum(y, o, z, b);
      LaneBlock(s, Lane(z, b), b);
      var words := Lane(v[..], b);
      var bytes := Serialize(words);
      out := out + bytes;
      b := b + 1;
    }
  }

  lemma LanesStart(s: State, o: Vectors)
    requires forall i :: 0 <= i < 16 && i != 12 ==> o[i] == [s[i], s[i], s[i], s[i]]
    requires o[12] == AddV([s[12], s[12], s[12], s[12]], [0, 1, 2, 3])
    ensures forall l: nat :: l < 4 ==> Lane(o, l) == Ahead(s, l)
  {
    forall l: nat | l < 4 ensures Lane(o, l) == Ahead(s, l) {
      assert o[12][l] == (s[12] + l) % TWO32;
    }
  }

  lemma LaneSum(y: Vectors, o: Vectors, z: Vectors, l: nat)
    requires l < 4 && forall k :: 0 <= k < 16 ==> z[k] == AddV(y[k], o[k])
    ensures Lane(z, l) == Sum(Lane(y, l), Lane(o, l))
  {}

  lemma LaneBlock(s: State, x: State, l: nat)
    requires l < 4 && x == Sum(Rounds(Ahead(s, l), 10), Ahead(s, l))
    ensures Serialized(x) == Block(Ahead(s, l))
    ensures Blocks(s, l + 1) == Blocks(s, l) + Block(Ahead(s, l))
  {}

  // ----- the key stream -------------------------------------------------------------------------------

  /** Section 2.4 of RFC 8439: one block after another, the counter advancing modulo 2^32. */
  function Stream(s: State, data: seq<Byte>): (r: seq<Byte>)
    ensures |r| == |data|
    decreases |data|
  {
    if |data| == 0 then []
    else
      var n := Min(64, |data|);
      XorBytes(data[..n], Block(s)) + Stream(Ahead(s, 1), data[n..])
  }

  lemma {:induction false} StreamTwice(s: State, data: seq<Byte>)
    ensures Stream(s, Stream(s, data)) == data
    decreases |data|
  {
    hide Block, Ahead, XorBytes, Stream;
    if |data| == 0 {
      StreamNothing(s);
    } else {
      var n := Min(64, |data|);
      var c := Stream(s, data);
      StreamStep(s, data);
      StreamStep(s, c);
      assert c[..n] == XorBytes(data[..n], Block(s)) && c[n..] == Stream(Ahead(s, 1), data[n..]);
      StreamTwice(Ahead(s, 1), data[n..]);
      XorBytesTwice(data[..n], Block(s));
      assert data == data[..n] + data[n..];
    }
  }

  lemma AheadTwice(s: State, m: nat, n: nat)
    ensures Ahead(Ahead(s, m), n) == Ahead(s, m + n)
    ensures Ahead(s, 0) == s
  {}

  lemma StreamStep(s: State, data: seq<Byte>)
    requires |data| > 0
    ensures Stream(s, data) == XorBytes(data[..Min(64, |data|)], Block(s)) + Stream(Ahead(s, 1), data[Min(64, |data|)..])
  {
    hide Block, Ahead, XorByte;
  }

  lemma StreamNothing(s: State)
    ensures Stream(s, []) == []
  {}

  /** n whole blocks at once are the blocks in turn. */
  lemma {:induction false} StreamBlocks(s: State, data: seq<Byte>, n: nat)
    requires 64 * n <= |data|
    ensures Stream(s, data) == XorBytes(data[..64 * n], Blocks(s, n)) + Stream(Ahead(s, n), data[64 * n..])
  {
    hide Block, Ahead, XorBytes, Stream, Min;
    AheadTwice(s, 0, 0);
    if n == 0 {
      assert data[0..] == data && XorBytes(data[..0], Blocks(s, 0)) == [];
    } else {
      var k := 64 * (n - 1);
      StreamBlocks(s, data, n - 1);
      AheadTwice(s, n - 1, 1);
      NextBlock(Ahead(s, n - 1), data, k);
      XorJoin(data[..k], data[k..k + 64], Blocks(s, n - 1), Block(Ahead(s, n - 1)));
      assert data[..k] + data[k..k + 64] == data[..64 * n];
    }
  }

  lemma NextBlock(t: State, data: seq<Byte>, k: nat)
    requires k + 64 <= |data|
    ensures Stream(t, data[k..]) == XorBytes(data[k..k + 64], Block(t)) + Stream(Ahead(t, 1), data[k + 64..])
  {
    hide Block, Ahead, XorBytes, Stream;
    StreamStep(t, data[k..]);
    assert data[k..][..64] == data[k..k + 64] && data[k..][64..] == data[k + 64..];
  }

  /** The state of section 2.3: constants, key, counter and nonce. */
  function Initial(key: seq<Byte>, counter: Uint32, nonce: seq<Byte>): State
    requires |key| == 32 && |nonce| == 12
  {
    [0x61707865, 0x3320646e, 0x79622d32, 0x6b206574] + Words(key) + [counter] + Words(nonce)
  }

  /** Little-endian words. */
  function Words(b: seq<Byte>): (w: seq<Uint32>)
    ensures |w| == |b| / 4 && forall i :: 0 <= i < |w| ==> w[i] == Word(b, 4 * i)
  {
    seq(|b| / 4, i requires 0 <= i < |b| / 4 => Word(b, 4 * i))
  }

  /** The words of the state are filled in one by one. */
  method InitState(key: seq<Byte>, counter: Uint32, nonce: seq<Byte>) returns (s: State)
    requires |key| == 32 && |nonce| == 12
    ensures s == Initial(key, counter, nonce)
  {
    hide Word;
    s := seq(16, i => 0);
    s := s[0 := 0x61707865][1 := 0x3320646e][2 := 0x79622d32][3 := 0x6b206574];
    var i := 0;
    while i < 8
      invariant 0 <= i <= 8
      invariant s[..4] == [0x61707865, 0x3320646e, 0x79622d32, 0x6b206574]
      invariant forall k :: 0 <= k < i ==> s[4 + k] == Word(key, 4 * k)
    {
      s := s[4 + i := Word(key, 4 * i)];
      i := i + 1;
    }
    s := s[12 := counter];
    i := 0;
    while i < 3
      invariant 0 <= i <= 3
      invariant s[..4] == [0x61707865, 0x3320646e, 0x79622d32, 0x6b206574] && s[12] == counter
      invariant forall k :: 0 <= k < 8 ==> s[4 + k] == Word(key, 4 * k)
      invariant forall k :: 0 <= k < i ==> s[13 + k] == Word(nonce, 4 * k)
    {
      s := s[13 + i := Word(nonce, 4 * i)];
      i := i + 1;
    }
    assert s[4..12] == Words(key) && s[12..13] == [counter] && s[13..] == Words(nonce);
    assert s == s[..4] + s[4..12] + s[12..13] + s[13..];
  }

  /** The first i bytes are written, the rest will be continued from state t. */
  ghost predicate Progress(s: State, input: seq<Byte>, i: nat, t: State, out: seq<Byte>) {
    i <= |input| == |out| && Stream(s, input) == out[..i] + Stream(t, input[i..])
  }

  lemma Advanced(s: State, input: seq<Byte>, i: nat, t: State, was: seq<Byte>, n: nat, key: seq<Byte>, u: State,
                 out: seq<Byte>)
    requires i + n <= |input| && n <= |key| && |out| == |was| == |input|
    requires Progress(s, input, i, t, was)
    requires Stream(t, input[i..]) == XorBytes(input[i..i + n], key) + Stream(u, input[i + n..])
    requires forall k :: 0 <= k < i ==> out[k] == was[k]
    requires forall k :: 0 <= k < n ==> out[i + k] == XorByte(input[i + k], key[k])
    ensures Progress(s, input, i + n, u, out)
  {
    hide Stream, XorByte;
    assert out[..i] == was[..i];
    assert out[..i + n] == out[..i] + XorBytes(input[i..i + n], key);
  }

  method XorInto(input: seq<Byte>, i: nat, n: nat, key: seq<Byte>, out: array<Byte>)
    requires i + n <= |input| == out.Length && n <= |key|
    modifies out
    ensures forall k :: 0 <= k < out.Length && !(i <= k < i + n) ==> out[k] == old(out[k])
    ensures forall k :: 0 <= k < n ==> out[i + k] == XorByte(input[i + k], key[k])
  {
    hide XorByte;
    var j := 0;
    while j < n
      invariant 0 <= j <= n
      invariant forall k :: 0 <= k < out.Length && !(i <= k < i + j) ==> out[k] == old(out[k])
      invariant forall k :: 0 <= k < j ==> out[i + k] == XorByte(input[i + k], key[k])
    {
      out[i + j] := XorByte(input[i + j], key[j]);
      j := j + 1;
    }
  }

  /** Four blocks at once. */
  method MaskFour(ghost first: State, s: State, input: seq<Byte>, i: nat, out: array<Byte>) returns (t: State)
    requires i + 256 <= |input| == out.Length && Progress(first, input, i, s, out[..])
    modifies out
    ensures Progress(first, input, i + 256, t, out[..])
  {
    hide Stream, XorByte, Block, Blocks, Ahead, Progress;
    var ks := FourBlocks(s);
    ghost var was := out[..];
    StreamBlocks(s, input[i..], 4);
    assert input[i..][..256] == input[i..i + 256] && input[i..][256..] == input[i + 256..];
    XorInto(input, i, 256, ks, out);
    t := Ahead(s, 4);
    Advanced(first, input, i, s, was, 256, ks, t, out[..]);
  }

  /** One block, or what remains of it. */
  method MaskOne(ghost first: State, s: State, input: seq<Byte>, i: nat, out: array<Byte>) returns (t: State)
    requires i < |input| == out.Length && Progress(first, input, i, s, out[..])
    modifies out
    ensures Progress(first, input, i + Min(64, |input| - i), t, out[..])
  {
    hide Stream, XorByte, Block, Core, Ahead, Progress;
    var block := BlockOf(s, 20);
    BlockIsCore(s);
    var n := Min(64, |input| - i);
    ghost var was := out[..];
    StreamStep(s, input[i..]);
    assert input[i..][..n] == input[i..i + n] && input[i..][n..] == input[i + n..];
    XorInto(input, i, n, block, out);
    t := Ahead(s, 1);
    Advanced(first, input, i, s, was, n, block, t, out[..]);
  }

  /** chacha20_xor, with and without the vector unit. */
  method ChaChaXor(sse2: bool, key: seq<Byte>, counter: Uint32, nonce: seq<Byte>, input: seq<Byte>, out: array<Byte>)
    requires |key| == 32 && |nonce| == 12 && out.Length == |input| < INT_ROOM
    modifies out
    ensures out[..] == Stream(Initial(key, counter, nonce), input)
  {
    hide Stream, Initial, Progress;
    var s := InitState(key, counter, nonce);
    ghost var first := s;
    var i := 0;
    ProgressStarts(first, input, out[..]);
    if sse2 {
      while i + 256 <= |input|
        invariant 0 <= i <= |input|
        invariant Progress(first, input, i, s, out[..])
      {
        s := MaskFour(first, s, input, i, out);
        i := i + 256;
      }
    }
    while i < |input|
      invariant 0 <= i <= |input|
      invariant Progress(first, input, i, s, out[..])
    {
      s := MaskOne(first, s, input, i, out);
      i := i + Min(64, |input| - i);
    }
    ProgressEnds(first, input, s, out[..]);
  }

  lemma ProgressStarts(s: State, input: seq<Byte>, out: seq<Byte>)
    requires |out| == |input|
    ensures Progress(s, input, 0, s, out)
  {
    hide Stream;
    assert input[0..] == input && out[..0] == [];
  }

  lemma ProgressEnds(s: State, input: seq<Byte>, t: State, out: seq<Byte>)
    requires Progress(s, input, |input|, t, out)
    ensures out == Stream(s, input)
  {
    hide Stream;
    StreamNothing(t);
    assert input[|input|..] == [] && out[..|input|] == out;
  }
}
