/** Sampling: rejection sampling of the public matrix and the centred binomial
    distribution. The hash functions are a parameter; their output is a stream of
    bytes. */
module Sample {
  import opened Bits
  import opened Codec
  import opened LittleEndian
  import opened PolyBytes
  import opened Ring
  import opened PolyArith

  datatype HashId = Sha3x256 | Sha3x512 | Shake128 | Shake256

  /** Byte n of the output of a hash function on an input. */
  type Hash = (HashId, seq<Byte>, nat) -> Byte

  function Digest(h: Hash, id: HashId, input: seq<Byte>, n: nat): (s: seq<Byte>)
    ensures |s| == n
  {
    seq(n, i requires 0 <= i < n => h(id, input, i))
  }

  // ----- rejection sampling -----------------------------------------------------------

  /** The values below q among the two twelve-bit words of three bytes. */
  function Accept3(b0: Byte, b1: Byte, b2: Byte): seq<int> {
    var x: nat, y: nat := b0 + 256 * (b1 % 16), b1 / 16 + 16 * b2;
    (if x < 3329 then [x] else []) + (if y < 3329 then [y] else [])
  }

  /** The accepted values of a byte string read three bytes at a time. */
  function Accepted(s: seq<Byte>): (r: seq<int>)
    ensures forall i :: 0 <= i < |r| ==> 0 <= r[i] < 3329
  {
    if |s| < 3 then [] else Accept3(s[0], s[1], s[2]) + Accepted(s[3..])
  }

  function Take(s: seq<int>, n: nat): seq<int> {
    if |s| <= n then s else s[..n]
  }

  lemma {:induction false} AcceptedAppend(s: seq<Byte>, t: seq<Byte>, k: nat)
    requires |s| == 3 * k
    ensures Accepted(s + t) == Accepted(s) + Accepted(t)
    decreases k
  {
    if k == 0 {
      assert s + t == t;
    } else {
      assert (s + t)[3..] == s[3..] + t;
      AcceptedAppend(s[3..], t, k - 1);
    }
  }

  lemma AcceptedThree(b0: Byte, b1: Byte, b2: Byte)
    ensures Accepted([b0, b1, b2]) == Accept3(b0, b1, b2)
  {
    assert [b0, b1, b2][3..] == [];
  }

  /** rej_uniform: the first len accepted values of buf. */
  method RejUniform(len: nat, buf: seq<Byte>) returns (r: seq<int>)
    ensures r == Take(Accepted(buf), len)
  {
    hide Accept3, Or;
    r := [];
    var pos := 0;
    ghost var k := 0;
    while |r| < len && pos + 3 <= |buf|
      invariant pos == 3 * k <= |buf|
      invariant r == Take(Accepted(buf[..pos]), len)
    {
      var b0: nat, b1: nat, b2: nat := buf[pos], buf[pos + 1], buf[pos + 2];
      var val0 := Or(b0, b1 * 256) % 4096;
      var val1 := Or(b1 / 16, b2 * 16) % 4096;
      AcceptedStep(buf, pos, k, val0, val1);
      pos := pos + 3;
      k := k + 1;
      if val0 < 3329 {
        r := r + [val0];
      }
      if |r| < len && val1 < 3329 {
        r := r + [val1];
      }
    }
    assert buf[..pos] + buf[pos..] == buf;
    AcceptedAppend(buf[..pos], buf[pos..], k);
  }

  lemma AcceptedStep(buf: seq<Byte>, pos: nat, k: nat, val0: nat, val1: nat)
    requires pos == 3 * k && pos + 3 <= |buf|
    requires var b0: nat, b1: nat, b2: nat := buf[pos], buf[pos + 1], buf[pos + 2];
      val0 == Or(b0, b1 * 256) % 4096 && val1 == Or(b1 / 16, b2 * 16) % 4096
    ensures Accepted(buf[..pos + 3]) == Accepted(buf[..pos])
      + (if val0 < 3329 then [val0] else []) + (if val1 < 3329 then [val1] else [])
  {
    hide Or, Accepted, ByteDecode;
    var b0: nat, b1: nat, b2: nat := buf[pos], buf[pos + 1], buf[pos + 2];
    Unpack2(b0, b1, b2);
    Decode12(b0, b1, b2);
    assert buf[..pos + 3] == buf[..pos] + [b0, b1, b2];
    AcceptedAppend(buf[..pos], [b0, b1, b2], k);
    AcceptedThree(b0, b1, b2);
    assert Accept3(b0, b1, b2) == (if val0 < 3329 then [val0] else []) + (if val1 < 3329 then [val1] else []);
  }

  /** SampleNTT of section 4.2.2 of FIPS 203, given that n bytes are enough. */
  function SampleNtt(h: Hash, input: seq<Byte>, n: nat): (f: Poly)
    requires Enough(h, input, n)
    ensures |f| == 256 && forall i :: 0 <= i < 256 ==> 0 <= f[i] < 3329
  {
    Accepted(Digest(h, Shake128, input, n))[..256]
  }

  /** The first n bytes of the stream hold 256 accepted values. */
  predicate Enough(h: Hash, input: seq<Byte>, n: nat) {
    |Accepted(Digest(h, Shake128, input, n))| >= 256
  }

  lemma {:induction false} AcceptedPrefix(s: seq<Byte>, t: seq<Byte>)
    ensures |Accepted(s)| <= |Accepted(s + t)|
    ensures Accepted(s) == Accepted(s + t)[..|Accepted(s)|]
  {
    if |s| >= 3 {
      assert (s + t)[3..] == s[3..] + t;
      AcceptedPrefix(s[3..], t);
    }
  }

  /** More bytes than needed change nothing. */
  lemma MoreBytes(h: Hash, input: seq<Byte>, m: nat, n: nat)
    requires m <= n
    ensures |Accepted(Digest(h, Shake128, input, m))| <= |Accepted(Digest(h, Shake128, input, n))|
    ensures Enough(h, input, m) ==> Enough(h, input, n) && SampleNtt(h, input, n) == SampleNtt(h, input, m)
  {
    hide Accepted;
    var s, t := Digest(h, Shake128, input, m), Digest(h, Shake128, input, n);
    assert t == s + t[m..];
    AcceptedPrefix(s, t[m..]);
  }

  /** One entry of gen_matrix: three blocks of 168 bytes, then single blocks until
      256 values are accepted. */
  method GenPoly(h: Hash, input: seq<Byte>, ghost n: nat) returns (f: Poly)
    requires Enough(h, input, n)
    ensures f == SampleNtt(h, input, n)
  {
    hide Accepted, Digest;
    var squeezed := 504;
    f := RejUniform(256, Digest(h, Shake128, input, squeezed));
    ghost var k := 168;
    while |f| < 256
      invariant squeezed == 3 * k && f == Take(Accepted(Digest(h, Shake128, input, squeezed)), 256)
      decreases n - squeezed
    {
      if n <= squeezed {
        MoreBytes(h, input, n, squeezed);
      }
      var buf := Block(h, input, squeezed, 168);
      var more := RejUniform(256 - |f|, buf);
      BlockAppends(h, input, squeezed, 168, k);
      f := f + more;
      squeezed := squeezed + 168;
      k := k + 56;
    }
    MoreBytes(h, input, if n <= squeezed then n else squeezed, if n <= squeezed then squeezed else n);
  }

  /** The len bytes of the stream after the first from bytes. */
  function Block(h: Hash, input: seq<Byte>, from: nat, len: nat): (s: seq<Byte>)
    ensures |s| == len
  {
    seq(len, i requires 0 <= i < len => h(Shake128, input, from + i))
  }

  lemma BlockAppends(h: Hash, input: seq<Byte>, from: nat, len: nat, k: nat)
    requires from == 3 * k
    ensures Accepted(Digest(h, Shake128, input, from + len))
         == Accepted(Digest(h, Shake128, input, from)) + Accepted(Block(h, input, from, len))
  {
    hide Accepted;
    assert Digest(h, Shake128, input, from + len)
        == Digest(h, Shake128, input, from) + Block(h, input, from, len);
    AcceptedAppend(Digest(h, Shake128, input, from), Block(h, input, from, len), k);
  }

  /** The XOF input for entry (i, j) of the matrix or of its transpose. */
  function EntrySeed(seed: seq<Byte>, i: nat, j: nat, transposed: bool): seq<Byte>
    requires i < 3 && j < 3
  {
    if transposed then seed + [i, j] else seed + [j, i]
  }

  predicate EnoughAll(h: Hash, seed: seq<Byte>, n: nat) {
    forall i, j :: 0 <= i < 3 && 0 <= j < 3 ==> Enough(h, EntrySeed(seed, i, j, false), n)
  }

  type Matrix = seq<Vec>

  function Row(h: Hash, seed: seq<Byte>, n: nat, i: nat, transposed: bool): (v: Vec)
    requires EnoughAll(h, seed, n) && i < 3
    ensures IsVec(v) && forall j :: 0 <= j < 3 ==> forall k :: 0 <= k < 256 ==> 0 <= v[j][k] < 3329
  {
    seq(3, j requires 0 <= j < 3 => Entry(h, seed, n, i, j, transposed))
  }

  function Entry(h: Hash, seed: seq<Byte>, n: nat, i: nat, j: nat, transposed: bool): (f: Poly)
    requires EnoughAll(h, seed, n) && i < 3 && j < 3
    ensures |f| == 256 && forall k :: 0 <= k < 256 ==> 0 <= f[k] < 3329
  {
    assert EntrySeed(seed, i, j, true) == EntrySeed(seed, j, i, false);
    SampleNtt(h, EntrySeed(seed, i, j, transposed), n)
  }

  /** Which bytes follow the seed: column and row for the matrix, row and column for its
      transpose. */
  lemma RowSeeds(h: Hash, seed: seq<Byte>, n: nat, i: nat, j: nat)
    requires EnoughAll(h, seed, n) && i < 3 && j < 3
    ensures Enough(h, seed + [j, i], n) && Row(h, seed, n, i, false)[j] == SampleNtt(h, seed + [j, i], n)
    ensures Enough(h, seed + [i, j], n) && Row(h, seed, n, i, true)[j] == SampleNtt(h, seed + [i, j], n)
  {
    hide SampleNtt, Enough;
    assert EntrySeed(seed, i, j, false) == seed + [j, i];
    assert EntrySeed(seed, i, j, true) == seed + [i, j] == EntrySeed(seed, j, i, false);
  }

  /** gen_at is the transpose of gen_a. */
  lemma EntryTransposed(h: Hash, seed: seq<Byte>, n: nat, i: nat, j: nat)
    requires EnoughAll(h, seed, n) && i < 3 && j < 3
    ensures Row(h, seed, n, i, true)[j] == Row(h, seed, n, j, false)[i]
  {
    assert EntrySeed(seed, i, j, true) == EntrySeed(seed, j, i, false);
  }

  /** gen_matrix. */
  method GenMatrix(h: Hash, seed: seq<Byte>, transposed: bool, ghost n: nat) returns (a: Matrix)
    requires EnoughAll(h, seed, n)
    ensures |a| == 3 && forall i :: 0 <= i < 3 ==> |a[i]| == 3 && a[i] == Row(h, seed, n, i, transposed)
    ensures forall i, j :: 0 <= i < 3 && 0 <= j < 3 ==>
      var input := seed + if transposed then [i, j] else [j, i];
      Enough(h, input, n) && a[i][j] == SampleNtt(h, input, n)
  {
    hide SampleNtt, Enough;
    a := [];
    var i := 0;
    while i < 3
      invariant 0 <= i <= 3 && |a| == i
      invariant forall k :: 0 <= k < i ==> a[k] == Row(h, seed, n, k, transposed)
    {
      var v: Vec := [];
      var j := 0;
      while j < 3
        invariant 0 <= j <= 3 && |v| == j
        invariant forall k :: 0 <= k < j ==> v[k] == Entry(h, seed, n, i, k, transposed)
      {
        assert EntrySeed(seed, i, j, true) == EntrySeed(seed, j, i, false);
        var f := GenPoly(h, EntrySeed(seed, i, j, transposed), n);
        v := v + [f];
        j := j + 1;
      }
      assert v == Row(h, seed, n, i, transposed);
      a := a + [v];
      i := i + 1;
    }
    forall i, j | 0 <= i < 3 && 0 <= j < 3 ensures
      var input := seed + if transposed then [i, j] else [j, i];
      Enough(h, input, n) && a[i][j] == SampleNtt(h, input, n)
    {
      RowSeeds(h, seed, n, i, j);
    }
  }

  // ----- centred binomial sampling ---------------------------------------------------

  /** The difference of two pairs of bits. */
  function CbdNibble(x: nat): (c: int)
    ensures -2 <= c <= 2
  {
    x % 2 + x / 2 % 2 - x / 4 % 2 - x / 8 % 2
  }

  /** SamplePolyCBD_2 of section 4.2.2 of FIPS 203, nibble by nibble. */
  function Cbd(buf: seq<Byte>): (p: Poly)
    ensures |p| == 2 * |buf| && forall i :: 0 <= i < |p| ==> -2 <= p[i] <= 2
  {
    if |buf| == 0 then []
    else [CbdNibble(buf[0] % 16), CbdNibble(buf[0] / 16)] + Cbd(buf[1..])
  }

  /** One step of AND on words given by their low bit and the rest. */
  lemma AndStep(x: Bit, a: nat, y: Bit, b: nat)
    ensures And(x + 2 * a, y + 2 * b) == (if x == 1 && y == 1 then 1 else 0) + 2 * And(a, b)
  {
    assert (x + 2 * a) % 2 == x && (x + 2 * a) / 2 == a;
    assert (y + 2 * b) % 2 == y && (y + 2 * b) / 2 == b;
  }

  /** n nibbles of 0101. */
  function Fives(n: nat): nat {
    if n == 0 then 0 else 5 + 16 * Fives(n - 1)
  }

  /** The word with low nibble x0 x1 x2 x3 and upper part u. */
  function Word(x0: Bit, x1: Bit, x2: Bit, x3: Bit, u: nat): nat {
    x0 + 2 * (x1 + 2 * (x2 + 2 * (x3 + 2 * u)))
  }

  lemma WordOf(t: nat) returns (x0: Bit, x1: Bit, x2: Bit, x3: Bit)
    ensures t == Word(x0, x1, x2, x3, t / 16)
  {
    var t1 := t / 2;
    var t2 := t1 / 2;
    var t3 := t2 / 2;
    x0, x1, x2, x3 := t % 2, t1 % 2, t2 % 2, t3 % 2;
    assert t == Word(x0, x1, x2, x3, t3 / 2);
    assert t / 16 == t3 / 2;
  }

  lemma AndFives(x0: Bit, x1: Bit, x2: Bit, x3: Bit, u: nat, n: nat)
    requires n > 0
    ensures And(Word(x0, x1, x2, x3, u), Fives(n)) == x0 + 4 * x2 + 16 * And(u, Fives(n - 1))
  {
    hide And;
    var m := Fives(n - 1);
    AndStep(x0, x1 + 2 * (x2 + 2 * (x3 + 2 * u)), 1, 2 * (1 + 2 * (2 * m)));
    AndStep(x1, x2 + 2 * (x3 + 2 * u), 0, 1 + 2 * (2 * m));
    AndStep(x2, x3 + 2 * u, 1, 2 * m);
    AndStep(x3, u, 0, m);
  }

  /** The bit pairs of n nibbles, added in parallel. */
  function PairSums(t: nat, n: nat): nat {
    And(t, Fives(n)) + And(t / 2, Fives(n))
  }

  /** No pair sum carries into the next. */
  lemma PairSumsStep(t: nat, n: nat, x0: Bit, x1: Bit, x2: Bit, x3: Bit)
    requires n > 0 && t == Word(x0, x1, x2, x3, t / 16)
    ensures PairSums(t, n) == x0 + x1 + 4 * (x2 + x3) + 16 * PairSums(t / 16, n - 1)
  {
    hide And, Fives;
    var u := t / 16;
    var y, v := u % 2, u / 2;
    AndFives(x0, x1, x2, x3, u, n);
    AndFives(x1, x2, x3, y, v, n);
    assert u == y + 2 * v;
    assert t / 2 == Word(x1, x2, x3, y, v);
  }

  lemma NibbleBits(t: nat, x0: Bit, x1: Bit, x2: Bit, x3: Bit)
    requires t == Word(x0, x1, x2, x3, t / 16)
    ensures CbdNibble(t % 16) == x0 + x1 - (x2 + x3)
  {
    var y := x0 + 2 * (x1 + 2 * (x2 + 2 * x3));
    assert t % 16 == y;
    assert y % 2 == x0 && y / 2 == x1 + 2 * (x2 + 2 * x3) && y / 4 == x2 + 2 * x3 && y / 8 == x3;
  }

  lemma PairExtract(x0: Bit, x1: Bit, x2: Bit, x3: Bit, rest: nat)
    ensures (x0 + x1 + 4 * (x2 + x3) + 16 * rest) % 4 == x0 + x1
    ensures (x0 + x1 + 4 * (x2 + x3) + 16 * rest) / 4 % 4 == x2 + x3
    ensures (x0 + x1 + 4 * (x2 + x3) + 16 * rest) / 16 == rest
  {
    assert (x0 + x1 + 4 * (x2 + x3) + 16 * rest) / 4 == x2 + x3 + 4 * rest;
  }

  function CbdWord(t: nat, n: nat): (p: Poly)
    ensures |p| == n
  {
    if n == 0 then [] else [CbdNibble(t % 16)] + CbdWord(t / 16, n - 1)
  }

  lemma WordIsBytes(b0: Byte, b1: Byte, b2: Byte, b3: Byte)
    ensures CbdWord(b0 + 256 * (b1 + 256 * (b2 + 256 * b3)), 8) == Cbd([b0, b1, b2, b3])
  {
    hide CbdNibble, Cbd, CbdWord;
    var w3: nat := b3;
    var w2: nat := b2 + 256 * w3;
    var w1: nat := b1 + 256 * w2;
    ByteNibbles(b0, w1, 6);
    ByteNibbles(b1, w2, 4);
    ByteNibbles(b2, w3, 2);
    ByteNibbles(b3, 0, 0);
    assert CbdWord(0, 0) == [] by { NoNibbles(0); }
    CbdFirst([b0, b1, b2, b3]);
    CbdFirst([b1, b2, b3]);
    CbdFirst([b2, b3]);
    CbdFirst([b3]);
    CbdEmpty();
    assert [b0, b1, b2, b3][1..] == [b1, b2, b3];
    assert [b1, b2, b3][1..] == [b2, b3];
    assert [b2, b3][1..] == [b3];
    assert [b3][1..] == [];
  }

  lemma NoNibbles(t: nat)
    ensures CbdWord(t, 0) == []
  {}

  lemma CbdFirst(buf: seq<Byte>)
    requires |buf| > 0
    ensures Cbd(buf) == [CbdNibble(buf[0] % 16), CbdNibble(buf[0] / 16)] + Cbd(buf[1..])
  {}

  lemma ByteNibbles(b: Byte, rest: nat, n: nat)
    ensures CbdWord(b + 256 * rest, n + 2) == [CbdNibble(b % 16), CbdNibble(b / 16)] + CbdWord(rest, n)
  {
    hide CbdNibble;
    var t: nat := b + 256 * rest;
    assert t % 16 == b % 16 && t / 16 == b / 16 + 16 * rest;
    assert (b / 16 + 16 * rest) % 16 == b / 16 && (b / 16 + 16 * rest) / 16 == rest;
    assert CbdWord(t, n + 2) == [CbdNibble(t % 16)] + CbdWord(t / 16, n + 1);
  }

  lemma FivesValue()
    ensures Fives(8) == 0x55555555
  {}

  lemma CbdAppend(s: seq<Byte>, t: seq<Byte>)
    ensures Cbd(s + t) == Cbd(s) + Cbd(t)
  {
    hide CbdNibble;
    if |s| == 0 {
      assert s + t == t;
    } else {
      assert (s + t)[1..] == s[1..] + t;
      CbdAppend(s[1..], t);
    }
  }

  /** cbd2: the bit pairs of eight nibbles are added in one 32-bit word. */
  method Cbd2(buf: seq<Byte>) returns (r: Poly)
    requires |buf| == 128
    ensures r == Cbd(buf)
  {
    hide And, Or, Load32, CbdNibble, Cbd, CbdWord, PairSums, Word, Fives;
    assert Cbd([]) == [] by { CbdEmpty(); }
    r := [];
    var i := 0;
    while i < 32
      invariant 0 <= i <= 32 && r == Cbd(buf[..4 * i])
    {
      var b0: nat, b1: nat, b2: nat, b3: nat := buf[4 * i], buf[4 * i + 1], buf[4 * i + 2], buf[4 * i + 3];
      var t := Load32(b0, b1, b2, b3);
      Load32Value(b0, b1, b2, b3);
      var d := And(t, 0x55555555);
      d := d + And(t / 2, 0x55555555);
      WordIsBytes(b0, b1, b2, b3);
      assert buf[..4 * (i + 1)] == buf[..4 * i] + [b0, b1, b2, b3];
      CbdAppend(buf[..4 * i], [b0, b1, b2, b3]);
      ghost var was := r;
      ghost var u := t;
      assert d == PairSums(t, 8) by { PairSumsValue(t); }
      var j := 0;
      while j < 8
        invariant 0 <= j <= 8 && d == PairSums(u, 8 - j)
        invariant r + CbdWord(u, 8 - j) == was + CbdWord(t, 8)
      {
        ghost var x0, x1, x2, x3 := WordOf(u);
        PairSumsStep(u, 8 - j, x0, x1, x2, x3);
        NibbleBits(u, x0, x1, x2, x3);
        PairExtract(x0, x1, x2, x3, PairSums(u / 16, 7 - j));
        NibbleFirst(u, 8 - j);
        var a := d % 4;
        var b := d / 4 % 4;
        r := r + [a - b];
        d := d / 16;
        u := u / 16;
        j := j + 1;
      }
      NoNibbles(u);
      assert r == r + CbdWord(u, 0);
      i := i + 1;
    }
    assert buf[..128] == buf;
  }

  lemma PairSumsValue(t: nat)
    ensures PairSums(t, 8) == And(t, 0x55555555) + And(t / 2, 0x55555555)
  {
    hide And;
    FivesValue();
  }

  lemma NibbleFirst(t: nat, n: nat)
    requires n > 0
    ensures CbdWord(t, n) == [CbdNibble(t % 16)] + CbdWord(t / 16, n - 1)
  {}

  lemma CbdEmpty()
    ensures Cbd([]) == []
  {}
}
