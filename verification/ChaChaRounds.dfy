/** The round function of ChaCha20 from outside: the worked quarter round of section 2.1.1 of
    RFC 8439, the double round as columns and diagonals of a 4 by 4 matrix (section 2.3),
    and the initial state as a byte string. */
module ChaChaRounds {
  import opened Bits
  import opened LittleEndian
  import opened ChaCha
  import opened Verify

  // ----- the quarter round on four words ------------------------------------------------------

  datatype Four = Four(a: Uint32, b: Uint32, c: Uint32, d: Uint32)

  /** The four lines of section 2.1. */
  function QuarterOf(x: Four): Four {
    var a1 := Add32(x.a, x.b);
    var d1 := Rotl(Xor32(x.d, a1), 16);
    var c1 := Add32(x.c, d1);
    var b1 := Rotl(Xor32(x.b, c1), 12);
    var a2 := Add32(a1, b1);
    var d2 := Rotl(Xor32(d1, a2), 8);
    var c2 := Add32(c1, d2);
    var b2 := Rotl(Xor32(b1, c2), 7);
    Four(a2, b2, c2, d2)
  }

  /** What remains below the bit of weight w. */
  function Below(x: nat, w: nat): nat {
    if x >= w then x - w else x
  }

  /** The bit of weight w. */
  function XorTop(x: nat, y: nat, w: nat): nat {
    if (x >= w) != (y >= w) then w else 0
  }

  /** One digit in base 16, from its top bit down. */
  function XorDigit(x: nat, y: nat): nat {
    var a, b := Below(x, 8), Below(y, 8);
    var c, d := Below(a, 4), Below(b, 4);
    XorTop(x, y, 8) + XorTop(a, b, 4) + XorTop(c, d, 2) + XorTop(Below(c, 2), Below(d, 2), 1)
  }

  lemma TopBit(x: nat, y: nat, n: nat, w: nat)
    requires w == Pow2(n) && x < 2 * w && y < 2 * w
    ensures Xor(x, y) == XorTop(x, y, w) + Xor(Below(x, w), Below(y, w))
    ensures Below(x, w) < w && Below(y, w) < w
  {
    hide Xor, Pow2;
    var p, q := if x >= w then 1 else 0, if y >= w then 1 else 0;
    XorParted(p, q, Below(x, w), Below(y, w), n);
    assert x == p * w + Below(x, w) && y == q * w + Below(y, w);
    XorStep(p, q);
    XorZero(0, 0);
  }

  lemma XorDigitIs(x: nat, y: nat)
    requires x < 16 && y < 16
    ensures Xor(x, y) == XorDigit(x, y)
  {
    hide Xor, Pow2, Below, XorTop;
    Powers();
    TopBit(x, y, 3, 8);
    var a, b := Below(x, 8), Below(y, 8);
    TopBit(a, b, 2, 4);
    var c, d := Below(a, 4), Below(b, 4);
    TopBit(c, d, 1, 2);
    TopBit(Below(c, 2), Below(d, 2), 0, 1);
    XorZero(0, 0);
  }

  /** Four digits in base 16, most significant first. */
  function Hex(a: nat, b: nat, c: nat, d: nat): nat {
    16 * (16 * (16 * a + b) + c) + d
  }

  lemma XorHex(a: nat, b: nat, c: nat, d: nat, e: nat, f: nat, g: nat, h: nat)
    requires a < 16 && b < 16 && c < 16 && d < 16 && e < 16 && f < 16 && g < 16 && h < 16
    ensures Xor(Hex(a, b, c, d), Hex(e, f, g, h)) == Hex(XorDigit(a, e), XorDigit(b, f), XorDigit(c, g), XorDigit(d, h))
  {
    hide Xor, XorDigit, Pow2;
    Powers();
    XorDigitIs(a, e);
    XorDigitIs(b, f);
    XorDigitIs(c, g);
    XorDigitIs(d, h);
    XorParted(a, e, b, f, 4);
    XorParted(16 * a + b, 16 * e + f, c, g, 4);
    XorParted(16 * (16 * a + b) + c, 16 * (16 * e + f) + g, d, h, 4);
  }

  lemma XorWord(a: nat, b: nat, x: nat, y: nat, r: nat, s: nat)
    requires a < 0x1_0000 && b < 0x1_0000 && x < 0x1_0000 && y < 0x1_0000 && Xor(a, b) == r && Xor(x, y) == s
    ensures Xor32(0x1_0000 * a + x, 0x1_0000 * b + y) == 0x1_0000 * r + s
  {
    hide Xor, Pow2;
    RotationPowers();
    XorParted(a, b, x, y, 16);
  }

  lemma Digits1()
    ensures XorDigit(0, 1) == 1 && XorDigit(1, 2) == 3 && XorDigit(2, 1) == 3 && XorDigit(3, 3) == 0
    ensures XorDigit(4, 1) == 5 && XorDigit(5, 4) == 1 && XorDigit(6, 1) == 7 && XorDigit(7, 5) == 2
  {}

  lemma Words1()
    ensures Xor32(0x01234567, 0x12131415) == 0x13305172
  {
    hide Xor, Xor32, XorDigit;
    Digits1();
    XorHex(0, 1, 2, 3, 1, 2, 1, 3);
    XorHex(4, 5, 6, 7, 1, 4, 1, 5);
    XorWord(0x0123, 0x1213, 0x4567, 0x1415, 0x1330, 0x5172);
  }

  lemma Digits2()
    ensures XorDigit(0, 14) == 14 && XorDigit(1, 12) == 13 && XorDigit(0, 15) == 15 && XorDigit(2, 15) == 13
    ensures XorDigit(0, 8) == 8 && XorDigit(3, 2) == 1 && XorDigit(0, 7) == 7 && XorDigit(4, 3) == 7
  {}

  lemma Words2()
    ensures Xor32(0x01020304, 0xecff8273) == 0xedfd8177
  {
    hide Xor, Xor32, XorDigit;
    Digits2();
    XorHex(0, 1, 0, 2, 14, 12, 15, 15);
    XorHex(0, 3, 0, 4, 8, 2, 7, 3);
    XorWord(0x0102, 0xecff, 0x0304, 0x8273, 0xedfd, 0x8177);
  }

  lemma Digits3()
    ensures XorDigit(5, 14) == 11 && XorDigit(1, 10) == 11 && XorDigit(7, 2) == 5 && XorDigit(2, 10) == 8
    ensures XorDigit(1, 9) == 8 && XorDigit(3, 2) == 1 && XorDigit(3, 15) == 12 && XorDigit(0, 4) == 4
  {}

  lemma Words3()
    ensures Xor32(0x51721330, 0xea2a92f4) == 0xbb5881c4
  {
    hide Xor, Xor32, XorDigit;
    Digits3();
    XorHex(5, 1, 7, 2, 14, 10, 2, 10);
    XorHex(1, 3, 3, 0, 9, 2, 15, 4);
    XorWord(0x5172, 0xea2a, 0x1330, 0x92f4, 0xbb58, 0x81c4);
  }

  lemma Digits4()
    ensures XorDigit(13, 4) == 9 && XorDigit(8, 5) == 13 && XorDigit(1, 8) == 9 && XorDigit(7, 1) == 6
    ensures XorDigit(7, 4) == 3 && XorDigit(14, 7) == 9 && XorDigit(13, 2) == 15 && XorDigit(15, 14) == 1
  {}

  lemma Words4()
    ensures Xor32(0xd8177edf, 0x4581472e) == 0x9d9639f1
  {
    hide Xor, Xor32, XorDigit;
    Digits4();
    XorHex(13, 8, 1, 7, 4, 5, 8, 1);
    XorHex(7, 14, 13, 15, 4, 7, 2, 14);
    XorWord(0xd817, 0x4581, 0x7edf, 0x472e, 0x9d96, 0x39f1);
  }

  lemma RotlBy(x: Uint32, n: nat, hi: nat, lo: nat, p: nat, q: nat)
    requires 0 < n < 32 && p == Pow2(n) && q == Pow2(32 - n) && hi < p && lo < q && x == hi * q + lo
    ensures Rotl(x, n) == lo * p + hi
  {
    hide Pow2, Rotl;
    RotlRotates(x, n, hi, lo);
  }

  lemma RotationPowers()
    ensures Pow2(7) == 0x80 && Pow2(8) == 0x100 && Pow2(12) == 0x1000 && Pow2(16) == 0x1_0000
    ensures Pow2(20) == 0x10_0000 && Pow2(24) == 0x100_0000 && Pow2(25) == 0x200_0000
  {
    hide Pow2;
    Powers();
    Pow2Add(8, 8);
    Pow2Add(8, 12);
    Pow2Add(12, 12);
    Pow2Add(24, 1);
  }

  /** The example of section 2.1.1. */
  lemma QuarterExample()
    ensures QuarterOf(Four(0x11111111, 0x01020304, 0x9b8d6f43, 0x01234567))
      == Four(0xea2a92f4, 0xcb1cf8ce, 0x4581472e, 0x5881c4bb)
  {
    hide Pow2, Rotl, Xor32;
    RotationPowers();
    Words1();
    RotlBy(0x13305172, 16, 0x1330, 0x5172, 0x1_0000, 0x1_0000);
    Words2();
    RotlBy(0xedfd8177, 12, 0xedf, 0xd8177, 0x1000, 0x10_0000);
    Words3();
    RotlBy(0xbb5881c4, 8, 0xbb, 0x5881c4, 0x100, 0x100_0000);
    Words4();
    RotlBy(0x9d9639f1, 7, 0x4e, 0x19639f1, 0x80, 0x200_0000);
  }

  // ----- columns and diagonals --------------------------------------------------------------------

  /** The words at four places. */
  function At(x: State, a: nat, b: nat, c: nat, d: nat): Four
    requires a < 16 && b < 16 && c < 16 && d < 16
  {
    Four(x[a], x[b], x[c], x[d])
  }

  predicate Apart(a: nat, b: nat, c: nat, d: nat) {
    a != b && a != c && a != d && b != c && b != d && c != d
  }

  lemma QuarterAt(x: State, a: nat, b: nat, c: nat, d: nat)
    requires a < 16 && b < 16 && c < 16 && d < 16 && Apart(a, b, c, d)
    ensures At(Quarter(x, a, b, c, d), a, b, c, d) == QuarterOf(At(x, a, b, c, d))
    ensures forall i :: 0 <= i < 16 && i != a && i != b && i != c && i != d ==> Quarter(x, a, b, c, d)[i] == x[i]
  {
    hide Rotl, Xor32, Add32;
  }

  /** Each of the four columns, or diagonals of step one, is mixed by itself: the word in row
      r of the one that starts in column k is in column (k + r * step) % 4. */
  predicate Mixed(x: State, y: State, step: nat) {
    forall k :: 0 <= k < 4 ==> Line(y, k, step) == QuarterOf(Line(x, k, step))
  }

  function Line(x: State, k: nat, step: nat): Four
    requires k < 4
  {
    At(x, k, 4 + (k + step) % 4, 8 + (k + 2 * step) % 4, 12 + (k + 3 * step) % 4)
  }

  /** All columns, then all diagonals. */
  lemma ColumnsThenDiagonals(x: State)
    ensures exists y: State :: Mixed(x, y, 0) && Mixed(y, DoubleRound(x), 1)
  {
    hide Quarter, QuarterOf;
    var y1 := Quarter(x, 0, 4, 8, 12);
    var y2 := Quarter(y1, 1, 5, 9, 13);
    var y3 := Quarter(y2, 2, 6, 10, 14);
    var y := Quarter(y3, 3, 7, 11, 15);
    QuarterAt(x, 0, 4, 8, 12);
    QuarterAt(y1, 1, 5, 9, 13);
    QuarterAt(y2, 2, 6, 10, 14);
    QuarterAt(y3, 3, 7, 11, 15);
    assert Mixed(x, y, 0);
    var z1 := Quarter(y, 0, 5, 10, 15);
    var z2 := Quarter(z1, 1, 6, 11, 12);
    var z3 := Quarter(z2, 2, 7, 8, 13);
    QuarterAt(y, 0, 5, 10, 15);
    QuarterAt(z1, 1, 6, 11, 12);
    QuarterAt(z2, 2, 7, 8, 13);
    QuarterAt(z3, 3, 4, 9, 14);
    assert Mixed(y, DoubleRound(x), 1);
  }

  // ----- the initial state ------------------------------------------------------------------------

  function Chars(s: string): (b: seq<Byte>)
    requires forall i :: 0 <= i < |s| ==> s[i] as int < 256
    ensures |b| == |s|
  {
    seq(|s|, i requires 0 <= i < |s| => s[i] as int)
  }

  /** In bytes, the initial state is the text, the key, the counter and the nonce. */
  lemma InitialBytes(key: seq<Byte>, counter: Uint32, nonce: seq<Byte>)
    requires |key| == 32 && |nonce| == 12
    ensures Serialized(Initial(key, counter, nonce))
      == Chars("expand 32-byte k") + key + ToLe(counter, 4) + nonce
  {
    hide Serialized, ToLe;
    var text: seq<Uint32> := [0x61707865, 0x3320646e, 0x79622d32, 0x6b206574];
    SerializedAppend(text + Words(key) + [counter], Words(nonce));
    SerializedAppend(text + Words(key), [counter]);
    SerializedAppend(text, Words(key));
    WordsBack(key);
    WordsBack(nonce);
    TextBytes();
    SerializedOne(counter);
  }

  lemma SerializedOne(x: Uint32)
    ensures Serialized([x]) == ToLe(x, 4)
  {
    hide ToLe;
    assert [x][1..] == [];
  }

  lemma TextBytes()
    ensures Serialized([0x61707865, 0x3320646e, 0x79622d32, 0x6b206574]) == Chars("expand 32-byte k")
  {
    hide Serialized, ToLe;
    TextWords();
    var w: seq<Uint32> := [0x61707865, 0x3320646e, 0x79622d32, 0x6b206574];
    SerializedAppend(w[..1], w[1..]);
    SerializedAppend(w[1..2], w[2..]);
    SerializedAppend(w[2..3], w[3..]);
    SerializedOne(w[0]);
    SerializedOne(w[1]);
    SerializedOne(w[2]);
    SerializedOne(w[3]);
    assert w == w[..1] + w[1..] && w[1..] == w[1..2] + w[2..] && w[2..] == w[2..3] + w[3..];
    assert Chars("expand 32-byte k")
      == [0x65, 0x78, 0x70, 0x61] + ([0x6e, 0x64, 0x20, 0x33] + ([0x32, 0x2d, 0x62, 0x79] + [0x74, 0x65, 0x20, 0x6b]));
    assert w[..1] == [w[0]] && w[1..2] == [w[1]] && w[2..3] == [w[2]] && w[3..] == [w[3]];
  }

  lemma TextWords()
    ensures ToLe(0x61707865, 4) == [0x65, 0x78, 0x70, 0x61] && ToLe(0x3320646e, 4) == [0x6e, 0x64, 0x20, 0x33]
    ensures ToLe(0x79622d32, 4) == [0x32, 0x2d, 0x62, 0x79] && ToLe(0x6b206574, 4) == [0x74, 0x65, 0x20, 0x6b]
  {
    hide ToLe;
    FourToLe(0x65, 0x78, 0x70, 0x61);
    FourToLe(0x6e, 0x64, 0x20, 0x33);
    FourToLe(0x32, 0x2d, 0x62, 0x79);
    FourToLe(0x74, 0x65, 0x20, 0x6b);
  }

  lemma FourToLe(a: Byte, b: Byte, c: Byte, d: Byte)
    ensures ToLe(a + 256 * (b + 256 * (c + 256 * d)), 4) == [a, b, c, d]
  {
    hide ToLe;
    var s: seq<Byte> := [a, b, c, d];
    assert s[1..] == [b, c, d] && [b, c, d][1..] == [c, d] && [c, d][1..] == [d] && [d][1..] == [];
    assert FromLe([d]) == d && FromLe([c, d]) == c + 256 * d;
    assert FromLe(s) == a + 256 * (b + 256 * (c + 256 * d));
    ToFromLe(s);
  }

  /** Little-endian words written out are the bytes they were read from. */
  lemma {:induction false} WordsBack(b: seq<Byte>)
    requires |b| % 4 == 0
    ensures Serialized(Words(b)) == b
    decreases |b|
  {
    hide ToLe, Word;
    if |b| > 0 {
      WordsBack(b[4..]);
      WordBytes(b);
      assert forall i :: 0 <= i < |b| / 4 - 1 ==> Words(b[4..])[i] == Words(b)[1..][i];
      assert Words(b)[1..] == Words(b[4..]);
    }
  }

  lemma WordBytes(b: seq<Byte>)
    requires |b| >= 4
    ensures ToLe(Word(b, 0), 4) == b[..4]
    ensures forall i :: 0 <= i && 4 * i + 8 <= |b| ==> Word(b[4..], 4 * i) == Word(b, 4 * i + 4)
  {
    hide FromLe, ToLe, Load32;
    var s := b[..4];
    WordFirst(s, 0);
    NoBytes();
    assert s[0..] == s && s[4..] == [] && Word(s, 0) == Word(b, 0);
    ToFromLe(s);
  }

  // ----- the key stream by its blocks -------------------------------------------------------------

  /** The state for a block number, which counts modulo 2^32. */
  function Counted(key: seq<Byte>, c: nat, nonce: seq<Byte>): State
    requires |key| == 32 && |nonce| == 12
  {
    Initial(key, c % 0x1_0000_0000, nonce)
  }

  lemma InitialAhead(key: seq<Byte>, c: nat, nonce: seq<Byte>)
    requires |key| == 32 && |nonce| == 12
    ensures Ahead(Counted(key, c, nonce), 1) == Counted(key, c + 1, nonce)
  {
    hide Word;
    var w: nat := c % 0x1_0000_0000;
    assert (w + 1) % 0x1_0000_0000 == (c + 1) % 0x1_0000_0000;
    var s := Initial(key, w, nonce);
    assert s[12] == w && s[..12] == [0x61707865, 0x3320646e, 0x79622d32, 0x6b206574] + Words(key);
  }

  /** Block k of the output is masked with the block function at counter c + k. */
  lemma {:induction false} StreamFrom(key: seq<Byte>, c: nat, nonce: seq<Byte>, data: seq<Byte>, k: nat)
    requires |key| == 32 && |nonce| == 12 && 64 * k < |data|
    ensures var e := Min(64 * k + 64, |data|);
      Stream(Counted(key, c, nonce), data)[64 * k..e] == XorBytes(data[64 * k..e], Block(Counted(key, c + k, nonce)))
    decreases k
  {
    hide Block, XorBytes, Stream, Ahead, Counted;
    var s := Counted(key, c, nonce);
    StreamStep(s, data);
    if k > 0 {
      var e := Min(64 * k + 64, |data|);
      InitialAhead(key, c, nonce);
      var rest := Stream(Counted(key, c + 1, nonce), data[64..]);
      StreamFrom(key, c + 1, nonce, data[64..], k - 1);
      Further(data, data[..64], data[64..], k, e);
      Further(Stream(s, data), XorBytes(data[..64], Block(s)), rest, k, e);
    }
  }

  lemma Further<T>(s: seq<T>, a: seq<T>, b: seq<T>, k: nat, e: nat)
    requires k > 0 && |a| == 64 && s == a + b && 64 * k <= e <= |s|
    ensures s[64 * k..e] == b[64 * (k - 1)..e - 64]
  {}
}
