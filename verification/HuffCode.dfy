/** The code of appendix B of RFC 7541 from outside its table: which symbols have which
    length, and that codes of one length ascend with the symbol. With the ranges of
    HuffTable this leaves no choice for any entry. */
module HuffCode {
  import opened Bits
  import opened HuffTable
  import opened Huffman

  /** The symbols with codes of l bits. */
  predicate HasLength(k: nat, l: nat) {
    // 0 1 2 a c e i o s t
    if l == 5 then 48 <= k <= 50 || k == 97 || k == 99 || k == 101 || k == 105 || k == 111 || 115 <= k <= 116
    // SP % - . / 3 4 5 6 7 8 9 = A _ b d f g h l m n p r u
    else if l == 6 then k == 32 || k == 37 || 45 <= k <= 47 || 51 <= k <= 57 || k == 61 || k == 65 || k == 95 ||
      k == 98 || k == 100 || 102 <= k <= 104 || 108 <= k <= 110 || k == 112 || k == 114 || k == 117
    // : B C D E F G H I J K L M N O P Q R S T U V W Y j k q v w x y z
    else if l == 7 then k == 58 || 66 <= k <= 87 || k == 89 || 106 <= k <= 107 || k == 113 || 118 <= k <= 122
    // & * , ; X Z
    else if l == 8 then k == 38 || k == 42 || k == 44 || k == 59 || k == 88 || k == 90
    // ! " ( ) ?
    else if l == 10 then 33 <= k <= 34 || 40 <= k <= 41 || k == 63
    // ' + |
    else if l == 11 then k == 39 || k == 43 || k == 124
    // # >
    else if l == 12 then k == 35 || k == 62
    // NUL $ @ [ ] ~
    else if l == 13 then k == 0 || k == 36 || k == 64 || k == 91 || k == 93 || k == 126
    // ^ }
    else if l == 14 then k == 94 || k == 125
    // < ` {
    else if l == 15 then k == 60 || k == 96 || k == 123
    else if l == 19 then k == 92 || k == 195 || k == 208
    else if l == 20 then k == 128 || 130 <= k <= 131 || k == 162 || k == 184 || k == 194 || k == 224 || k == 226
    else if l == 21 then k == 153 || k == 161 || k == 167 || k == 172 || 176 <= k <= 177 || k == 179 || k == 209 ||
      216 <= k <= 217 || k == 227 || 229 <= k <= 230
    else if l == 22 then k == 129 || 132 <= k <= 134 || k == 136 || k == 146 || k == 154 || k == 156 || k == 160 ||
      163 <= k <= 164 || 169 <= k <= 170 || k == 173 || k == 178 || k == 181 || 185 <= k <= 187 ||
      189 <= k <= 190 || k == 196 || k == 198 || k == 228 || 232 <= k <= 233
    else if l == 23 then k == 1 || k == 135 || 137 <= k <= 141 || k == 143 || k == 147 || 149 <= k <= 152 ||
      k == 155 || 157 <= k <= 158 || 165 <= k <= 166 || k == 168 || 174 <= k <= 175 || k == 180 ||
      182 <= k <= 183 || k == 188 || k == 191 || k == 197 || k == 231 || k == 239
    else if l == 24 then k == 9 || k == 142 || 144 <= k <= 145 || k == 148 || k == 159 || k == 171 || k == 206 ||
      k == 215 || k == 225 || 236 <= k <= 237
    else if l == 25 then k == 199 || k == 207 || 234 <= k <= 235
    else if l == 26 then 192 <= k <= 193 || 200 <= k <= 202 || k == 205 || k == 210 || k == 213 ||
      218 <= k <= 219 || k == 238 || k == 240 || 242 <= k <= 243 || k == 255
    else if l == 27 then 203 <= k <= 204 || 211 <= k <= 212 || k == 214 || 221 <= k <= 223 || k == 241 ||
      244 <= k <= 248 || 250 <= k <= 254
    else if l == 28 then 2 <= k <= 8 || 11 <= k <= 12 || 14 <= k <= 21 || 23 <= k <= 31 || k == 127 || k == 220 ||
      k == 249
    else if l == 30 then k == 10 || k == 13 || k == 22
    else false
  }

  lemma Listed0(k: nat) requires 0 <= k < 16 ensures HasLength(k, Length(k)) {}
  lemma Listed16(k: nat) requires 16 <= k < 32 ensures HasLength(k, Length(k)) {}
  lemma Listed32(k: nat) requires 32 <= k < 48 ensures HasLength(k, Length(k)) {}
  lemma Listed48(k: nat) requires 48 <= k < 64 ensures HasLength(k, Length(k)) {}
  lemma Listed64(k: nat) requires 64 <= k < 80 ensures HasLength(k, Length(k)) {}
  lemma Listed80(k: nat) requires 80 <= k < 96 ensures HasLength(k, Length(k)) {}
  lemma Listed96(k: nat) requires 96 <= k < 112 ensures HasLength(k, Length(k)) {}
  lemma Listed112(k: nat) requires 112 <= k < 128 ensures HasLength(k, Length(k)) {}
  lemma Listed128(k: nat) requires 128 <= k < 144 ensures HasLength(k, Length(k)) {}
  lemma Listed144(k: nat) requires 144 <= k < 160 ensures HasLength(k, Length(k)) {}
  lemma Listed160(k: nat) requires 160 <= k < 176 ensures HasLength(k, Length(k)) {}
  lemma Listed176(k: nat) requires 176 <= k < 192 ensures HasLength(k, Length(k)) {}
  lemma Listed192(k: nat) requires 192 <= k < 208 ensures HasLength(k, Length(k)) {}
  lemma Listed208(k: nat) requires 208 <= k < 224 ensures HasLength(k, Length(k)) {}
  lemma Listed224(k: nat) requires 224 <= k < 240 ensures HasLength(k, Length(k)) {}
  lemma Listed240(k: nat) requires 240 <= k < 256 ensures HasLength(k, Length(k)) {}

  lemma Listed(k: nat)
    requires k < 256
    ensures HasLength(k, Length(k))
  {
    hide HasLength, Length;
    if k < 16 { Listed0(k); }
    else if k < 32 { Listed16(k); }
    else if k < 48 { Listed32(k); }
    else if k < 64 { Listed48(k); }
    else if k < 80 { Listed64(k); }
    else if k < 96 { Listed80(k); }
    else if k < 112 { Listed96(k); }
    else if k < 128 { Listed112(k); }
    else if k < 144 { Listed128(k); }
    else if k < 160 { Listed144(k); }
    else if k < 176 { Listed160(k); }
    else if k < 192 { Listed176(k); }
    else if k < 208 { Listed192(k); }
    else if k < 224 { Listed208(k); }
    else if k < 240 { Listed224(k); }
    else { Listed240(k); }
  }

  lemma Members5(k: nat) requires HasLength(k, 5) ensures k < 256 && Length(k) == 5 {}
  lemma Members6(k: nat) requires HasLength(k, 6) ensures k < 256 && Length(k) == 6 {}
  lemma Members7(k: nat) requires HasLength(k, 7) ensures k < 256 && Length(k) == 7 {}
  lemma Members8(k: nat) requires HasLength(k, 8) ensures k < 256 && Length(k) == 8 {}
  lemma Members10(k: nat) requires HasLength(k, 10) ensures k < 256 && Length(k) == 10 {}
  lemma Members11(k: nat) requires HasLength(k, 11) ensures k < 256 && Length(k) == 11 {}
  lemma Members12(k: nat) requires HasLength(k, 12) ensures k < 256 && Length(k) == 12 {}
  lemma Members13(k: nat) requires HasLength(k, 13) ensures k < 256 && Length(k) == 13 {}
  lemma Members14(k: nat) requires HasLength(k, 14) ensures k < 256 && Length(k) == 14 {}
  lemma Members15(k: nat) requires HasLength(k, 15) ensures k < 256 && Length(k) == 15 {}
  lemma Members19(k: nat) requires HasLength(k, 19) ensures k < 256 && Length(k) == 19 {}
  lemma Members20(k: nat) requires HasLength(k, 20) ensures k < 256 && Length(k) == 20 {}
  lemma Members21(k: nat) requires HasLength(k, 21) ensures k < 256 && Length(k) == 21 {}
  lemma Members22(k: nat) requires HasLength(k, 22) ensures k < 256 && Length(k) == 22 {}
  lemma Members23(k: nat) requires HasLength(k, 23) ensures k < 256 && Length(k) == 23 {}
  lemma Members24(k: nat) requires HasLength(k, 24) ensures k < 256 && Length(k) == 24 {}
  lemma Members25(k: nat) requires HasLength(k, 25) ensures k < 256 && Length(k) == 25 {}
  lemma Members26(k: nat) requires HasLength(k, 26) ensures k < 256 && Length(k) == 26 {}
  lemma Members27(k: nat) requires HasLength(k, 27) ensures k < 256 && Length(k) == 27 {}
  lemma Members28(k: nat) requires HasLength(k, 28) ensures k < 256 && Length(k) == 28 {}
  lemma Members30(k: nat) requires HasLength(k, 30) ensures k < 256 && Length(k) == 30 {}

  lemma NoMembers(k: nat, l: nat)
    requires l < 5 || l == 9 || 16 <= l <= 18 || l == 29 || l > 30
    ensures !HasLength(k, l)
  {}

  lemma Members(k: nat, l: nat)
    requires HasLength(k, l)
    ensures k < 256 && Length(k) == l
  {
    hide HasLength, Length;
    if l == 5 { Members5(k); }
    else if l == 6 { Members6(k); }
    else if l == 7 { Members7(k); }
    else if l == 8 { Members8(k); }
    else if l == 10 { Members10(k); }
    else if l == 11 { Members11(k); }
    else if l == 12 { Members12(k); }
    else if l == 13 { Members13(k); }
    else if l == 14 { Members14(k); }
    else if l == 15 { Members15(k); }
    else if l == 19 { Members19(k); }
    else if l == 20 { Members20(k); }
    else if l == 21 { Members21(k); }
    else if l == 22 { Members22(k); }
    else if l == 23 { Members23(k); }
    else if l == 24 { Members24(k); }
    else if l == 25 { Members25(k); }
    else if l == 26 { Members26(k); }
    else if l == 27 { Members27(k); }
    else if l == 28 { Members28(k); }
    else if l == 30 { Members30(k); }
    else { NoMembers(k, l); }
  }

  /** The length of every code, symbol by symbol. */
  lemma LengthIs(k: nat, l: nat)
    requires k < 256
    ensures Length(k) == l <==> HasLength(k, l)
  {
    hide HasLength, Length;
    Listed(k);
    if HasLength(k, l) {
      Members(k, l);
    }
  }

  // ----- the order within a length ------------------------------------------------------------

  /** A place where a new length starts. */
  predicate Starts(p: nat) {
    p in {0, 10, 36, 68, 74, 79, 82, 84, 90, 92, 95, 98, 106, 119, 145, 174, 186, 190, 205, 224, 253}
  }

  predicate Rises(p: nat)
    requires p < 256
  {
    p == 255 || Starts(p + 1) || Ordered(p) < Ordered(p + 1)
  }

  lemma Rises0(p: nat) requires 0 <= p < 16 ensures Rises(p) {}
  lemma Rises16(p: nat) requires 16 <= p < 32 ensures Rises(p) {}
  lemma Rises32(p: nat) requires 32 <= p < 48 ensures Rises(p) {}
  lemma Rises48(p: nat) requires 48 <= p < 64 ensures Rises(p) {}
  lemma Rises64(p: nat) requires 64 <= p < 80 ensures Rises(p) {}
  lemma Rises80(p: nat) requires 80 <= p < 96 ensures Rises(p) {}
  lemma Rises96(p: nat) requires 96 <= p < 112 ensures Rises(p) {}
  lemma Rises112(p: nat) requires 112 <= p < 128 ensures Rises(p) {}
  lemma Rises128(p: nat) requires 128 <= p < 144 ensures Rises(p) {}
  lemma Rises144(p: nat) requires 144 <= p < 160 ensures Rises(p) {}
  lemma Rises160(p: nat) requires 160 <= p < 176 ensures Rises(p) {}
  lemma Rises176(p: nat) requires 176 <= p < 192 ensures Rises(p) {}
  lemma Rises192(p: nat) requires 192 <= p < 208 ensures Rises(p) {}
  lemma Rises208(p: nat) requires 208 <= p < 224 ensures Rises(p) {}
  lemma Rises224(p: nat) requires 224 <= p < 240 ensures Rises(p) {}
  lemma Rises240(p: nat) requires 240 <= p < 256 ensures Rises(p) {}

  lemma AllRise(p: nat)
    requires p < 256
    ensures Rises(p)
  {
    hide Rises;
    if p < 16 { Rises0(p); }
    else if p < 32 { Rises16(p); }
    else if p < 48 { Rises32(p); }
    else if p < 64 { Rises48(p); }
    else if p < 80 { Rises64(p); }
    else if p < 96 { Rises80(p); }
    else if p < 112 { Rises96(p); }
    else if p < 128 { Rises112(p); }
    else if p < 144 { Rises128(p); }
    else if p < 160 { Rises144(p); }
    else if p < 176 { Rises160(p); }
    else if p < 192 { Rises176(p); }
    else if p < 208 { Rises192(p); }
    else if p < 224 { Rises208(p); }
    else if p < 240 { Rises224(p); }
    else { Rises240(p); }
  }

  lemma NoStartInside(l: nat, p: nat)
    requires 5 <= l <= 30 && Base(l) < p < Base(l) + Count(l)
    ensures p < 256 && !Starts(p)
  {}

  lemma {:induction false} Ascending(l: nat, p: nat, q: nat)
    requires 5 <= l <= 30 && Base(l) <= p < q < Base(l) + Count(l)
    ensures p < q < 256 && Ordered(p) < Ordered(q)
    decreases q
  {
    hide Starts, Ordered, Base, Count;
    NoStartInside(l, q);
    AllRise(q - 1);
    if p < q - 1 {
      Ascending(l, p, q - 1);
    }
  }

  /** Codes of one length ascend with the symbol. */
  lemma CodesAscend(j: nat, k: nat)
    requires j < k < 256 && Length(j) == Length(k)
    ensures Code(j) < Code(k)
  {
    hide Code, Length, First, Count, Base, Ordered;
    EveryEntry(j);
    EveryEntry(k);
    var l := Length(j);
    if Code(k) < Code(j) {
      Ascending(l, Base(l) + Code(k) - First(l), Base(l) + Code(j) - First(l));
    }
  }

  // ----- an example of appendix C.6.1 of RFC 7541 ------------------------------------------------

  /** Bits of whole bytes pack into those bytes. */
  lemma {:induction false} PackInput(s: seq<Byte>)
    ensures Pack(InputBits(s)) == s
  {
    if |s| > 0 {
      hide Bin, Number;
      var w := InputBits(s);
      PackInput(s[1..]);
      Powers();
      NumberOfBin(s[0], 8);
      assert w[..8] == Bin(s[0], 8) && w[8..] == InputBits(s[1..]);
    }
  }

  /** A symbol of code x and length m in front of n bits. */
  lemma Prepend(k: Byte, x: nat, m: nat, s: seq<Byte>, i: nat, y: nat, n: nat, p: nat, z: nat)
    requires i < |s| && s[i] == k && Code(k) == x && Length(k) == m && p == Pow2(n) && z == x * p + y
    requires EncodeBits(s[i + 1..]) == Bin(y, n) && y < Pow2(n)
    ensures EncodeBits(s[i..]) == Bin(z, m + n) && z < Pow2(m + n)
  {
    hide Code, Length, Bin, EncodeBits, Pow2, First, Count, Base, Ordered;
    EncodeStep(s[i..]);
    assert s[i..][1..] == s[i + 1..];
    BinJoin(x, m, y, n);
    Entry(k);
    Pow2Add(m, n);
    assert (x + 1) * p == x * p + p;
    ScaleAtMost(x + 1, Pow2(m), p);
  }

  lemma ScaleAtMost(a: nat, b: nat, c: nat)
    requires a <= b
    ensures a * c <= b * c
  {}

  lemma EncodeStep(s: seq<Byte>)
    ensures EncodeBits(s) == if |s| == 0 then [] else CodeBits(s[0]) + EncodeBits(s[1..])
  {}

  lemma SomePowers()
    ensures Pow2(0) == 1 && Pow2(5) == 32 && Pow2(10) == 1024 && Pow2(15) == 0x8000 && Pow2(22) == 0x40_0000
    ensures Pow2(27) == 0x800_0000 && Pow2(33) == 0x2_0000_0000
  {
    hide Pow2;
    Powers();
    Pow2Add(10, 5);
    Pow2Add(10, 12);
    Pow2Add(22, 5);
    Pow2Add(27, 6);
  }

  lemma CodesOfPrivate()
    ensures Code(112) == 0x2b && Code(114) == 0x2c && Code(105) == 6 && Code(118) == 0x77
    ensures Code(97) == 3 && Code(116) == 9 && Code(101) == 5
    ensures Length(112) == 6 && Length(114) == 6 && Length(105) == 5 && Length(118) == 7
    ensures Length(97) == 5 && Length(116) == 5 && Length(101) == 5
  {}

  lemma BitsOfPrivate()
    ensures EncodeBits([112, 114, 105, 118, 97, 116, 101]) == Bin(0x57_61bb_8d25, 39)
  {
    hide Code, Length, EncodeBits, Bin, Pow2;
    SomePowers();
    CodesOfPrivate();
    EncodeStep([]);
    NoBits();
    var s: seq<Byte> := [112, 114, 105, 118, 97, 116, 101];
    assert s[7..] == [];
    Prepend(101, 5, 5, s, 6, 0, 0, 1, 5);
    Prepend(116, 9, 5, s, 5, 5, 5, 32, 0x125);
    Prepend(97, 3, 5, s, 4, 0x125, 10, 1024, 0xd25);
    Prepend(118, 0x77, 7, s, 3, 0xd25, 15, 0x8000, 0x3b_8d25);
    Prepend(105, 6, 5, s, 2, 0x3b_8d25, 22, 0x40_0000, 0x1bb_8d25);
    Prepend(114, 0x2c, 6, s, 1, 0x1bb_8d25, 27, 0x800_0000, 0x1_61bb_8d25);
    Prepend(112, 0x2b, 6, s, 0, 0x1_61bb_8d25, 33, 0x2_0000_0000, 0x57_61bb_8d25);
    assert s[0..] == s;
  }

  lemma NoBits()
    ensures Bin(0, 0) == []
  {}

  /** "private" is five octets, and those decode to it. */
  lemma EncodesPrivate()
    ensures Encode([112, 114, 105, 118, 97, 116, 101]) == [0xae, 0xc3, 0x77, 0x1a, 0x4b]
    ensures Truncated(Symbols(InputBits([0xae, 0xc3, 0x77, 0x1a, 0x4b])), 7) == [112, 114, 105, 118, 97, 116, 101]
  {
    hide Bin, EncodeBits, Pack, InputBits, Symbols;
    RoundTrip([112, 114, 105, 118, 97, 116, 101], 8);
    BitsOfPrivate();
    PadOne(Bin(0x57_61bb_8d25, 39));
    BinStep(0x57_61bb_8d25, 1, 40);
    FiveBytes(0xae, 0xc3, 0x77, 0x1a, 0x4b);
    PackInput([0xae, 0xc3, 0x77, 0x1a, 0x4b]);
  }

  lemma PadOne(w: seq<Bit>)
    requires |w| == 39
    ensures Padded(w) == w + [1]
  {
    assert -|w| % 8 == 1 && Ones(1) == [1];
  }

  lemma FiveBytes(a: Byte, b: Byte, c: Byte, d: Byte, e: Byte)
    ensures InputBits([a, b, c, d, e]) == Bin((((a * 256 + b) * 256 + c) * 256 + d) * 256 + e, 40)
  {
    hide Bin, InputBits, Pow2;
    Powers();
    FirstInput([a, b, c, d, e]);
    FirstInput([b, c, d, e]);
    FirstInput([c, d, e]);
    FirstInput([d, e]);
    FirstInput([e]);
    NoInput();
    BinJoin(a, 8, b, 8);
    BinJoin(a * 256 + b, 16, c, 8);
    BinJoin((a * 256 + b) * 256 + c, 24, d, 8);
    BinJoin(((a * 256 + b) * 256 + c) * 256 + d, 32, e, 8);
    assert [a, b, c, d, e][1..] == [b, c, d, e] && [b, c, d, e][1..] == [c, d, e] && [c, d, e][1..] == [d, e];
    assert [d, e][1..] == [e] && [e][1..] == [];
  }

  lemma NoInput()
    ensures InputBits([]) == []
  {}
}
