/** The Huffman table of qpack.c (appendix B of RFC 7541): the 256 codes, and that they
    are the canonical prefix-free code of their lengths. */
module HuffTable {
  import opened Bits

  /** One row of a table. */
  function Pick(j: nat, a: nat, b: nat, c: nat, d: nat, e: nat, f: nat, g: nat, h: nat): nat {
    if j == 0 then a else if j == 1 then b else if j == 2 then c else if j == 3 then d
    else if j == 4 then e else if j == 5 then f else if j == 6 then g else h
  }

  /** The code of a symbol, as an integer. */
  function Code(k: nat): nat
    requires k < 256
  {
    if k < 64 then
      if k < 8 then Pick(k, 0x1ff8, 0x7fffd8, 0xfffffe2, 0xfffffe3, 0xfffffe4, 0xfffffe5, 0xfffffe6, 0xfffffe7)
      else if k < 16 then Pick(k - 8, 0xfffffe8, 0xffffea, 0x3ffffffc, 0xfffffe9, 0xfffffea, 0x3ffffffd,
        0xfffffeb, 0xfffffec)
      else if k < 24 then Pick(k - 16, 0xfffffed, 0xfffffee, 0xfffffef, 0xffffff0, 0xffffff1, 0xffffff2,
        0x3ffffffe, 0xffffff3)
      else if k < 32 then Pick(k - 24, 0xffffff4, 0xffffff5, 0xffffff6, 0xffffff7, 0xffffff8, 0xffffff9,
        0xffffffa, 0xffffffb)
      else if k < 40 then Pick(k - 32, 0x14, 0x3f8, 0x3f9, 0xffa, 0x1ff9, 0x15, 0xf8, 0x7fa)
      else if k < 48 then Pick(k - 40, 0x3fa, 0x3fb, 0xf9, 0x7fb, 0xfa, 0x16, 0x17, 0x18)
      else if k < 56 then Pick(k - 48, 0x0, 0x1, 0x2, 0x19, 0x1a, 0x1b, 0x1c, 0x1d)
      else Pick(k - 56, 0x1e, 0x1f, 0x5c, 0xfb, 0x7ffc, 0x20, 0xffb, 0x3fc)
    else if k < 128 then
      if k < 72 then Pick(k - 64, 0x1ffa, 0x21, 0x5d, 0x5e, 0x5f, 0x60, 0x61, 0x62)
      else if k < 80 then Pick(k - 72, 0x63, 0x64, 0x65, 0x66, 0x67, 0x68, 0x69, 0x6a)
      else if k < 88 then Pick(k - 80, 0x6b, 0x6c, 0x6d, 0x6e, 0x6f, 0x70, 0x71, 0x72)
      else if k < 96 then Pick(k - 88, 0xfc, 0x73, 0xfd, 0x1ffb, 0x7fff0, 0x1ffc, 0x3ffc, 0x22)
      else if k < 104 then Pick(k - 96, 0x7ffd, 0x3, 0x23, 0x4, 0x24, 0x5, 0x25, 0x26)
      else if k < 112 then Pick(k - 104, 0x27, 0x6, 0x74, 0x75, 0x28, 0x29, 0x2a, 0x7)
      else if k < 120 then Pick(k - 112, 0x2b, 0x76, 0x2c, 0x8, 0x9, 0x2d, 0x77, 0x78)
      else Pick(k - 120, 0x79, 0x7a, 0x7b, 0x7ffe, 0x7fc, 0x3ffd, 0x1ffd, 0xffffffc)
    else if k < 192 then
      if k < 136 then Pick(k - 128, 0xfffe6, 0x3fffd2, 0xfffe7, 0xfffe8, 0x3fffd3, 0x3fffd4, 0x3fffd5, 0x7fffd9)
      else if k < 144 then Pick(k - 136, 0x3fffd6, 0x7fffda, 0x7fffdb, 0x7fffdc, 0x7fffdd, 0x7fffde, 0xffffeb,
        0x7fffdf)
      else if k < 152 then Pick(k - 144, 0xffffec, 0xffffed, 0x3fffd7, 0x7fffe0, 0xffffee, 0x7fffe1, 0x7fffe2,
        0x7fffe3)
      else if k < 160 then Pick(k - 152, 0x7fffe4, 0x1fffdc, 0x3fffd8, 0x7fffe5, 0x3fffd9, 0x7fffe6, 0x7fffe7,
        0xffffef)
      else if k < 168 then Pick(k - 160, 0x3fffda, 0x1fffdd, 0xfffe9, 0x3fffdb, 0x3fffdc, 0x7fffe8, 0x7fffe9,
        0x1fffde)
      else if k < 176 then Pick(k - 168, 0x7fffea, 0x3fffdd, 0x3fffde, 0xfffff0, 0x1fffdf, 0x3fffdf, 0x7fffeb,
        0x7fffec)
      else if k < 184 then Pick(k - 176, 0x1fffe0, 0x1fffe1, 0x3fffe0, 0x1fffe2, 0x7fffed, 0x3fffe1, 0x7fffee,
        0x7fffef)
      else Pick(k - 184, 0xfffea, 0x3fffe2, 0x3fffe3, 0x3fffe4, 0x7ffff0, 0x3fffe5, 0x3fffe6, 0x7ffff1)
    else
      if k < 200 then Pick(k - 192, 0x3ffffe0, 0x3ffffe1, 0xfffeb, 0x7fff1, 0x3fffe7, 0x7ffff2, 0x3fffe8, 0x1ffffec)
      else if k < 208 then Pick(k - 200, 0x3ffffe2, 0x3ffffe3, 0x3ffffe4, 0x7ffffde, 0x7ffffdf, 0x3ffffe5,
        0xfffff1, 0x1ffffed)
      else if k < 216 then Pick(k - 208, 0x7fff2, 0x1fffe3, 0x3ffffe6, 0x7ffffe0, 0x7ffffe1, 0x3ffffe7,
        0x7ffffe2, 0xfffff2)
      else if k < 224 then Pick(k - 216, 0x1fffe4, 0x1fffe5, 0x3ffffe8, 0x3ffffe9, 0xffffffd, 0x7ffffe3,
        0x7ffffe4, 0x7ffffe5)
      else if k < 232 then Pick(k - 224, 0xfffec, 0xfffff3, 0xfffed, 0x1fffe6, 0x3fffe9, 0x1fffe7, 0x1fffe8, 0x7ffff3)
      else if k < 240 then Pick(k - 232, 0x3fffea, 0x3fffeb, 0x1ffffee, 0x1ffffef, 0xfffff4, 0xfffff5,
        0x3ffffea, 0x7ffff4)
      else if k < 248 then Pick(k - 240, 0x3ffffeb, 0x7ffffe6, 0x3ffffec, 0x3ffffed, 0x7ffffe7, 0x7ffffe8,
        0x7ffffe9, 0x7ffffea)
      else Pick(k - 248, 0x7ffffeb, 0xffffffe, 0x7ffffec, 0x7ffffed, 0x7ffffee, 0x7ffffef, 0x7fffff0, 0x3ffffee)
  }

  /** The length of the code, in bits. */
  function Length(k: nat): (l: nat)
    requires k < 256
    ensures 5 <= l <= 30
  {
    if k < 64 then
      if k < 8 then Pick(k, 13, 23, 28, 28, 28, 28, 28, 28)
      else if k < 16 then Pick(k - 8, 28, 24, 30, 28, 28, 30, 28, 28)
      else if k < 24 then Pick(k - 16, 28, 28, 28, 28, 28, 28, 30, 28)
      else if k < 32 then Pick(k - 24, 28, 28, 28, 28, 28, 28, 28, 28)
      else if k < 40 then Pick(k - 32, 6, 10, 10, 12, 13, 6, 8, 11)
      else if k < 48 then Pick(k - 40, 10, 10, 8, 11, 8, 6, 6, 6)
      else if k < 56 then Pick(k - 48, 5, 5, 5, 6, 6, 6, 6, 6)
      else Pick(k - 56, 6, 6, 7, 8, 15, 6, 12, 10)
    else if k < 128 then
      if k < 72 then Pick(k - 64, 13, 6, 7, 7, 7, 7, 7, 7)
      else if k < 80 then Pick(k - 72, 7, 7, 7, 7, 7, 7, 7, 7)
      else if k < 88 then Pick(k - 80, 7, 7, 7, 7, 7, 7, 7, 7)
      else if k < 96 then Pick(k - 88, 8, 7, 8, 13, 19, 13, 14, 6)
      else if k < 104 then Pick(k - 96, 15, 5, 6, 5, 6, 5, 6, 6)
      else if k < 112 then Pick(k - 104, 6, 5, 7, 7, 6, 6, 6, 5)
      else if k < 120 then Pick(k - 112, 6, 7, 6, 5, 5, 6, 7, 7)
      else Pick(k - 120, 7, 7, 7, 15, 11, 14, 13, 28)
    else if k < 192 then
      if k < 136 then Pick(k - 128, 20, 22, 20, 20, 22, 22, 22, 23)
      else if k < 144 then Pick(k - 136, 22, 23, 23, 23, 23, 23, 24, 23)
      else if k < 152 then Pick(k - 144, 24, 24, 22, 23, 24, 23, 23, 23)
      else if k < 160 then Pick(k - 152, 23, 21, 22, 23, 22, 23, 23, 24)
      else if k < 168 then Pick(k - 160, 22, 21, 20, 22, 22, 23, 23, 21)
      else if k < 176 then Pick(k - 168, 23, 22, 22, 24, 21, 22, 23, 23)
      else if k < 184 then Pick(k - 176, 21, 21, 22, 21, 23, 22, 23, 23)
      else Pick(k - 184, 20, 22, 22, 22, 23, 22, 22, 23)
    else
      if k < 200 then Pick(k - 192, 26, 26, 20, 19, 22, 23, 22, 25)
      else if k < 208 then Pick(k - 200, 26, 26, 26, 27, 27, 26, 24, 25)
      else if k < 216 then Pick(k - 208, 19, 21, 26, 27, 27, 26, 27, 24)
      else if k < 224 then Pick(k - 216, 21, 21, 26, 26, 28, 27, 27, 27)
      else if k < 232 then Pick(k - 224, 20, 24, 20, 21, 22, 21, 21, 23)
      else if k < 240 then Pick(k - 232, 22, 22, 25, 25, 24, 24, 26, 23)
      else if k < 248 then Pick(k - 240, 26, 27, 26, 26, 27, 27, 27, 27)
      else Pick(k - 248, 27, 28, 27, 27, 27, 27, 27, 26)
  }

  /** The symbols in the order of their codes, shorter codes first. */
  function Ordered(k: nat): nat
    requires k < 256
  {
    if k < 64 then
      if k < 8 then Pick(k, 48, 49, 50, 97, 99, 101, 105, 111)
      else if k < 16 then Pick(k - 8, 115, 116, 32, 37, 45, 46, 47, 51)
      else if k < 24 then Pick(k - 16, 52, 53, 54, 55, 56, 57, 61, 65)
      else if k < 32 then Pick(k - 24, 95, 98, 100, 102, 103, 104, 108, 109)
      else if k < 40 then Pick(k - 32, 110, 112, 114, 117, 58, 66, 67, 68)
      else if k < 48 then Pick(k - 40, 69, 70, 71, 72, 73, 74, 75, 76)
      else if k < 56 then Pick(k - 48, 77, 78, 79, 80, 81, 82, 83, 84)
      else Pick(k - 56, 85, 86, 87, 89, 106, 107, 113, 118)
    else if k < 128 then
      if k < 72 then Pick(k - 64, 119, 120, 121, 122, 38, 42, 44, 59)
      else if k < 80 then Pick(k - 72, 88, 90, 33, 34, 40, 41, 63, 39)
      else if k < 88 then Pick(k - 80, 43, 124, 35, 62, 0, 36, 64, 91)
      else if k < 96 then Pick(k - 88, 93, 126, 94, 125, 60, 96, 123, 92)
      else if k < 104 then Pick(k - 96, 195, 208, 128, 130, 131, 162, 184, 194)
      else if k < 112 then Pick(k - 104, 224, 226, 153, 161, 167, 172, 176, 177)
      else if k < 120 then Pick(k - 112, 179, 209, 216, 217, 227, 229, 230, 129)
      else Pick(k - 120, 132, 133, 134, 136, 146, 154, 156, 160)
    else if k < 192 then
      if k < 136 then Pick(k - 128, 163, 164, 169, 170, 173, 178, 181, 185)
      else if k < 144 then Pick(k - 136, 186, 187, 189, 190, 196, 198, 228, 232)
      else if k < 152 then Pick(k - 144, 233, 1, 135, 137, 138, 139, 140, 141)
      else if k < 160 then Pick(k - 152, 143, 147, 149, 150, 151, 152, 155, 157)
      else if k < 168 then Pick(k - 160, 158, 165, 166, 168, 174, 175, 180, 182)
      else if k < 176 then Pick(k - 168, 183, 188, 191, 197, 231, 239, 9, 142)
      else if k < 184 then Pick(k - 176, 144, 145, 148, 159, 171, 206, 215, 225)
      else Pick(k - 184, 236, 237, 199, 207, 234, 235, 192, 193)
    else
      if k < 200 then Pick(k - 192, 200, 201, 202, 205, 210, 213, 218, 219)
      else if k < 208 then Pick(k - 200, 238, 240, 242, 243, 255, 203, 204, 211)
      else if k < 216 then Pick(k - 208, 212, 214, 221, 222, 223, 241, 244, 245)
      else if k < 224 then Pick(k - 216, 246, 247, 248, 250, 251, 252, 253, 254)
      else if k < 232 then Pick(k - 224, 2, 3, 4, 5, 6, 7, 8, 11)
      else if k < 240 then Pick(k - 232, 12, 14, 15, 16, 17, 18, 19, 20)
      else if k < 248 then Pick(k - 240, 21, 23, 24, 25, 26, 27, 28, 29)
      else Pick(k - 248, 30, 31, 127, 220, 249, 10, 13, 22)
  }

  /** The first code of length l. */
  function First(l: nat): nat {
    if l < 12 then
      if l == 5 then 0 else if l == 6 then 20 else if l == 7 then 92 else if l == 8 then 248 else
      if l == 9 then 508 else if l == 10 then 1016 else 2042
    else if l < 18 then
      if l == 12 then 4090 else if l == 13 then 8184 else if l == 14 then 16380 else
      if l == 15 then 32764 else if l == 16 then 65534 else 131068
    else if l < 24 then
      if l == 18 then 262136 else if l == 19 then 524272 else if l == 20 then 1048550 else
      if l == 21 then 2097116 else if l == 22 then 4194258 else 8388568
    else
      if l == 24 then 16777194 else if l == 25 then 33554412 else if l == 26 then 67108832 else
      if l == 27 then 134217694 else if l == 28 then 268435426 else if l == 29 then 536870910 else 1073741820
  }

  /** How many codes have length l. */
  function Count(l: nat): nat {
    if l < 12 then
      if l == 5 then 10 else if l == 6 then 26 else if l == 7 then 32 else if l == 8 then 6 else
      if l == 9 then 0 else if l == 10 then 5 else 3
    else if l < 18 then
      if l == 12 then 2 else if l == 13 then 6 else if l == 14 then 2 else if l == 15 then 3 else
      if l == 16 then 0 else 0
    else if l < 24 then
      if l == 18 then 0 else if l == 19 then 3 else if l == 20 then 8 else if l == 21 then 13 else
      if l == 22 then 26 else 29
    else
      if l == 24 then 12 else if l == 25 then 4 else if l == 26 then 15 else if l == 27 then 19 else
      if l == 28 then 29 else if l == 29 then 0 else 3
  }

  /** How many codes are shorter than l. */
  function Base(l: nat): nat {
    if l < 12 then
      if l == 5 then 0 else if l == 6 then 10 else if l == 7 then 36 else if l == 8 then 68 else
      if l == 9 then 74 else if l == 10 then 74 else 79
    else if l < 18 then
      if l == 12 then 82 else if l == 13 then 84 else if l == 14 then 90 else if l == 15 then 92 else
      if l == 16 then 95 else 95
    else if l < 24 then
      if l == 18 then 95 else if l == 19 then 95 else if l == 20 then 98 else if l == 21 then 106 else
      if l == 22 then 119 else 145
    else
      if l == 24 then 174 else if l == 25 then 186 else if l == 26 then 190 else if l == 27 then 205 else
      if l == 28 then 224 else if l == 29 then 253 else 253
  }

  // ----- every entry ----------------------------------------------------------------------

  /** The code is the expected one for its place among the codes of its length. */
  predicate EntryOk(k: nat)
    requires k < 256
  {
    var l := Length(k);
    && First(l) <= Code(k) < First(l) + Count(l)
    && Base(l) + Code(k) - First(l) < 256
    && Ordered(Base(l) + Code(k) - First(l)) == k
  }

  lemma Entries0(k: nat) requires 0 <= k < 8 ensures EntryOk(k) {}
  lemma Entries8(k: nat) requires 8 <= k < 16 ensures EntryOk(k) {}
  lemma Entries16(k: nat) requires 16 <= k < 24 ensures EntryOk(k) {}
  lemma Entries24(k: nat) requires 24 <= k < 32 ensures EntryOk(k) {}
  lemma Entries32(k: nat) requires 32 <= k < 40 ensures EntryOk(k) {}
  lemma Entries40(k: nat) requires 40 <= k < 48 ensures EntryOk(k) {}
  lemma Entries48(k: nat) requires 48 <= k < 56 ensures EntryOk(k) {}
  lemma Entries56(k: nat) requires 56 <= k < 64 ensures EntryOk(k) {}
  lemma Entries64(k: nat) requires 64 <= k < 72 ensures EntryOk(k) {}
  lemma Entries72(k: nat) requires 72 <= k < 80 ensures EntryOk(k) {}
  lemma Entries80(k: nat) requires 80 <= k < 88 ensures EntryOk(k) {}
  lemma Entries88(k: nat) requires 88 <= k < 96 ensures EntryOk(k) {}
  lemma Entries96(k: nat) requires 96 <= k < 104 ensures EntryOk(k) {}
  lemma Entries104(k: nat) requires 104 <= k < 112 ensures EntryOk(k) {}
  lemma Entries112(k: nat) requires 112 <= k < 120 ensures EntryOk(k) {}
  lemma Entries120(k: nat) requires 120 <= k < 128 ensures EntryOk(k) {}
  lemma Entries128(k: nat) requires 128 <= k < 136 ensures EntryOk(k) {}
  lemma Entries136(k: nat) requires 136 <= k < 144 ensures EntryOk(k) {}
  lemma Entries144(k: nat) requires 144 <= k < 152 ensures EntryOk(k) {}
  lemma Entries152(k: nat) requires 152 <= k < 160 ensures EntryOk(k) {}
  lemma Entries160(k: nat) requires 160 <= k < 168 ensures EntryOk(k) {}
  lemma Entries168(k: nat) requires 168 <= k < 176 ensures EntryOk(k) {}
  lemma Entries176(k: nat) requires 176 <= k < 184 ensures EntryOk(k) {}
  lemma Entries184(k: nat) requires 184 <= k < 192 ensures EntryOk(k) {}
  lemma Entries192(k: nat) requires 192 <= k < 200 ensures EntryOk(k) {}
  lemma Entries200(k: nat) requires 200 <= k < 208 ensures EntryOk(k) {}
  lemma Entries208(k: nat) requires 208 <= k < 216 ensures EntryOk(k) {}
  lemma Entries216(k: nat) requires 216 <= k < 224 ensures EntryOk(k) {}
  lemma Entries224(k: nat) requires 224 <= k < 232 ensures EntryOk(k) {}
  lemma Entries232(k: nat) requires 232 <= k < 240 ensures EntryOk(k) {}
  lemma Entries240(k: nat) requires 240 <= k < 248 ensures EntryOk(k) {}
  lemma Entries248(k: nat) requires 248 <= k < 256 ensures EntryOk(k) {}

  lemma EveryEntry(k: nat)
    requires k < 256
    ensures EntryOk(k)
  {
    hide EntryOk;
    if k < 8 { Entries0(k); }
    else if k < 16 { Entries8(k); }
    else if k < 24 { Entries16(k); }
    else if k < 32 { Entries24(k); }
    else if k < 40 { Entries32(k); }
    else if k < 48 { Entries40(k); }
    else if k < 56 { Entries48(k); }
    else if k < 64 { Entries56(k); }
    else if k < 72 { Entries64(k); }
    else if k < 80 { Entries72(k); }
    else if k < 88 { Entries80(k); }
    else if k < 96 { Entries88(k); }
    else if k < 104 { Entries96(k); }
    else if k < 112 { Entries104(k); }
    else if k < 120 { Entries112(k); }
    else if k < 128 { Entries120(k); }
    else if k < 136 { Entries128(k); }
    else if k < 144 { Entries136(k); }
    else if k < 152 { Entries144(k); }
    else if k < 160 { Entries152(k); }
    else if k < 168 { Entries160(k); }
    else if k < 176 { Entries168(k); }
    else if k < 184 { Entries176(k); }
    else if k < 192 { Entries184(k); }
    else if k < 200 { Entries192(k); }
    else if k < 208 { Entries200(k); }
    else if k < 216 { Entries208(k); }
    else if k < 224 { Entries216(k); }
    else if k < 232 { Entries224(k); }
    else if k < 240 { Entries232(k); }
    else if k < 248 { Entries240(k); }
    else { Entries248(k); }
  }

  // ----- codes of different lengths -----------------------------------------------------------

  /** The code is canonical: the codes of the next length start after those of this one. */
  lemma FirstStep(l: nat)
    requires 5 <= l < 30
    ensures First(l + 1) == 2 * (First(l) + Count(l))
  {}

  lemma {:induction false} Gap(l: nat, m: nat)
    requires 5 <= l < m <= 30
    ensures (First(l) + Count(l)) * Pow2(m - l) <= First(m)
    decreases m
  {
    hide First, Count;
    FirstStep(m - 1);
    if l < m - 1 {
      Gap(l, m - 1);
      var x, p := First(l) + Count(l), Pow2(m - 1 - l);
      assert Pow2(m - l) == 2 * p;
      assert x * (2 * p) == 2 * (x * p);
    }
  }

  /** No code is all ones: that prefix is kept for the end of the string. */
  lemma BelowOnes(l: nat)
    requires 5 <= l <= 30
    ensures First(l) + Count(l) < Pow2(l)
  {
    hide First, Count;
    LastCode();
    if l < 30 {
      Gap(l, 30);
      Pow2Add(l, 30 - l);
      var x, p, q := First(l) + Count(l), Pow2(l), Pow2(30 - l);
      if x >= p {
        ScaleOrder(p, x, q);
      }
    }
  }

  lemma LastCode()
    ensures First(30) + Count(30) < Pow2(30) && First(30) < Pow2(30)
  {
    Pow2Add(15, 15);
    assert Pow2(15) == 32768;
  }
}
