/** The roots of unity of ntt.c: the table of Montgomery-form constants, the powers
    of 17 they stand for, and the square-root and inverse relations between them.

    Roots are numbered by the node of the splitting tree that uses them (see
    NttTree): node 1 is the root, node k has children 2k and 2k + 1. */
module Roots {
  import opened Bits
  import opened Zq

  /** One row of the table. */
  function Pick(j: nat, a: int, b: int, c: int, d: int, e: int, f: int, g: int, h: int): int {
    if j == 0 then a else if j == 1 then b else if j == 2 then c else if j == 3 then d
    else if j == 4 then e else if j == 5 then f else if j == 6 then g else h
  }

  /** The table PQCLEAN_MLKEM768_CLEAN_zetas (Montgomery form, signed). */
  function Zeta(k: nat): int
    requires k < 128
  {
    if k < 8 then Pick(k, -1044, -758, -359, -1517, 1493, 1422, 287, 202)
    else if k < 16 then Pick(k - 8, -171, 622, 1577, 182, 962, -1202, -1474, 1468)
    else if k < 24 then Pick(k - 16, 573, -1325, 264, 383, -829, 1458, -1602, -130)
    else if k < 32 then Pick(k - 24, -681, 1017, 732, 608, -1542, 411, -205, -1571)
    else if k < 40 then Pick(k - 32, 1223, 652, -552, 1015, -1293, 1491, -282, -1544)
    else if k < 48 then Pick(k - 40, 516, -8, -320, -666, -1618, -1162, 126, 1469)
    else if k < 56 then Pick(k - 48, -853, -90, -271, 830, 107, -1421, -247, -951)
    else if k < 64 then Pick(k - 56, -398, 961, -1508, -725, 448, -1065, 677, -1275)
    else if k < 72 then Pick(k - 64, -1103, 430, 555, 843, -1251, 871, 1550, 105)
    else if k < 80 then Pick(k - 72, 422, 587, 177, -235, -291, -460, 1574, 1653)
    else if k < 88 then Pick(k - 80, -246, 778, 1159, -147, -777, 1483, -602, 1119)
    else if k < 96 then Pick(k - 88, -1590, 644, -872, 349, 418, 329, -156, -75)
    else if k < 104 then Pick(k - 96, 817, 1097, 603, 610, 1322, -1285, -1465, 384)
    else if k < 112 then Pick(k - 104, -1215, -136, 1218, -1335, -874, 220, -1187, -1659)
    else if k < 120 then Pick(k - 112, -1185, -1530, -1278, 794, -1510, -854, -870, 478)
    else Pick(k - 120, -108, -308, 996, 991, 958, -1460, 1522, 1628)
  }

  function Pow(b: int, e: nat): int {
    if e == 0 then 1 else b * Pow(b, e - 1)
  }

  /** The n low bits of k in reverse order. */
  function BitRev(k: nat, n: nat): nat {
    if n == 0 then 0 else (if k % 2 == 1 then Pow2(n - 1) else 0) + BitRev(k / 2, n - 1)
  }

  function BitRev7(k: nat): nat {
    BitRev(k, 7)
  }

  /** The constant with which node k splits: 17^BitRev7(k). */
  function Root(k: nat): int {
    Pow(17, BitRev7(k))
  }

  // ----- powers ------------------------------------------------------------

  lemma {:induction false} PowAdd(b: int, d: nat, e: nat)
    ensures Pow(b, d + e) == Pow(b, d) * Pow(b, e)
  {
    if d > 0 {
      PowAdd(b, d - 1, e);
      assert b * (Pow(b, d - 1) * Pow(b, e)) == (b * Pow(b, d - 1)) * Pow(b, e);
    }
  }

  /** 17^(2d) is congruent to r * r when 17^d is congruent to r. */
  lemma PowDouble(d: nat, r: int, s: int)
    requires Cong(Pow(17, d), r) && Cong(r * r, s)
    ensures Cong(Pow(17, 2 * d), s)
  {
    hide Pow, Cong;
    PowAdd(17, d, d);
    CongMul(Pow(17, d), r, Pow(17, d), r);
    CongTrans(Pow(17, 2 * d), r * r, s);
  }

  lemma RootPowers()
    ensures Cong(Pow(17, 1), 17) && Cong(Pow(17, 2), 289) && Cong(Pow(17, 4), 296)
    ensures Cong(Pow(17, 8), 1062) && Cong(Pow(17, 16), 2642) && Cong(Pow(17, 32), 2580)
    ensures Cong(Pow(17, 64), 1729) && Cong(Pow(17, 128), -1)
  {
    assert Pow(17, 1) == 17 * Pow(17, 0);
    PowDouble(1, 17, 289);
    PowDouble(2, 289, 296);
    PowDouble(4, 296, 1062);
    PowDouble(8, 1062, 2642);
    PowDouble(16, 2642, 2580);
    PowDouble(32, 2580, 1729);
    PowDouble(64, 1729, -1);
  }

  // ----- the table against the powers of 17 ----------------------------------

  /** The highest power of two in k. */
  function TopBit(k: nat): (t: nat)
    ensures t > 0
  {
    if k < 2 then 1 else if k < 4 then 2 else if k < 8 then 4 else if k < 16 then 8
    else if k < 32 then 16 else if k < 64 then 32 else 64
  }

  /** 17^(64 / t) modulo q. */
  function TopRoot(t: nat): int {
    if t == 1 then 1729 else if t == 2 then 2580 else if t == 4 then 2642
    else if t == 8 then 1062 else if t == 16 then 296 else if t == 32 then 289 else 17
  }

  predicate EntryOk(k: nat)
    requires 0 < k < 128
  {
    && -1664 <= Zeta(k) <= 1664
    && TopBit(k) <= k
    && (Zeta(k) - TopRoot(TopBit(k)) * Zeta(k - TopBit(k))) % 3329 == 0
  }

  predicate EntriesOk(lo: nat, n: nat)
    requires 0 < lo && lo + n <= 128
  {
    n == 0 || (EntryOk(lo + n - 1) && EntriesOk(lo, n - 1))
  }

  lemma {:induction false} EntryIn(lo: nat, n: nat, k: nat)
    requires 0 < lo <= k < lo + n <= 128 && EntriesOk(lo, n)
    ensures EntryOk(k)
  {
    hide EntryOk;
    if k != lo + n - 1 {
      EntryIn(lo, n - 1, k);
    }
  }

  lemma Entries1() ensures EntriesOk(1, 7) {}
  lemma Entries8() ensures EntriesOk(8, 8) {}
  lemma Entries16() ensures EntriesOk(16, 8) {}
  lemma Entries24() ensures EntriesOk(24, 8) {}
  lemma Entries32() ensures EntriesOk(32, 8) {}
  lemma Entries40() ensures EntriesOk(40, 8) {}
  lemma Entries48() ensures EntriesOk(48, 8) {}
  lemma Entries56() ensures EntriesOk(56, 8) {}
  lemma Entries64() ensures EntriesOk(64, 8) {}
  lemma Entries72() ensures EntriesOk(72, 8) {}
  lemma Entries80() ensures EntriesOk(80, 8) {}
  lemma Entries88() ensures EntriesOk(88, 8) {}
  lemma Entries96() ensures EntriesOk(96, 8) {}
  lemma Entries104() ensures EntriesOk(104, 8) {}
  lemma Entries112() ensures EntriesOk(112, 8) {}
  lemma Entries120() ensures EntriesOk(120, 8) {}

  lemma EveryEntry(k: nat)
    requires 0 < k < 128
    ensures EntryOk(k)
  {
    hide EntryOk, EntriesOk;
    if k < 8 { Entries1(); EntryIn(1, 7, k); }
    else if k < 16 { Entries8(); EntryIn(8, 8, k); }
    else if k < 24 { Entries16(); EntryIn(16, 8, k); }
    else if k < 32 { Entries24(); EntryIn(24, 8, k); }
    else if k < 40 { Entries32(); EntryIn(32, 8, k); }
    else if k < 48 { Entries40(); EntryIn(40, 8, k); }
    else if k < 56 { Entries48(); EntryIn(48, 8, k); }
    else if k < 64 { Entries56(); EntryIn(56, 8, k); }
    else if k < 72 { Entries64(); EntryIn(64, 8, k); }
    else if k < 80 { Entries72(); EntryIn(72, 8, k); }
    else if k < 88 { Entries80(); EntryIn(80, 8, k); }
    else if k < 96 { Entries88(); EntryIn(88, 8, k); }
    else if k < 104 { Entries96(); EntryIn(96, 8, k); }
    else if k < 112 { Entries104(); EntryIn(104, 8, k); }
    else if k < 120 { Entries112(); EntryIn(112, 8, k); }
    else { Entries120(); EntryIn(120, 8, k); }
  }

  lemma {:induction false} BitRevTop(k: nat, l: nat, n: nat)
    requires Pow2(l) <= k < 2 * Pow2(l) && l < n
    ensures BitRev(k, n) == Pow2(n - 1 - l) + BitRev(k - Pow2(l), n)
  {
    if l > 0 {
      var p := Pow2(l - 1);
      assert (k - 2 * p) % 2 == k % 2 && (k - 2 * p) / 2 == k / 2 - p;
      BitRevTop(k / 2, l - 1, n - 1);
    }
  }

  lemma TopBitRev(k: nat)
    requires 0 < k < 128
    ensures TopBit(k) <= k
    ensures BitRev7(k) == 64 / TopBit(k) + BitRev7(k - TopBit(k))
  {
    hide BitRev, Pow2;
    Powers();
    if k < 2 { BitRevTop(k, 0, 7); }
    else if k < 4 { BitRevTop(k, 1, 7); }
    else if k < 8 { BitRevTop(k, 2, 7); }
    else if k < 16 { BitRevTop(k, 3, 7); }
    else if k < 32 { BitRevTop(k, 4, 7); }
    else if k < 64 { BitRevTop(k, 5, 7); }
    else { BitRevTop(k, 6, 7); }
  }

  /** Every table entry is its power of 17 in Montgomery form. */
  lemma {:induction false} ZetaIsRoot(k: nat)
    requires k < 128
    ensures Cong(Zeta(k), 65536 * Root(k))
    ensures -1664 <= Zeta(k) <= 1664
  {
    hide EntryOk, BitRev, Cong, Zeta, Pow, TopBit, TopRoot;
    if k == 0 {
      RootOne();
      ZetaZero();
    } else {
      EveryEntry(k);
      EntryMeans(k);
      TopBitRev(k);
      var t := TopBit(k);
      var c, z := TopRoot(t), 65536 * Root(k - t);
      ZetaIsRoot(k - t);
      PowAdd(17, 64 / t, BitRev7(k - t));
      TopRootPower(k);
      CongMul(c, Pow(17, 64 / t), Zeta(k - t), z);
      assert Pow(17, 64 / t) * z == 65536 * (Pow(17, 64 / t) * Root(k - t));
      CongTrans(Zeta(k), c * Zeta(k - t), 65536 * Root(k));
    }
  }

  lemma ZetaZero()
    ensures Cong(Zeta(0), 65536 * Pow(17, 0)) && -1664 <= Zeta(0) <= 1664
  {}

  lemma EntryMeans(k: nat)
    requires 0 < k < 128 && EntryOk(k)
    ensures -1664 <= Zeta(k) <= 1664
    ensures TopBit(k) <= k && Cong(Zeta(k), TopRoot(TopBit(k)) * Zeta(k - TopBit(k)))
  {}

  lemma TopRootPower(k: nat)
    requires 0 < k < 128
    ensures Cong(TopRoot(TopBit(k)), Pow(17, 64 / TopBit(k)))
  {
    hide Pow, Cong;
    RootPowers();
    CongSym(Pow(17, 64 / TopBit(k)), TopRoot(TopBit(k)));
  }

  // ----- moduli of the tree nodes ------------------------------------------

  /** Number of coefficients at node k. */
  function Size(k: nat): nat
    requires 1 <= k < 256
  {
    if k < 2 then 256 else if k < 4 then 128 else if k < 8 then 64 else if k < 16 then 32
    else if k < 32 then 16 else if k < 64 then 8 else if k < 128 then 4 else 2
  }

  lemma SizeOne()
    ensures Size(1) == 256
  {}

  lemma SizeHalf(k: nat)
    requires 2 <= k < 256
    ensures Size(k / 2) == 2 * Size(k)
  {}

  lemma SizeChild(k: nat)
    requires 1 <= k < 128
    ensures Size(k) == 2 * Size(2 * k) == 2 * Size(2 * k + 1)
    ensures Size(2 * k) % 2 == 0
  {}

  /** Node k is the ring Z[X]/(X^Size(k) - Modulus(k)). */
  function Modulus(k: nat): int
    requires 1 <= k < 256
  {
    if k == 1 then -1 else if k % 2 == 0 then Root(k / 2) else -Root(k / 2)
  }

  lemma {:induction false} BitRevShort(k: nat, n: nat)
    requires n > 0 && k < Pow2(n - 1)
    ensures BitRev(k, n) == 2 * BitRev(k, n - 1)
  {
    if n > 1 {
      BitRevShort(k / 2, n - 1);
    }
  }

  lemma BitRevChild(k: nat)
    requires k < 64
    ensures BitRev7(2 * k) * 2 == BitRev7(k)
    ensures BitRev7(2 * k + 1) == 64 + BitRev7(2 * k)
  {
    Powers();
    BitRevShort(k, 7);
    assert 2 * k / 2 == k && (2 * k + 1) / 2 == k;
  }

  lemma PowHalfTurn(e: nat)
    ensures Cong(Pow(17, 128 + e), -Pow(17, e))
  {
    RootPowers();
    PowAdd(17, 128, e);
    CongMul(Pow(17, 128), -1, Pow(17, e), Pow(17, e));
  }

  lemma RootOne()
    ensures BitRev7(1) == 64 && BitRev7(0) == 0
  {}

  /** The splitting constant of a node is a square root of its modulus constant. */
  lemma RootSquare(k: nat)
    requires 1 <= k < 128
    ensures Cong(Root(k) * Root(k), Modulus(k))
  {
    hide BitRev, Pow;
    PowAdd(17, BitRev7(k), BitRev7(k));
    if k == 1 {
      RootOne();
      RootPowers();
    } else {
      BitRevChild(k / 2);
      if k % 2 == 1 {
        PowHalfTurn(BitRev7(k / 2));
      }
    }
  }

  lemma ModulusOne()
    ensures Modulus(1) == -1
  {}

  lemma ModulusChild(k: nat)
    requires 1 <= k < 128
    ensures Modulus(2 * k) == Root(k) && Modulus(2 * k + 1) == -Root(k)
  {
    hide Root;
    assert 2 * k / 2 == k && (2 * k + 1) / 2 == k;
  }

  lemma ModulusSquare(k: nat)
    requires 2 <= k < 256
    ensures Cong(Modulus(k / 2), Modulus(k) * Modulus(k))
  {
    hide Root, Cong;
    RootSquare(k / 2);
    CongSym(Root(k / 2) * Root(k / 2), Modulus(k / 2));
    var z := Root(k / 2);
    assert (-z) * (-z) == z * z;
  }

  function Gamma(i: nat): int {
    Pow(17, 2 * BitRev7(i) + 1)
  }

  lemma LeafModulus(i: nat)
    requires i < 128
    ensures Cong(Gamma(i), Modulus(128 + i))
  {
    hide BitRev, Pow;
    var j := i / 2;
    Powers();
    BitRevTop(64 + j, 6, 7);
    BitRevChild(j);
    assert (128 + i) / 2 == 64 + j;
    if i % 2 == 1 {
      PowHalfTurn(BitRev7(64 + j));
    }
  }

  // ----- inverse roots --------------------------------------------------------

  /** The node whose root the inverse transform uses at node k: the nodes of a
      level in opposite order. */
  function Mirror(k: nat): nat
    requires 1 <= k < 128
    ensures 1 <= Mirror(k) < 128
  {
    3 * (256 / Size(k)) - 1 - k
  }

  lemma {:induction false} MirrorRoots(k: nat)
    requires 1 <= k < 128
    ensures BitRev7(k) + BitRev7(Mirror(k)) == 128
    decreases k
  {
    hide BitRev, BitRev7, Mirror;
    if k == 1 {
      RootOne();
      MirrorOne();
    } else {
      var j := k / 2;
      MirrorRoots(j);
      BitRevChild(j);
      MirrorHalf(k);
      BitRevChild(Mirror(j));
    }
  }

  lemma MirrorOne()
    ensures Mirror(1) == 1
  {}

  /** The mirror image of a child is the other child of the mirror image. */
  lemma MirrorHalf(k: nat)
    requires 2 <= k < 128
    ensures Mirror(k / 2) < 64 && Mirror(k) == 2 * Mirror(k / 2) + 1 - k % 2
  {
    LevelHalf(k);
    hide Size;
    assert k == 2 * (k / 2) + k % 2;
  }

  lemma LevelHalf(k: nat)
    requires 2 <= k < 128
    ensures 256 / Size(k) == 2 * (256 / Size(k / 2)) && 256 / Size(k / 2) <= k / 2
    ensures 256 / Size(k / 2) <= 32
  {}

  /** The mirrored root is minus the inverse. */
  lemma MirrorInverse(k: nat)
    requires 1 <= k < 128
    ensures Cong(Root(Mirror(k)) * Root(k), -1)
  {
    MirrorRoots(k);
    PowAdd(17, BitRev7(Mirror(k)), BitRev7(k));
    RootPowers();
  }
}
