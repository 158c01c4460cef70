/** Compression of coefficients: the rounding of section 4.2.1 of FIPS 203 and the
    multiply-and-shift formulas with which poly.c and polyvec.c compute it. */
module Compress {
  import opened Zq
  import opened Bits

  /** round(2^d * x / q) mod 2^d, halves rounded up. */
  function Round(d: nat, x: nat): (y: nat)
    ensures y < Pow2(d)
  {
    (2 * (Pow2(d) * x) + 3329) / 6658 % Pow2(d)
  }

  /** round(q * y / 2^d). */
  function Expand(d: nat, y: nat): nat {
    (2 * (3329 * y) + Pow2(d)) / (2 * Pow2(d))
  }

  /** The non-negative representative that the code forms with (u >> 15) & q. */
  function Lift(a: int): (x: nat)
    requires -3329 <= a < 4096
    ensures x < 4096
    ensures a < 3329 ==> x == a % 3329 && x < 3329
    ensures 0 <= a ==> x == a
  {
    (a % 65536 + (if a < 0 then 3329 else 0)) % 65536
  }

  /** The four-bit formula; the product wraps modulo 2^32. */
  function Code4(u: nat): nat {
    (16 * u + 1665) * 80635 % 4294967296 / 268435456 % 16
  }

  /** The ten-bit formula, in 64-bit arithmetic. */
  function Code10(u: nat): nat {
    (1024 * u + 1665) * 1290167 % 18446744073709551616 / 4294967296 % 1024
  }

  /** The one-bit formula on a signed coefficient converted to uint32_t. */
  function Code1(a: int): nat {
    (2 * (a % 4294967296) + 1665) % 4294967296 * 80635 % 4294967296 / 268435456 % 2
  }

  lemma Code4Rounds(u: nat)
    requires u < 3329
    ensures Code4(u) == Round(4, u)
  {
    Powers();
    var k, r := (16 * u + 1664) / 3329, (16 * u + 1664) % 3329;
    assert (2 * (16 * u) + 3329) / 6658 == k;
    assert (16 * u + 1665) * 80635 == 268435456 * k + ((r + 1) * 80635 - 1541 * k);
    assert 0 <= (r + 1) * 80635 - 1541 * k < 268435456;
    Top4(k, (r + 1) * 80635 - 1541 * k);
  }

  lemma Top4(k: nat, e: nat)
    requires k <= 16 && e < 268435456
    ensures (268435456 * k + e) % 4294967296 / 268435456 % 16 == k % 16
  {
    if k == 16 {
      assert (268435456 * k + e) % 4294967296 == e;
    } else {
      assert (268435456 * k + e) % 4294967296 == 268435456 * k + e;
      assert (268435456 * k + e) / 268435456 == k;
    }
  }

  /** The rounding error of the ten-bit constant never shows: the only residues
      that would expose it do not occur. */
  lemma Code10Rounds(u: nat)
    requires u < 3329
    ensures Code10(u) == Round(10, u)
  {
    Powers();
    var k, r := (1024 * u + 1664) / 3329, (1024 * u + 1664) % 3329;
    assert (2 * (1024 * u) + 3329) / 6658 == k;
    var e := (r + 1) * 1290167 - 1353 * k;
    assert (1024 * u + 1665) * 1290167 == 4294967296 * k + e;
    if r == 0 {
      ResidueZero(u, k);
    }
    assert 0 <= e < 4294967296;
    assert (4294967296 * k + e) / 4294967296 == k;
    assert 4294967296 * k + e < 18446744073709551616;
  }

  lemma ResidueZero(u: nat, k: nat)
    requires 1024 * u + 1664 == 3329 * k && u < 3329
    ensures k == 640
  {
    var z := 769 * u - 2500 * k + 1249;
    assert k - 640 == 1024 * z && k <= 1024;
  }

  /** tomsg decides by the distance from zero: the decision bound is 832 on both
      sides, so a zero bit tolerates -832..832 and a one bit, which sits at 1665,
      tolerates -832..831. */
  lemma Code1Decides(a: int)
    requires -1664 <= a <= 1664
    ensures Code1(a) == (if -832 <= a <= 832 then 0 else 1)
    ensures Code1(a) == Round(1, a % 3329)
  {
    if a < -832 {
      Code1Negative(a);
    } else {
      Code1Plain(a);
    }
    Round1(a);
  }

  lemma Code1Negative(a: int)
    requires -1664 <= a < -832
    ensures Code1(a) == 1
  {
    var n := -(2 * a + 1665);
    assert a % 4294967296 == a + 4294967296;
    assert (2 * (a + 4294967296) + 1665) % 4294967296 == 4294967296 - n;
    WordWrap(4294967296 - n, n);
  }

  lemma WordWrap(x: int, n: int)
    requires 0 < n < 1664 && x == 4294967296 - n
    ensures x * 80635 % 4294967296 / 268435456 % 2 == 1
  {
    assert x * 80635 == 4294967296 * 80634 + (4294967296 - n * 80635);
    assert x * 80635 % 4294967296 == 4294967296 - n * 80635;
    assert (4294967296 - n * 80635) / 268435456 == 15;
  }

  lemma Code1Plain(a: int)
    requires -832 <= a <= 1664
    ensures Code1(a) == (if a <= 832 then 0 else 1)
  {
    assert (2 * (a % 4294967296) + 1665) % 4294967296 == 2 * a + 1665;
    var x := (2 * a + 1665) * 80635;
    assert x % 4294967296 == x;
    assert x / 268435456 == if a <= 832 then 0 else 1;
  }

  lemma Round1(a: int)
    requires -1664 <= a <= 1664
    ensures Round(1, a % 3329) == (if -832 <= a <= 832 then 0 else 1)
  {
    Powers();
    var x := if a < 0 then a + 3329 else a;
    assert a % 3329 == x;
    assert (4 * x + 3329) / 6658 == if x <= 832 then 0 else if x <= 2496 then 1 else 2;
  }

  // ----- compression errors ------------------------------------------------------

  /** Compressing to four bits and back moves a coefficient by at most 104. */
  lemma Error4(x: nat)
    requires x < 3329
    ensures -104 <= Center(Expand(4, Round(4, x)) - x) <= 104
  {
    hide Center, Round, Expand;
    var k, r := (32 * x + 3329) / 6658, (32 * x + 3329) % 6658;
    var t := if k >= 16 then 1 else 0;
    Quotient4(x, k);
    var y := k - 16 * t;
    var e, s := (6658 * y + 16) / 32, (6658 * y + 16) % 32;
    Values4(x, y);
    Near4(x, k, r, e, s, t);
    Nearest(x, e, t, 104);
  }

  lemma Quotient4(x: nat, k: int)
    requires x < 3329 && k == (32 * x + 3329) / 6658
    ensures 0 <= k <= 16
  {}

  lemma Near4(x: int, k: int, r: int, e: int, s: int, t: int)
    requires 32 * x + 3329 == 6658 * k + r && 0 <= r < 6658
    requires 6658 * (k - 16 * t) + 16 == 32 * e + s && 0 <= s < 32
    ensures -104 <= e - x + 3329 * t <= 104
  {}

  lemma Values4(x: nat, y: nat)
    requires x < 3329
    requires y == (if (32 * x + 3329) / 6658 == 16 then 0 else (32 * x + 3329) / 6658)
    requires y < 16
    ensures Round(4, x) == y && Expand(4, y) == (6658 * y + 16) / 32
  {
    Powers();
  }

  /** Compressing to ten bits and back moves a coefficient by at most 2. */
  lemma Error10(x: nat)
    requires x < 3329
    ensures -2 <= Center(Expand(10, Round(10, x)) - x) <= 2
  {
    hide Center, Round, Expand;
    var k, r := (2048 * x + 3329) / 6658, (2048 * x + 3329) % 6658;
    var t := if k >= 1024 then 1 else 0;
    Quotient10(x, k);
    var y := k - 1024 * t;
    var e, s := (6658 * y + 1024) / 2048, (6658 * y + 1024) % 2048;
    Values10(x, y);
    Near10(x, k, r, e, s, t);
    Nearest(x, e, t, 2);
  }

  lemma Quotient10(x: nat, k: int)
    requires x < 3329 && k == (2048 * x + 3329) / 6658
    ensures 0 <= k <= 1024
  {}

  lemma Near10(x: int, k: int, r: int, e: int, s: int, t: int)
    requires 2048 * x + 3329 == 6658 * k + r && 0 <= r < 6658
    requires 6658 * (k - 1024 * t) + 1024 == 2048 * e + s && 0 <= s < 2048
    ensures -2 <= e - x + 3329 * t <= 2
  {}

  lemma Values10(x: nat, y: nat)
    requires x < 3329
    requires y == (if (2048 * x + 3329) / 6658 == 1024 then 0 else (2048 * x + 3329) / 6658)
    requires y < 1024
    ensures Round(10, x) == y && Expand(10, y) == (6658 * y + 1024) / 2048
  {
    Powers();
  }

  lemma Nearest(x: int, e: int, turns: int, b: int)
    requires -b <= e - x + 3329 * turns <= b <= 1664
    ensures -b <= Center(e - x) <= b
  {
    CongWitness(e - x + 3329 * turns, e - x, turns);
    CenterUnique(e - x + 3329 * turns, e - x);
  }
}
