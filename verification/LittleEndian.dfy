/** Little-endian numbers. */
module LittleEndian {
  import opened Bits

  /** The number whose base-256 digits are s, least significant first. */
  function FromLe(s: seq<Byte>): (x: nat) {
    if |s| == 0 then 0 else s[0] + 256 * FromLe(s[1..])
  }

  /** The n low bytes of x. */
  function ToLe(x: nat, n: nat): (s: seq<Byte>)
    ensures |s| == n
  {
    if n == 0 then [] else [x % 256] + ToLe(x / 256, n - 1)
  }

  lemma {:induction false} FromLeAppend(s: seq<Byte>, t: seq<Byte>)
    ensures FromLe(s + t) == FromLe(s) + Pow2(8 * |s|) * FromLe(t)
  {
    hide Pow2;
    BytePower(|s|);
    if |s| == 0 {
      assert s + t == t;
    } else {
      FromLeAppend(s[1..], t);
      assert (s + t)[1..] == s[1..] + t;
      Regroup(256, Pow2(8 * (|s| - 1)), FromLe(t));
    }
  }

  /** The low bytes of x followed by those of y. */
  lemma {:induction false} ToLeJoin(x: nat, m: nat, y: nat, n: nat)
    requires x < Pow2(8 * m)
    ensures ToLe(x + Pow2(8 * m) * y, m + n) == ToLe(x, m) + ToLe(y, n)
  {
    hide Pow2, ToLe;
    BytePower(m);
    if m == 0 {
      ToLeNothing(x);
    } else {
      var p := Pow2(8 * (m - 1));
      Regroup(256, p, y);
      ToLeJoin(x / 256, m - 1, y, n);
      ToLeInFront(x, p * y, m + n);
      ToLeInFront(x, 0, m);
    }
  }

  lemma ToLeNothing(x: nat)
    ensures ToLe(x, 0) == []
  {}

  lemma ToLeInFront(x: nat, t: nat, n: nat)
    requires n > 0
    ensures ToLe(x + 256 * t, n) == [x % 256] + ToLe(x / 256 + t, n - 1)
  {
    LowByte(x, t);
  }

  lemma LowByte(x: nat, t: int)
    ensures (x + 256 * t) % 256 == x % 256 && (x + 256 * t) / 256 == x / 256 + t
  {}

  lemma {:induction false} FromToLe(x: nat, n: nat)
    requires x < Pow2(8 * n)
    ensures FromLe(ToLe(x, n)) == x
  {
    if n > 0 {
      Powers();
      Pow2Add(8, 8 * (n - 1));
      FromToLe(x / 256, n - 1);
      assert ToLe(x, n)[1..] == ToLe(x / 256, n - 1);
    }
  }

  lemma {:induction false} ToFromLe(s: seq<Byte>)
    ensures ToLe(FromLe(s), |s|) == s
  {
    if |s| > 0 {
      ToFromLe(s[1..]);
      assert FromLe(s) % 256 == s[0] && FromLe(s) / 256 == FromLe(s[1..]);
    }
  }

  /** load32_littleendian. */
  function Load32(b0: nat, b1: nat, b2: nat, b3: nat): nat {
    Or(Or(Or(b0, b1 * 256), b2 * 65536), b3 * 16777216)
  }

  lemma Load32Value(b0: nat, b1: nat, b2: nat, b3: nat)
    requires b0 < 256 && b1 < 256 && b2 < 256 && b3 < 256
    ensures Load32(b0, b1, b2, b3) == b0 + 256 * (b1 + 256 * (b2 + 256 * b3))
  {
    hide Or, Pow2;
    Powers();
    Pow2Add(8, 8);
    Pow2Add(16, 8);
    OrAdds(b0, b1, 8);
    OrAdds(b0 + b1 * 256, b2, 16);
    OrAdds(b0 + b1 * 256 + b2 * 65536, b3, 24);
  }

  lemma {:induction false} FromLeBound(s: seq<Byte>)
    ensures FromLe(s) < Pow2(8 * |s|)
  {
    if |s| > 0 {
      FromLeBound(s[1..]);
      Powers();
      Pow2Add(8, 8 * (|s| - 1));
    }
  }

  function Word(s: seq<Byte>, k: nat): (x: nat)
    requires k + 4 <= |s|
    ensures x < 0x1_0000_0000
  {
    Load32Value(s[k], s[k + 1], s[k + 2], s[k + 3]);
    Load32(s[k], s[k + 1], s[k + 2], s[k + 3])
  }

  lemma WordFirst(s: seq<Byte>, k: nat)
    requires k + 4 <= |s|
    ensures FromLe(s[k..]) == Word(s, k) + 0x1_0000_0000 * FromLe(s[k + 4..])
  {
    hide FromLe, Load32;
    Load32Value(s[k], s[k + 1], s[k + 2], s[k + 3]);
    FirstByte(s, k);
    FirstByte(s, k + 1);
    FirstByte(s, k + 2);
    FirstByte(s, k + 3);
  }

  lemma FirstByte(s: seq<Byte>, k: nat)
    requires k < |s|
    ensures FromLe(s[k..]) == s[k] + 256 * FromLe(s[k + 1..])
  {
    assert s[k..][1..] == s[k + 1..];
  }

  lemma NoBytes()
    ensures FromLe([]) == 0
  {}
}
