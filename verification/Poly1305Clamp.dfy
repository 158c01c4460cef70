/** The clamped half of the Poly1305 key by its bytes (section 2.5 of RFC 8439). */
module Poly1305Clamp {
  import opened Bits
  import opened LittleEndian
  import opened Poly1305

  /** Four bytes lose their top four bits, three their bottom two. */
  function ClampByte(i: nat, b: Byte): Byte {
    if i == 3 || i == 7 || i == 11 || i == 15 then b % 16
    else if i == 4 || i == 8 || i == 12 then b - b % 4
    else b
  }

  function Clamped(s: seq<Byte>): (r: seq<Byte>)
    ensures |r| == |s|
  {
    seq(|s|, i requires 0 <= i < |s| => ClampByte(i, s[i]))
  }

  /** AND on little-endian numbers is AND on their bytes. */
  lemma {:induction false} AndBytes(s: seq<Byte>, m: seq<Byte>, r: seq<Byte>)
    requires |s| == |m| == |r| && forall i :: 0 <= i < |s| ==> And(s[i], m[i]) == r[i]
    ensures And(FromLe(s), FromLe(m)) == FromLe(r)
  {
    if |s| == 0 {
      AndNothing(0);
    } else {
      hide And, Pow2;
      Powers();
      AndBytes(s[1..], m[1..], r[1..]);
      AndSplit(s[0], FromLe(s[1..]), m[0], FromLe(m[1..]), 8);
      assert And(s[0], m[0]) == r[0];
    }
  }

  lemma MaskByte(b: Byte)
    ensures And(b, 255) == b && And(b, 15) == b % 16 && And(b, 252) == b - b % 4
  {
    hide And, Pow2;
    Powers();
    AndLow(b, 8);
    AndLow(b, 4);
    AndSplit(b % 4, b / 4, 0, 63, 2);
    AndNothing(b % 4);
    AndLow(b / 4, 6);
  }

  function Mask(i: int): Byte {
    if i == 3 || i == 7 || i == 11 || i == 15 then 15 else if i == 4 || i == 8 || i == 12 then 252 else 255
  }

  function Masks(): (m: seq<Byte>)
    ensures |m| == 16
  {
    seq(16, i => Mask(i))
  }

  lemma MaskNumber()
    ensures FromLe(Masks()) == CLAMP
  {
    hide FromLe;
    var m := Masks();
    WordFirst(m, 0);
    WordFirst(m, 4);
    WordFirst(m, 8);
    WordFirst(m, 12);
    NoBytes();
    assert m[0..] == m && m[16..] == [];
    MaskWords();
  }

  lemma MaskWords()
    ensures var m := Masks(); Word(m, 0) == 0x0fff_ffff && Word(m, 4) == Word(m, 8) == Word(m, 12) == 0x0fff_fffc
  {
    hide Load32;
    Load32Value(255, 255, 255, 15);
    Load32Value(252, 255, 255, 15);
  }

  lemma ClampedBytes(key: seq<Byte>)
    requires |key| == 32
    ensures ClampedR(key) == FromLe(Clamped(key[..16]))
  {
    hide And, FromLe;
    var s, m := key[..16], Masks();
    MaskNumber();
    forall i | 0 <= i < 16 ensures And(s[i], m[i]) == Clamped(s)[i] {
      MaskByte(s[i]);
    }
    AndBytes(s, m, Clamped(s));
  }
}
