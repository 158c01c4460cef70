/** Numbers on five limbs of radix w, and their product folded at the fifth power of w:
    what the limb arithmetic of crypto.c has in common for X25519 and Poly1305. */
module FiveLimbs {

  function Radix(w: int, f0: int, f1: int, f2: int, f3: int, f4: int): int {
    f0 + w * (f1 + w * (f2 + w * (f3 + w * f4)))
  }

  /** The sum of five products. */
  function Sum5(a0: int, b0: int, a1: int, b1: int, a2: int, b2: int, a3: int, b3: int, a4: int, b4: int): int {
    a0 * b0 + a1 * b1 + a2 * b2 + a3 * b3 + a4 * b4
  }

  lemma Inside(x: int, w: int, g: int, t: int, xt: int)
    requires xt == x * t
    ensures x * (g + w * t) == x * g + w * xt
  {
    assert x * (g + w * t) == x * g + x * (w * t);
    assert x * (w * t) == w * (x * t);
  }

  /** A limb times a number. */
  lemma Row(w: int, x: int, g0: int, g1: int, g2: int, g3: int, g4: int)
    ensures x * Radix(w, g0, g1, g2, g3, g4) == Radix(w, x * g0, x * g1, x * g2, x * g3, x * g4)
  {
    Inside(x, w, g3, g4, x * g4);
    Inside(x, w, g2, g3 + w * g4, x * g3 + w * (x * g4));
    var t, u := g2 + w * (g3 + w * g4), x * g2 + w * (x * g3 + w * (x * g4));
    Inside(x, w, g1, t, u);
    Inside(x, w, g0, g1 + w * t, x * g1 + w * u);
  }

  /** Two numbers limb by limb. */
  lemma Plus(w: int, f0: int, f1: int, f2: int, f3: int, f4: int, g0: int, g1: int, g2: int, g3: int, g4: int)
    ensures Radix(w, f0, f1, f2, f3, f4) + Radix(w, g0, g1, g2, g3, g4)
         == Radix(w, f0 + g0, f1 + g1, f2 + g2, f3 + g3, f4 + g4)
  {
    PlusInside(w, f3, f4, g3, g4);
    PlusInside(w, f2, f3 + w * f4, g2, g3 + w * g4);
    var a, b := f2 + w * (f3 + w * f4), g2 + w * (g3 + w * g4);
    PlusInside(w, f1, a, g1, b);
    PlusInside(w, f0, f1 + w * a, g0, g1 + w * b);
  }

  lemma PlusInside(w: int, f: int, a: int, g: int, b: int)
    ensures f + w * a + (g + w * b) == f + g + w * (a + b)
  {}

  /** The fifth power of the radix is c modulo p. */
  predicate Folds(w: int, c: int, p: int) {
    w * (w * (w * (w * w))) == c + p
  }

  /** Times the radix, the limbs move up and the top one comes back c times. */
  lemma Shift(w: int, c: int, p: int, t0: int, t1: int, t2: int, t3: int, t4: int)
    requires Folds(w, c, p)
    ensures w * Radix(w, t0, t1, t2, t3, t4) == Radix(w, c * t4, t0, t1, t2, t3) + p * t4
  {
    var w2 := w * w;
    var w3 := w * w2;
    var w4 := w * w3;
    Expanded(w, t0, t1, t2, t3, t4, w2, w3, w4);
    Expanded(w, c * t4, t0, t1, t2, t3, w2, w3, w4);
    Times(w, t0, t1, t2, t3, t4, w2, w3, w4);
    assert w * w4 * t4 == (c + p) * t4 == c * t4 + p * t4;
  }

  lemma Expanded(w: int, t0: int, t1: int, t2: int, t3: int, t4: int, w2: int, w3: int, w4: int)
    requires w2 == w * w && w3 == w * w2 && w4 == w * w3
    ensures Radix(w, t0, t1, t2, t3, t4) == t0 + w * t1 + w2 * t2 + w3 * t3 + w4 * t4
  {
    Move(w, w, t3, t4, w2);
    Move(w, w, t2, t3 + w * t4, w2);
    Move(w, w, t1, t2 + w * (t3 + w * t4), w2);
    Move(w2, w, t2, t3 + w * t4, w3);
    Move(w3, w, t3, t4, w4);
    Move(w2, w, t3, t4, w3);
    assert Radix(w, t0, t1, t2, t3, t4) == t0 + w * t1 + w2 * (t2 + w * (t3 + w * t4));
  }

  lemma Move(v: int, w: int, g: int, t: int, vw: int)
    requires vw == w * v
    ensures v * (g + w * t) == v * g + vw * t
  {
    assert v * (w * t) == (w * v) * t;
  }

  lemma Times(w: int, t0: int, t1: int, t2: int, t3: int, t4: int, w2: int, w3: int, w4: int)
    requires w2 == w * w && w3 == w * w2 && w4 == w * w3
    ensures w * (t0 + w * t1 + w2 * t2 + w3 * t3 + w4 * t4) == w * t0 + w2 * t1 + w3 * t2 + w4 * t3 + w * w4 * t4
  {
    assert w * (w * t1) == w2 * t1;
    assert w * (w2 * t2) == w3 * t2;
    assert w * (w3 * t3) == w4 * t3;
    assert w * (w4 * t4) == w * w4 * t4;
  }

  /** One more limb x in front of the part t already multiplied. */
  lemma Step(w: int, c: int, p: int, x: int, g0: int, g1: int, g2: int, g3: int, g4: int,
             t0: int, t1: int, t2: int, t3: int, t4: int)
    requires Folds(w, c, p)
    ensures x * Radix(w, g0, g1, g2, g3, g4) + w * Radix(w, t0, t1, t2, t3, t4)
         == Radix(w, x * g0 + c * t4, x * g1 + t0, x * g2 + t1, x * g3 + t2, x * g4 + t3) + p * t4
  {
    hide Radix, Folds;
    Row(w, x, g0, g1, g2, g3, g4);
    Shift(w, c, p, t0, t1, t2, t3, t4);
    Plus(w, x * g0, x * g1, x * g2, x * g3, x * g4, c * t4, t0, t1, t2, t3);
  }

  /** The part a of the left factor has been multiplied; one more limb x goes in front. */
  lemma Extend(w: int, c: int, p: int, x: int, a: int, g0: int, g1: int, g2: int, g3: int, g4: int,
               t0: int, t1: int, t2: int, t3: int, t4: int, k: int)
    requires Folds(w, c, p) && a * Radix(w, g0, g1, g2, g3, g4) == Radix(w, t0, t1, t2, t3, t4) + p * k
    ensures (x + w * a) * Radix(w, g0, g1, g2, g3, g4)
         == Radix(w, x * g0 + c * t4, x * g1 + t0, x * g2 + t1, x * g3 + t2, x * g4 + t3) + p * (t4 + w * k)
  {
    hide Radix, Folds;
    Step(w, c, p, x, g0, g1, g2, g3, g4, t0, t1, t2, t3, t4);
    InFront(w, p, x, a, Radix(w, g0, g1, g2, g3, g4), Radix(w, t0, t1, t2, t3, t4), k);
  }

  lemma InFront(w: int, p: int, x: int, a: int, y: int, t: int, k: int)
    requires a * y == t + p * k
    ensures (x + w * a) * y == x * y + w * t + p * (w * k)
  {
    assert (x + w * a) * y == x * y + w * (a * y);
    assert w * (t + p * k) == w * t + p * (w * k);
  }

  /** The columns of the product. */
  function Columns(c: int, f0: int, f1: int, f2: int, f3: int, f4: int,
                   g0: int, g1: int, g2: int, g3: int, g4: int): (int, int, int, int, int)
  {
    (Sum5(f0, g0, f1, g4 * c, f2, g3 * c, f3, g2 * c, f4, g1 * c),
     Sum5(f0, g1, f1, g0, f2, g4 * c, f3, g3 * c, f4, g2 * c),
     Sum5(f0, g2, f1, g1, f2, g0, f3, g4 * c, f4, g3 * c),
     Sum5(f0, g3, f1, g2, f2, g1, f3, g0, f4, g4 * c),
     Sum5(f0, g4, f1, g3, f2, g2, f3, g1, f4, g0))
  }

  function OfColumns(w: int, r: (int, int, int, int, int)): int {
    Radix(w, r.0, r.1, r.2, r.3, r.4)
  }

  /** The five columns, with c in the products that pass the fifth limb, are the product
      up to a multiple of p. */
  lemma Product(w: int, c: int, p: int, f0: int, f1: int, f2: int, f3: int, f4: int,
                g0: int, g1: int, g2: int, g3: int, g4: int) returns (k: int)
    requires Folds(w, c, p)
    ensures Radix(w, f0, f1, f2, f3, f4) * Radix(w, g0, g1, g2, g3, g4)
         == OfColumns(w, Columns(c, f0, f1, f2, f3, f4, g0, g1, g2, g3, g4)) + p * k
  {
    hide Folds, Radix, Columns;
    Row(w, f4, g0, g1, g2, g3, g4);
    var a3 := f3 + w * f4;
    var a2 := f2 + w * a3;
    var a1 := f1 + w * a2;
    var t0, t1, t2, t3, t4 := f4 * g0, f4 * g1, f4 * g2, f4 * g3, f4 * g4;
    Extend(w, c, p, f3, f4, g0, g1, g2, g3, g4, t0, t1, t2, t3, t4, 0);
    k := t4;
    t0, t1, t2, t3, t4 := f3 * g0 + c * t4, f3 * g1 + t0, f3 * g2 + t1, f3 * g3 + t2, f3 * g4 + t3;
    Extend(w, c, p, f2, a3, g0, g1, g2, g3, g4, t0, t1, t2, t3, t4, k);
    k := t4 + w * k;
    t0, t1, t2, t3, t4 := f2 * g0 + c * t4, f2 * g1 + t0, f2 * g2 + t1, f2 * g3 + t2, f2 * g4 + t3;
    Extend(w, c, p, f1, a2, g0, g1, g2, g3, g4, t0, t1, t2, t3, t4, k);
    k := t4 + w * k;
    t0, t1, t2, t3, t4 := f1 * g0 + c * t4, f1 * g1 + t0, f1 * g2 + t1, f1 * g3 + t2, f1 * g4 + t3;
    Extend(w, c, p, f0, a1, g0, g1, g2, g3, g4, t0, t1, t2, t3, t4, k);
    k := t4 + w * k;
    Nested(w, f0, f1, f2, f3, f4);
    Columns5(c, f0, f1, f2, f3, f4, g0, g1, g2, g3, g4);
  }

  lemma Columns5(c: int, f0: int, f1: int, f2: int, f3: int, f4: int, g0: int, g1: int, g2: int, g3: int, g4: int)
    ensures Columns(c, f0, f1, f2, f3, f4, g0, g1, g2, g3, g4)
         == (f0 * g0 + c * (f1 * g4 + (f2 * g3 + (f3 * g2 + f4 * g1))),
             f0 * g1 + (f1 * g0 + c * (f2 * g4 + (f3 * g3 + f4 * g2))),
             f0 * g2 + (f1 * g1 + (f2 * g0 + c * (f3 * g4 + f4 * g3))),
             f0 * g3 + (f1 * g2 + (f2 * g1 + (f3 * g0 + c * (f4 * g4)))),
             f0 * g4 + (f1 * g3 + (f2 * g2 + (f3 * g1 + f4 * g0))))
  {
    hide Sum5;
    Column(c, f0, g0, f1, g4, f2, g3, f3, g2, f4, g1);
    Column(c, f0, g1, f1, g0, f2, g4, f3, g3, f4, g2);
    Column(c, f0, g2, f1, g1, f2, g0, f3, g4, f4, g3);
    Column(c, f0, g3, f1, g2, f2, g1, f3, g0, f4, g4);
    Column(c, f0, g4, f1, g3, f2, g2, f3, g1, f4, g0);
  }

  lemma Nested(w: int, f0: int, f1: int, f2: int, f3: int, f4: int)
    ensures Radix(w, f0, f1, f2, f3, f4) == f0 + w * (f1 + w * (f2 + w * (f3 + w * f4)))
  {}

  /** A column as the limbs were taken in, from the last one on. */
  lemma Column(c: int, a0: int, b0: int, a1: int, b1: int, a2: int, b2: int, a3: int, b3: int, a4: int, b4: int)
    ensures Sum5(a0, b0, a1, b1 * c, a2, b2 * c, a3, b3 * c, a4, b4 * c)
         == a0 * b0 + c * (a1 * b1 + (a2 * b2 + (a3 * b3 + a4 * b4)))
    ensures Sum5(a0, b0, a1, b1, a2, b2 * c, a3, b3 * c, a4, b4 * c)
         == a0 * b0 + (a1 * b1 + c * (a2 * b2 + (a3 * b3 + a4 * b4)))
    ensures Sum5(a0, b0, a1, b1, a2, b2, a3, b3 * c, a4, b4 * c)
         == a0 * b0 + (a1 * b1 + (a2 * b2 + c * (a3 * b3 + a4 * b4)))
    ensures Sum5(a0, b0, a1, b1, a2, b2, a3, b3, a4, b4 * c)
         == a0 * b0 + (a1 * b1 + (a2 * b2 + (a3 * b3 + c * (a4 * b4))))
    ensures Sum5(a0, b0, a1, b1, a2, b2, a3, b3, a4, b4)
         == a0 * b0 + (a1 * b1 + (a2 * b2 + (a3 * b3 + a4 * b4)))
  {
    Out(c, a1, b1, a2 * b2 + (a3 * b3 + a4 * b4));
    Out(c, a2, b2, a3 * b3 + a4 * b4);
    Out(c, a3, b3, a4 * b4);
    Out(c, a4, b4, 0);
  }

  lemma Out(c: int, a: int, b: int, rest: int)
    ensures a * (b * c) == c * (a * b) && c * (a * b + rest) == a * (b * c) + c * rest
  {}
}
