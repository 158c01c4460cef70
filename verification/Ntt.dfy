/** The in-place transforms of ntt.c on an array of 256 int16_t values.

    The array is described by tree nodes: node n occupies Size(n) consecutive
    cells from Start(n). Because the code visits the nodes in heap order, the
    invariant of both loops of the forward transform is simply that the cells hold
    nodes k, k + 1, ..., 2k - 1. Every int16_t assignment goes through ToInt16; the
    bounds show that none of them truncates. */
module Ntt {
  import opened Bits
  import opened Zq
  import opened Roots
  import opened Ring
  import opened NttTree

  /** The first cell of node n. */
  function Start(n: nat): int
    requires 1 <= n < 256
  {
    n * Size(n) - 256
  }

  lemma StartLevel(f: nat, n: nat)
    requires IsLevel(f) && f <= n < 2 * f
    ensures 1 <= n < 256 && Size(n) == Size(f) && Start(f) == 0
    ensures f * Size(f) == 256
  {}

  /** f is the first node of a level. */
  predicate IsLevel(f: nat) {
    f == 1 || f == 2 || f == 4 || f == 8 || f == 16 || f == 32 || f == 64 || f == 128
  }

  lemma LevelOf(n: nat) returns (f: nat)
    requires 1 <= n < 256
    ensures IsLevel(f) && f <= n < 2 * f
  {
    f := if n < 2 then 1 else if n < 4 then 2 else if n < 8 then 4 else if n < 16 then 8
         else if n < 32 then 16 else if n < 64 then 32 else if n < 128 then 64 else 128;
  }

  lemma BlockRange(n: nat)
    requires 1 <= n < 256
    ensures 0 <= Start(n) && Start(n) + Size(n) <= 256
  {
    hide Size;
    var f := LevelOf(n);
    StartLevel(f, n);
    ScaleOrder(f, n, Size(f));
    ScaleOrder(n + 1, 2 * f, Size(f));
    assert (n + 1) * Size(f) == n * Size(f) + Size(f);
    assert 2 * f * Size(f) == 2 * (f * Size(f));
  }

  lemma ChildBlocks(n: nat)
    requires 1 <= n < 128
    ensures Start(2 * n) == Start(n)
    ensures Start(2 * n + 1) == Start(n) + Size(n) / 2
    ensures Size(2 * n) == Size(2 * n + 1) == Size(n) / 2
    ensures Size(n) % 4 == 0
  {
    hide Size;
    SizeChild(n);
    var s := Size(2 * n);
    assert n * (2 * s) == 2 * n * s;
    assert (2 * n + 1) * s == 2 * n * s + s;
  }

  /** Among nodes k .. 2k - 1 the cells of node k belong to no other node. */
  lemma BlocksDisjoint(k: nat, n: nat)
    requires 1 <= k < n < 2 * k && n < 256
    ensures Start(n) >= Start(k) + Size(k) || Start(n) + Size(n) <= Start(k)
  {
    hide Size;
    var f := LevelOf(k);
    var g := LevelOf(n);
    StartLevel(f, k);
    StartLevel(g, n);
    if f == g {
      LaterBlock(k, n, Size(f));
    } else {
      assert g == 2 * f;
      SizeChild(f);
      LowerBlock(k, n, Size(g));
    }
  }

  lemma LaterBlock(k: nat, n: nat, size: nat)
    requires k < n
    ensures n * size >= k * size + size
  {
    ScaleOrder(k + 1, n, size);
  }

  lemma LowerBlock(k: nat, n: nat, size: nat)
    requires n < 2 * k
    ensures n * size + size <= k * (2 * size)
  {
    ScaleOrder(n + 1, 2 * k, size);
  }

  /** The cells of node n. */
  function Block(s: Poly, n: nat): (b: Poly)
    requires |s| == 256 && 1 <= n < 256
    ensures |b| == Size(n)
  {
    BlockRange(n);
    s[Start(n)..Start(n) + Size(n)]
  }

  /** s and t agree outside the cells of node k. */
  ghost predicate SameOutside(s: Poly, t: Poly, k: nat)
    requires 1 <= k < 256
  {
    |s| == |t| == 256
    && forall i :: 0 <= i < 256 && !(Start(k) <= i < Start(k) + Size(k)) ==> s[i] == t[i]
  }

  lemma BlockKept(s: Poly, t: Poly, k: nat, n: nat)
    requires 1 <= k < 256 && 1 <= n < 256 && SameOutside(s, t, k)
    requires Start(n) >= Start(k) + Size(k) || Start(n) + Size(n) <= Start(k)
    ensures Block(t, n) == Block(s, n)
  {
    hide Size, Start;
    BlockRange(n);
  }

  // ----- the forward transform -------------------------------------------------

  ghost predicate Bounded(s: Poly, lo: int, hi: int, b: int) {
    forall i :: 0 <= lo <= i < hi && i < |s| ==> -b <= s[i] <= b
  }

  lemma ZetaProduct(k: nat, x: int)
    requires k < 128 && -32768 <= x < 32768
    ensures -3329 * 32768 <= Zeta(k) * x < 3329 * 32768
    ensures Cong(FqMul(Zeta(k), x), Root(k) * x)
  {
    hide Zeta, Root, Cong, FqMul;
    ZetaIsRoot(k);
    var z := Zeta(k);
    if x >= 0 {
      ScaleOrder(-1664, z, x);
      ScaleOrder(z, 1664, x);
    } else {
      ScaleOrder(-1664, z, -x);
      ScaleOrder(z, 1664, -x);
      assert z * (-x) == -(z * x);
    }
    var t := FqMul(z, x);
    CongSelf(x);
    CongMul(z, 65536 * Root(k), x, x);
    assert 65536 * Root(k) * x == 65536 * (Root(k) * x);
    assert Cong(65536 * t, z * x) by { FqMulCong(z, x); }
    CongTrans(65536 * t, z * x, 65536 * (Root(k) * x));
    CongCancelMont(t, Root(k) * x);
  }

  lemma FqMulCong(a: int, b: int)
    requires -3329 * 32768 <= a * b < 3329 * 32768
    ensures Cong(65536 * FqMul(a, b), a * b)
    ensures -3329 < FqMul(a, b) < 3329
  {}

  /** Cells i and i + len of t are the butterfly of those of s with root c. */
  ghost predicate Butterfly(s: Poly, t: Poly, c: int, len: nat, i: nat)
    requires i + len < |s| == |t|
  {
    && Cong(t[i], s[i] + c * s[i + len])
    && Cong(t[i + len], s[i] - c * s[i + len])
  }

  /** Every cell pair of a block of 2 * len cells from start is a butterfly. */
  ghost predicate Butterflies(s: Poly, t: Poly, c: int, start: int, len: nat)
    requires |s| == |t| == 256
  {
    && 0 <= start && start + 2 * len <= 256
    && forall i :: start <= i < start + len ==> Butterfly(s, t, c, len, i)
  }

  /** The butterflies of one block: node k is replaced by its children. */
  method NttBlock(r: array<int>, start: nat, len: nat, k: nat, ghost b: int)
    requires r.Length == 256 && 1 <= k < 128
    requires start == Start(k) && 2 * len == Size(k) && start + 2 * len <= 256
    requires 0 <= b <= 32767 - 3328 && Bounded(r[..], start, start + 2 * len, b)
    modifies r
    ensures SameOutside(old(r[..]), r[..], k)
    ensures Bounded(r[..], start, start + 2 * len, b + 3328)
    ensures Butterflies(old(r[..]), r[..], Root(k), start, len)
  {
    hide Zeta, Root, Cong, Size, Start, FqMul, ToInt16, NttDone;
    ghost var s := r[..];
    var zeta := Zeta(k);
    var j := start;
    NttStarts(s, Root(k), start, len, b);
    while j < start + len
      invariant start <= j <= start + len
      invariant NttDone(s, r[..], Root(k), start, len, j, b)
    {
      ghost var u := r[..];
      NttHere(s, u, Root(k), start, len, j, b);
      ZetaProduct(k, r[j + len]);
      FqMulCong(zeta, r[j + len]);
      var t := FqMul(zeta, r[j + len]);
      r[j + len] := ToInt16(r[j] - t);
      r[j] := ToInt16(r[j] + t);
      assert r[..] == u[j + len := s[j] - t][j := s[j] + t];
      NttNext(s, u, Root(k), start, len, j, b, t);
      j := j + 1;
    }
    NttEnds(s, r[..], k, start, len, b);
  }

  /** The cells before j and before j + len may have changed, no others. */
  ghost predicate Untouched(s: Poly, u: Poly, start: nat, len: nat, j: nat) {
    && |s| == |u| == 256 && start <= j <= start + len && start + 2 * len <= 256
    && forall i :: 0 <= i < 256 && !(start <= i < j) && !(start + len <= i < j + len) ==> u[i] == s[i]
  }

  /** The butterflies before j are done. */
  ghost predicate NttDone(s: Poly, u: Poly, c: int, start: nat, len: nat, j: nat, b: int) {
    && Untouched(s, u, start, len, j) && Bounded(s, start, start + 2 * len, b)
    && (forall i :: start <= i < j ==> Butterfly(s, u, c, len, i))
    && (forall i :: start <= i < j || start + len <= i < j + len ==> -(b + 3328) <= u[i] <= b + 3328)
  }

  lemma NttStarts(s: Poly, c: int, start: nat, len: nat, b: int)
    requires |s| == 256 && start + 2 * len <= 256 && Bounded(s, start, start + 2 * len, b)
    ensures NttDone(s, s, c, start, len, start, b)
  {}

  lemma NttHere(s: Poly, u: Poly, c: int, start: nat, len: nat, j: nat, b: int)
    requires NttDone(s, u, c, start, len, j, b) && j < start + len
    ensures |s| == |u| == 256 && j + len < 256 && u[j] == s[j] && u[j + len] == s[j + len]
    ensures -b <= s[j] <= b && -b <= s[j + len] <= b
  {
    hide Butterfly;
  }

  lemma NttNext(s: Poly, u: Poly, c: int, start: nat, len: nat, j: nat, b: int, t: int)
    requires NttDone(s, u, c, start, len, j, b) && j < start + len
    requires -3328 <= t <= 3328 && Cong(t, c * s[j + len])
    ensures NttDone(s, u[j + len := s[j] - t][j := s[j] + t], c, start, len, j + 1, b)
  {
    hide Cong, Bounded;
    NttHere(s, u, c, start, len, j, b);
    var v := u[j + len := s[j] - t][j := s[j] + t];
    ButterflyCong(s[j], t, c * s[j + len]);
    assert Butterfly(s, v, c, len, j);
    forall i | start <= i < j ensures Butterfly(s, v, c, len, i) {
      assert Butterfly(s, u, c, len, i);
    }
  }

  lemma NttEnds(s: Poly, u: Poly, k: nat, start: nat, len: nat, b: int)
    requires 1 <= k < 128 && start == Start(k) && 2 * len == Size(k)
    requires NttDone(s, u, Root(k), start, len, start + len, b)
    ensures SameOutside(s, u, k) && Bounded(u, start, start + 2 * len, b + 3328)
    ensures Butterflies(s, u, Root(k), start, len)
  {
    hide Size, Start, Root, Butterfly;
  }

  lemma ButterflyCong(x: int, t: int, y: int)
    requires Cong(t, y)
    ensures Cong(x + t, x + y) && Cong(x - t, x - y)
  {}

  /** Node n of the transform of a is what the cells of node n hold. */
  ghost predicate Holds(s: Poly, a: Poly, n: nat)
    requires |s| == |a| == 256 && 1 <= n < 256
  {
    CongPoly(Block(s, n), Node(a, n))
  }

  ghost predicate HoldsFrom(s: Poly, a: Poly, k: nat)
    requires |s| == |a| == 256 && 1 <= k <= 128
  {
    forall n {:trigger Holds(s, a, n)} :: k <= n < 2 * k ==> Holds(s, a, n)
  }

  /** One block of butterflies advances the invariant from node k to node k + 1. */
  lemma BlockAdvances(s: Poly, t: Poly, a: Poly, k: nat)
    requires |s| == |t| == |a| == 256 && 1 <= k < 128
    requires HoldsFrom(s, a, k) && SameOutside(s, t, k)
    requires Butterflies(s, t, Root(k), Start(k), Size(k) / 2)
    ensures HoldsFrom(t, a, k + 1)
  {
    hide Root, Cong, Size, Start, Node, Holds, Butterflies, SameOutside, Block;
    forall n | k + 1 <= n < 2 * (k + 1) ensures Holds(t, a, n) {
      if n < 2 * k {
        BlocksDisjoint(k, n);
        HoldsKept(s, t, a, k, n);
      } else {
        assert Holds(s, a, k);
        ChildrenHold(s, t, a, k);
      }
    }
  }

  lemma HoldsKept(s: Poly, t: Poly, a: Poly, k: nat, n: nat)
    requires |s| == |t| == |a| == 256 && 1 <= k < 256 && 1 <= n < 256
    requires SameOutside(s, t, k) && Holds(s, a, n)
    requires Start(n) >= Start(k) + Size(k) || Start(n) + Size(n) <= Start(k)
    ensures Holds(t, a, n)
  {
    hide CongPoly, Node, Start, Size, SameOutside, Block;
    BlockKept(s, t, k, n);
  }

  lemma ChildrenHold(s: Poly, t: Poly, a: Poly, k: nat)
    requires |s| == |t| == |a| == 256 && 1 <= k < 128 && Holds(s, a, k)
    requires Butterflies(s, t, Root(k), Start(k), Size(k) / 2)
    ensures Holds(t, a, 2 * k) && Holds(t, a, 2 * k + 1)
  {
    hide Root, Cong, Size, Start, Node, Block, CongPoly, Butterflies;
    var c, p := Root(k), Block(s, k);
    ChildBlocks(k);
    BlocksSplit(s, t, k);
    CongSelf(c);
    CongSelf(-c);
    CongSplit(p, Node(a, k), c, c);
    CongSplit(p, Node(a, k), -c, -c);
    NodeChildren(a, k);
    CongTransitive(Block(t, 2 * k), Split(p, c), Node(a, 2 * k));
    CongTransitive(Block(t, 2 * k + 1), Split(p, -c), Node(a, 2 * k + 1));
  }

  lemma BlocksSplit(s: Poly, t: Poly, k: nat)
    requires |s| == |t| == 256 && 1 <= k < 128
    requires Butterflies(s, t, Root(k), Start(k), Size(k) / 2)
    ensures CongPoly(Block(t, 2 * k), Split(Block(s, k), Root(k)))
    ensures CongPoly(Block(t, 2 * k + 1), Split(Block(s, k), -Root(k)))
  {
    hide Root, Cong, Size, Start, Split, Block, Butterflies;
    ChildBlocks(k);
    var m, c := Size(k) / 2, Root(k);
    var lo, hi := Block(t, 2 * k), Block(t, 2 * k + 1);
    var pl, ph := Split(Block(s, k), c), Split(Block(s, k), -c);
    forall j | 0 <= j < m ensures Cong(lo[j], pl[j]) {
      SplitCell(s, t, k, j);
    }
    forall j | 0 <= j < m ensures Cong(hi[j], ph[j]) {
      SplitCell(s, t, k, j);
    }
  }

  lemma SplitCell(s: Poly, t: Poly, k: nat, j: nat)
    requires |s| == |t| == 256 && 1 <= k < 128 && j < Size(k) / 2
    requires |Block(t, 2 * k)| == |Block(t, 2 * k + 1)| == Size(k) / 2
    requires Butterflies(s, t, Root(k), Start(k), Size(k) / 2)
    ensures Cong(Block(t, 2 * k)[j], Split(Block(s, k), Root(k))[j])
    ensures Cong(Block(t, 2 * k + 1)[j], Split(Block(s, k), -Root(k))[j])
  {
    hide Root, Cong, Size, Start, Block, Split, Butterflies;
    ChildBlocks(k);
    BlockRange(k);
    EvenHalf(Size(k));
    var m, f, c, p := Size(k) / 2, Start(k), Root(k), Block(s, k);
    ButterflyAt(s, t, c, f, m, f + j);
    BlockCell(s, k, j);
    BlockCell(s, k, j + m);
    BlockCell(t, 2 * k, j);
    BlockCell(t, 2 * k + 1, j);
    SplitAt(p, c, j);
    SplitAt(p, -c, j);
    assert (-c) * p[j + m] == -(c * p[j + m]);
  }

  lemma EvenHalf(n: nat)
    requires n % 4 == 0
    ensures 2 * (n / 2) == n
  {
    var q := n / 4;
    assert n == 2 * (2 * q) && n / 2 == 2 * q;
  }

  lemma ButterflyAt(s: Poly, t: Poly, c: int, start: int, len: nat, i: int)
    requires |s| == |t| == 256 && Butterflies(s, t, c, start, len) && start <= i < start + len
    ensures 0 <= i && i + len < 256 && Butterfly(s, t, c, len, i)
  {
    hide Butterfly;
  }

  lemma BlockCell(s: Poly, n: nat, j: nat)
    requires |s| == 256 && 1 <= n < 256 && j < Size(n)
    ensures 0 <= Start(n) + j < 256 && Block(s, n)[j] == s[Start(n) + j]
  {
    hide Size, Start;
    BlockRange(n);
  }

  /** The forward transform. Seven levels each add at most q - 1 = 3328 to the
      absolute value of a coefficient, so any bound up to 9471 on the input keeps
      every int16_t in range. */
  method Transform(r: array<int>, ghost b: int)
    requires r.Length == 256
    requires 0 <= b <= 9471 && forall i :: 0 <= i < 256 ==> -b <= r[i] <= b
    modifies r
    ensures IsNtt(r[..], old(r[..]))
    ensures forall i :: 0 <= i < 256 ==> -(b + 7 * 3328) <= r[i] <= b + 7 * 3328
  {
    hide Zeta, Root, Cong, Size, Start, HoldsFrom, Butterflies, SameOutside;
    ghost var a := r[..];
    ghost var depth := 0;
    RootHolds(a);
    SizeOne();
    var k: nat := 1;
    var len: nat := 128;
    while len >= 2
      invariant 0 <= depth <= 7 && IsLevel(k) && depth == Depth(k)
      invariant 2 * len == Size(k)
      invariant HoldsFrom(r[..], a, k)
      invariant Bounded(r[..], 0, 256, b + 3328 * depth)
      decreases len
    {
      ghost var f := k;
      ghost var bound := b + 3328 * depth;
      var start: nat := 0;
      StartLevel(f, f);
      LevelBelow(f);
      while start < 256
        invariant f <= k <= 2 * f && k <= 128
        invariant start == k * (2 * len) - f * (2 * len)
        invariant HoldsFrom(r[..], a, k)
        invariant Bounded(r[..], 0, start, bound + 3328)
        invariant Bounded(r[..], start, 256, bound)
        decreases 256 - start
      {
        BlockPosition(f, k, len, start);
        ghost var s := r[..];
        NttBlock(r, start, len, k, bound);
        BlockAdvances(s, r[..], a, k);
        KeepBounds(s, r[..], k, start, start + 2 * len, bound);
        assert (k + 1) * (2 * len) == k * (2 * len) + 2 * len;
        k := k + 1;
        start := start + len + len;
      }
      LevelEnd(f, k, len, start);
      depth := depth + 1;
      len := len / 2;
    }
    LeavesHold(r[..], a, k);
  }

  function Depth(k: nat): nat {
    if k < 2 then 0 else if k < 4 then 1 else if k < 8 then 2 else if k < 16 then 3
    else if k < 32 then 4 else if k < 64 then 5 else if k < 128 then 6 else 7
  }

  lemma RootHolds(a: Poly)
    requires |a| == 256
    ensures HoldsFrom(a, a, 1)
  {
    assert Block(a, 1) == a;
    CongReflexive(a);
    assert Holds(a, a, 1);
  }

  lemma LevelBelow(f: nat)
    requires IsLevel(f) && Size(f) >= 4
    ensures f <= 64
  {}

  lemma CancelOrder(x: int, y: int, s: int)
    requires s > 0
    ensures x * s <= y * s ==> x <= y
    ensures x * s < y * s ==> x < y
  {
    if y <= x {
      ScaleOrder(y, x, s);
    }
    if y < x {
      ScaleOrder(y + 1, x, s);
      assert (y + 1) * s == y * s + s;
    }
  }

  lemma BlockPosition(f: nat, k: nat, len: nat, start: nat)
    requires IsLevel(f) && f <= 64 && f <= k <= 2 * f && 2 * len == Size(f) && len >= 2
    requires start == k * (2 * len) - f * (2 * len) && start < 256
    ensures k < 2 * f && 2 * len == Size(k) && start == Start(k) && start + 2 * len <= 256
  {
    hide Size;
    StartLevel(f, f);
    assert 2 * f * (2 * len) == 2 * (f * (2 * len));
    CancelOrder(k, 2 * f, 2 * len);
    StartLevel(f, k);
    BlockRange(k);
  }

  lemma LevelEnd(f: nat, k: nat, len: nat, start: nat)
    requires IsLevel(f) && f <= 64 && f <= k <= 2 * f && 2 * len == Size(f) && len >= 2
    requires start == k * (2 * len) - f * (2 * len) && start >= 256
    ensures k == 2 * f && IsLevel(k) && Size(k) == 2 * (len / 2) && Depth(k) == Depth(f) + 1
  {
    StartLevel(f, f);
    assert 2 * f * (2 * len) == 2 * (f * (2 * len));
    CancelOrder(2 * f, k, 2 * len);
  }

  lemma KeepBounds(s: Poly, t: Poly, k: nat, lo: nat, hi: nat, b: int)
    requires |s| == |t| == 256 && 1 <= k < 128 && SameOutside(s, t, k)
    requires lo == Start(k) && hi == lo + Size(k) <= 256
    requires Bounded(s, 0, lo, b + 3328) && Bounded(s, lo, 256, b) && Bounded(t, lo, hi, b + 3328)
    ensures Bounded(t, 0, hi, b + 3328) && Bounded(t, hi, 256, b)
  {
    hide Size, Start;
  }

  lemma LeavesHold(s: Poly, a: Poly, k: nat)
    requires |s| == |a| == 256 && 1 <= k <= 128 && IsLevel(k) && Size(k) < 4
    requires HoldsFrom(s, a, k)
    ensures IsNtt(s, a)
  {
    hide Cong, Node;
    assert k == 128;
    forall i | 0 <= i < 256 ensures Cong(s[i], Leaf(a, i)) {
      var n := 128 + i / 2;
      assert Holds(s, a, n);
      assert Size(n) == 2 && Start(n) == 2 * (i / 2);
      assert Block(s, n)[i % 2] == s[i];
    }
  }
}
