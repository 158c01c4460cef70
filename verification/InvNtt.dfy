/** The in-place inverse transform of ntt.c. A level merges the children of nodes
    f .. 2f - 1 in increasing node order while the index into the table of roots
    runs downwards; the invariant is that nodes f .. n - 1 are merged and the
    children 2n .. 4f - 1 of the remaining nodes are not. */
module InvNtt {
  import opened Bits
  import opened Zq
  import opened Roots
  import opened Ring
  import opened NttTree
  import opened Ntt

  /** Cells i and i + len of t are the inverse butterfly of those of s. */
  ghost predicate Gather(s: Poly, t: Poly, c: int, len: nat, i: nat)
    requires i + len < |s| == |t|
  {
    && Cong(t[i], s[i] + s[i + len])
    && Cong(t[i + len], c * (s[i + len] - s[i]))
  }

  ghost predicate Gathers(s: Poly, t: Poly, c: int, start: int, len: nat)
    requires |s| == |t| == 256
  {
    && 0 <= start && start + 2 * len <= 256
    && forall i :: start <= i < start + len ==> Gather(s, t, c, len, i)
  }

  lemma BarrettCong(x: int)
    requires -32768 <= x < 32768
    ensures Cong(BarrettReduce(x), x) && -1664 <= BarrettReduce(x) <= 1664
  {}

  /** The inverse butterflies of one block, with table entry k. */
  method InvBlock(r: array<int>, start: nat, len: nat, k: nat)
    requires r.Length == 256 && 1 <= k < 128 && start + 2 * len <= 256
    requires forall i :: start <= i < start + 2 * len ==> -16383 <= r[i] <= 16383
    modifies r
    ensures forall i :: 0 <= i < 256 && !(start <= i < start + 2 * len) ==> r[i] == old(r[i])
    ensures forall i :: start <= i < start + 2 * len ==> -3328 <= r[i] <= 3328
    ensures Gathers(old(r[..]), r[..], Root(k), start, len)
  {
    hide Zeta, Root, Cong, FqMul, ToInt16, BarrettReduce, InvDone;
    ghost var s := r[..];
    var zeta := Zeta(k);
    var j := start;
    InvStarts(s, Root(k), start, len);
    while j < start + len
      invariant start <= j <= start + len
      invariant InvDone(s, r[..], Root(k), start, len, j)
    {
      ghost var u := r[..];
      InvHere(s, u, Root(k), start, len, j);
      var t := r[j];
      r[j] := BarrettReduce(ToInt16(t + r[j + len]));
      r[j + len] := ToInt16(r[j + len] - t);
      ghost var d := s[j + len] - s[j];
      assert r[j + len] == d;
      BarrettCong(s[j] + s[j + len]);
      ZetaProduct(k, d);
      FqMulCong(zeta, d);
      r[j + len] := FqMul(zeta, r[j + len]);
      assert r[..] == u[j := r[j]][j + len := r[j + len]];
      InvNext(s, u, Root(k), start, len, j, r[j], r[j + len]);
      j := j + 1;
    }
    InvEnds(s, r[..], Root(k), start, len);
  }

  /** The inverse butterflies before j are done. */
  ghost predicate InvDone(s: Poly, u: Poly, c: int, start: nat, len: nat, j: nat) {
    && Untouched(s, u, start, len, j)
    && (forall i :: start <= i < start + 2 * len ==> -16383 <= s[i] <= 16383)
    && (forall i :: start <= i < j ==> Gather(s, u, c, len, i))
    && (forall i :: start <= i < j || start + len <= i < j + len ==> -3328 <= u[i] <= 3328)
  }

  lemma InvStarts(s: Poly, c: int, start: nat, len: nat)
    requires |s| == 256 && start + 2 * len <= 256
    requires forall i :: start <= i < start + 2 * len ==> -16383 <= s[i] <= 16383
    ensures InvDone(s, s, c, start, len, start)
  {}

  lemma InvHere(s: Poly, u: Poly, c: int, start: nat, len: nat, j: nat)
    requires InvDone(s, u, c, start, len, j) && j < start + len
    ensures |s| == |u| == 256 && j + len < 256 && u[j] == s[j] && u[j + len] == s[j + len]
    ensures -16383 <= s[j] <= 16383 && -16383 <= s[j + len] <= 16383
  {
    hide Gather;
  }

  lemma InvNext(s: Poly, u: Poly, c: int, start: nat, len: nat, j: nat, x: int, y: int)
    requires InvDone(s, u, c, start, len, j) && j < start + len
    requires -3328 <= x <= 3328 && -3328 <= y <= 3328
    requires Cong(x, s[j] + s[j + len]) && Cong(y, c * (s[j + len] - s[j]))
    ensures InvDone(s, u[j := x][j + len := y], c, start, len, j + 1)
  {
    hide Cong;
    var v := u[j := x][j + len := y];
    assert Gather(s, v, c, len, j);
    forall i | start <= i < j ensures Gather(s, v, c, len, i) {
      assert Gather(s, u, c, len, i);
    }
  }

  lemma InvEnds(s: Poly, u: Poly, c: int, start: nat, len: nat)
    requires InvDone(s, u, c, start, len, start + len)
    ensures forall i :: 0 <= i < 256 && !(start <= i < start + 2 * len) ==> u[i] == s[i]
    ensures forall i :: start <= i < start + 2 * len ==> -3328 <= u[i] <= 3328
    ensures Gathers(s, u, c, start, len)
  {
    hide Gather;
  }

  /** The cells of node n hold the inverse transform of f at n. */
  ghost predicate InvHolds(s: Poly, f: Poly, n: nat)
    requires |s| == |f| == 256 && 1 <= n < 256
  {
    CongPoly(Block(s, n), Inv(f, n))
  }

  /** Level l is merged up to node n. */
  ghost predicate Merged(s: Poly, f: Poly, l: nat, n: nat)
    requires |s| == |f| == 256 && 1 <= l <= 64
  {
    && (forall m {:trigger InvHolds(s, f, m)} :: l <= m < n && m < 256 ==> InvHolds(s, f, m))
    && (forall m {:trigger InvHolds(s, f, m)} :: 2 * n <= m < 4 * l && 1 <= m ==> InvHolds(s, f, m))
  }

  /** Between two levels: level l is next, or the root is done. */
  ghost predicate LevelState(s: Poly, f: Poly, l: nat, k: int, len: nat)
    requires |s| == |f| == 256 && 1 <= l
  {
    if len <= 128 then
      IsLevel(l) && l <= 64 && 2 * len == Size(l) && k == 2 * l - 1 && Merged(s, f, l, l)
    else
      k == 0 && len == 256 && InvHolds(s, f, 1)
  }

  lemma LeavesInitially(f: Poly)
    requires |f| == 256
    ensures Merged(f, f, 64, 64)
  {
    hide Cong;
    forall m {:trigger InvHolds(f, f, m)} | 128 <= m < 256 ensures InvHolds(f, f, m) {
      BlockRange(m);
      assert Start(m) == 2 * (m - 128) && Size(m) == 2;
      CongReflexive(Block(f, m));
    }
  }

  lemma ChildrenBeyond(l: nat, k: nat, n: nat)
    requires IsLevel(l) && l <= 64 && l <= k < 2 * l && 2 * k + 2 <= n < 4 * l
    ensures Start(n) >= Start(k) + Size(k)
  {
    hide Size;
    StartLevel(l, k);
    StartLevel(2 * l, n);
    SizeChild(l);
    var h := Size(2 * l);
    ScaleOrder(2 * k + 2, n, h);
    assert (2 * k + 2) * h == k * (2 * h) + 2 * h;
  }

  lemma InvHoldsKept(s: Poly, t: Poly, f: Poly, k: nat, n: nat)
    requires |s| == |t| == |f| == 256 && 1 <= k < 256 && 1 <= n < 256
    requires SameOutside(s, t, k) && InvHolds(s, f, n)
    requires Start(n) >= Start(k) + Size(k) || Start(n) + Size(n) <= Start(k)
    ensures InvHolds(t, f, n)
  {
    hide CongPoly, Inv, Start, Size, SameOutside, Block;
    BlockKept(s, t, k, n);
  }

  lemma MergeCell(s: Poly, t: Poly, k: nat, c: int, j: nat)
    requires |s| == |t| == 256 && 1 <= k < 128 && j < Size(k)
    requires |Block(s, 2 * k)| == |Block(s, 2 * k + 1)| == Size(k) / 2
    requires |Block(t, k)| == |Merge(Block(s, 2 * k), Block(s, 2 * k + 1), c)| == Size(k)
    requires Gathers(s, t, c, Start(k), Size(k) / 2)
    ensures Cong(Block(t, k)[j], Merge(Block(s, 2 * k), Block(s, 2 * k + 1), c)[j])
  {
    hide Cong, Size, Start, Block;
    ChildBlocks(k);
    BlockRange(k);
    EvenHalf(Size(k));
    var m, f := Size(k) / 2, Start(k);
    var i := if j < m then j else j - m;
    assert Gather(s, t, c, m, f + i);
    BlockCell(s, 2 * k, i);
    BlockCell(s, 2 * k + 1, i);
    BlockCell(t, k, j);
  }

  lemma BlocksMerge(s: Poly, t: Poly, k: nat, c: int)
    requires |s| == |t| == 256 && 1 <= k < 128
    requires Gathers(s, t, c, Start(k), Size(k) / 2)
    ensures |Block(s, 2 * k)| == |Block(s, 2 * k + 1)|
    ensures CongPoly(Block(t, k), Merge(Block(s, 2 * k), Block(s, 2 * k + 1), c))
  {
    hide Cong, Size, Start, Merge, Block, Gathers;
    ChildBlocks(k);
    EvenHalf(Size(k));
    var l, r := Block(t, k), Merge(Block(s, 2 * k), Block(s, 2 * k + 1), c);
    forall j | 0 <= j < |l| ensures Cong(l[j], r[j]) {
      MergeCell(s, t, k, c, j);
    }
  }

  lemma ParentHolds(s: Poly, t: Poly, f: Poly, k: nat)
    requires |s| == |t| == |f| == 256 && 1 <= k < 128
    requires InvHolds(s, f, 2 * k) && InvHolds(s, f, 2 * k + 1)
    requires Gathers(s, t, Root(Mirror(k)), Start(k), Size(k) / 2)
    ensures InvHolds(t, f, k)
  {
    hide Root, Mirror, Cong, Size, Start, Inv, Block, CongPoly, Gathers, Merge;
    var c := Root(Mirror(k));
    BlocksMerge(s, t, k, c);
    InvChildren(f, k);
    CongMerge(Block(s, 2 * k), Inv(f, 2 * k), Block(s, 2 * k + 1), Inv(f, 2 * k + 1), c);
    CongTransitive(Block(t, k), Merge(Block(s, 2 * k), Block(s, 2 * k + 1), c), Inv(f, k));
  }

  lemma MergeAdvances(s: Poly, t: Poly, f: Poly, l: nat, k: nat)
    requires |s| == |t| == |f| == 256 && IsLevel(l) && l <= 64 && l <= k < 2 * l
    requires Merged(s, f, l, k) && SameOutside(s, t, k)
    requires Gathers(s, t, Root(Mirror(k)), Start(k), Size(k) / 2)
    ensures Merged(t, f, l, k + 1)
  {
    hide Root, Mirror, Size, Start, InvHolds, SameOutside, Gathers;
    forall m {:trigger InvHolds(t, f, m)} | l <= m < k + 1 ensures InvHolds(t, f, m) {
      if m == k {
        assert InvHolds(s, f, 2 * k) && InvHolds(s, f, 2 * k + 1);
        ParentHolds(s, t, f, k);
      } else {
        BlocksDisjoint(m, k);
        InvHoldsKept(s, t, f, k, m);
      }
    }
    forall m {:trigger InvHolds(t, f, m)} | 2 * (k + 1) <= m < 4 * l ensures InvHolds(t, f, m) {
      ChildrenBeyond(l, k, m);
      InvHoldsKept(s, t, f, k, m);
    }
  }

  /** The inverse transform: 512 times the unscaled inverse, which for the
      transform of a polynomial a is 65536 * a (InverseOfTransform). */
  method Inverse(r: array<int>)
    requires r.Length == 256
    requires forall i :: 0 <= i < 256 ==> -16383 <= r[i] <= 16383
    modifies r
    ensures CongPoly(r[..], Scale(512, Inv(old(r[..]), 1)))
    ensures forall i :: 0 <= i < 256 ==> -3328 <= r[i] <= 3328
  {
    hide Zeta, Root, Cong, Size, Start, Merged, Gathers, SameOutside, Inv, CongPoly;
    ghost var f := r[..];
    ghost var level := 64;
    LeavesInitially(f);
    var k: nat := 127;
    var len: nat := 2;
    SizeOf64();
    while len <= 128
      invariant 1 <= level && 2 <= len <= 256
      invariant LevelState(r[..], f, level, k, len)
      invariant forall i :: 0 <= i < 256 ==> -16383 <= r[i] <= 16383
      decreases 256 - len
    {
      ghost var n := level;
      var start: nat := 0;
      StartLevel(level, level);
      while start < 256
        invariant level <= n <= 2 * level && k == 3 * level - 1 - n
        invariant start == n * (2 * len) - level * (2 * len)
        invariant Merged(r[..], f, level, n)
        invariant forall i :: 0 <= i < 256 ==> -16383 <= r[i] <= 16383
        decreases 256 - start
      {
        InvPosition(level, n, len, start);
        ghost var s := r[..];
        InvBlock(r, start, len, k);
        ShowSameOutside(s, r[..], n, start, len);
        MergeAdvances(s, r[..], f, level, n);
        assert (n + 1) * (2 * len) == n * (2 * len) + 2 * len;
        n := n + 1;
        k := k - 1;
        start := start + len + len;
      }
      InvLevelEnd(level, n, len, start);
      NextLevel(r[..], f, level, n);
      if level > 1 {
        level := level / 2;
      }
      len := len * 2;
    }
    InvRootBlock(r[..], f);
    ghost var u := r[..];
    var j: nat := 0;
    while j < 256
      invariant j <= 256
      invariant forall i :: j <= i < 256 ==> r[i] == u[i] && -16383 <= r[i] <= 16383
      invariant forall i :: 0 <= i < j ==> -3328 <= r[i] <= 3328 && Cong(r[i], 512 * u[i])
    {
      ghost var x := r[j];
      FqMulCong(x, 1441);
      ScaleBy1441(x, FqMul(x, 1441));
      r[j] := FqMul(r[j], 1441);
      j := j + 1;
    }
    ScaledResult(r[..], u, Inv(f, 1));
  }

  lemma SizeOf64()
    ensures Size(64) == 4
  {}

  lemma ScaleBy1441(x: int, y: int)
    requires Cong(65536 * y, x * 1441)
    ensures Cong(y, 512 * x)
  {
    var k := CongQuotient(65536 * y, x * 1441);
    CongWitness(65536 * y, 65536 * (512 * x), k - 10079 * x);
    CongCancelMont(y, 512 * x);
  }

  lemma InvPosition(l: nat, n: nat, len: nat, start: nat)
    requires IsLevel(l) && l <= 64 && l <= n <= 2 * l && 2 * len == Size(l) && len >= 2
    requires start == n * (2 * len) - l * (2 * len) && start < 256
    ensures n < 2 * l && 2 * len == Size(n) && start == Start(n) && start + 2 * len <= 256
    ensures Mirror(n) == 3 * l - 1 - n
  {
    BlockPosition(l, n, len, start);
    MirrorAtLevel(l, n);
  }

  lemma MirrorAtLevel(l: nat, n: nat)
    requires IsLevel(l) && l <= 64 && l <= n < 2 * l
    ensures Mirror(n) == 3 * l - 1 - n
  {}

  lemma InvLevelEnd(l: nat, n: nat, len: nat, start: nat)
    requires IsLevel(l) && l <= 64 && l <= n <= 2 * l && 2 * len == Size(l) && len >= 2
    requires start == n * (2 * len) - l * (2 * len) && start >= 256
    ensures n == 2 * l
    ensures l > 1 ==> IsLevel(l / 2) && 2 * (l / 2) == l && Size(l / 2) == 4 * len
    ensures l == 1 ==> len == 128
  {
    LevelEnd(l, n, len, start);
  }

  lemma NextLevel(s: Poly, f: Poly, l: nat, n: nat)
    requires |s| == |f| == 256 && IsLevel(l) && l <= 64 && n == 2 * l && Merged(s, f, l, n)
    ensures l > 1 ==> Merged(s, f, l / 2, l / 2)
    ensures l == 1 ==> InvHolds(s, f, 1)
  {
    hide InvHolds;
  }

  lemma ShowSameOutside(s: Poly, t: Poly, n: nat, start: nat, len: nat)
    requires |s| == |t| == 256 && 1 <= n < 256 && start == Start(n) && 2 * len == Size(n)
    requires forall i :: 0 <= i < 256 && !(start <= i < start + 2 * len) ==> t[i] == s[i]
    ensures SameOutside(s, t, n)
  {
    hide Size, Start;
  }

  lemma InvRootBlock(s: Poly, f: Poly)
    requires |s| == |f| == 256 && InvHolds(s, f, 1)
    ensures CongPoly(s, Inv(f, 1))
  {
    hide Cong, Inv;
    assert Block(s, 1) == s;
  }

  lemma ScaledResult(r: Poly, u: Poly, v: Poly)
    requires |r| == |u| == 256 && CongPoly(u, v)
    requires forall i :: 0 <= i < 256 ==> Cong(r[i], 512 * u[i])
    ensures CongPoly(r, Scale(512, v))
  {
    hide Cong;
    forall i | 0 <= i < 256 ensures Cong(r[i], Scale(512, v)[i]) {
      CongSelf(512);
      CongMul(512, 512, u[i], v[i]);
      CongTrans(r[i], 512 * u[i], 512 * v[i]);
    }
  }

  /** Undoing the transform of a gives 2^16 * a modulo q. */
  lemma InverseOfTransform(f: Poly, a: Poly, r: Poly)
    requires |f| == |a| == 256 && IsNtt(f, a) && CongPoly(r, Scale(512, Inv(f, 1)))
    ensures CongPoly(r, Scale(65536, a))
  {
    hide Cong, Inv, IsNtt;
    InvOfNtt(f, a, 1);
    SizeOne();
    CongSelf(512);
    CongScale(512, 512, Inv(f, 1), Scale(128, a));
    ScaleScale(512, 128, a);
    CongTransitive(r, Scale(512, Inv(f, 1)), Scale(65536, a));
  }
}
