/** Folding a byte string block by block: what the hash functions and the sponge do with
    their input, however it arrives. */
module Chunks {
  import opened Bits

  /** Every whole block of n bytes is taken in turn; what remains is left aside. */
  function Fold<S>(step: (S, seq<Byte>) -> S, n: nat, s: S, m: seq<Byte>): S
    requires n > 0
    decreases |m|
  {
    if |m| < n then s else Fold(step, n, step(s, m[..n]), m[n..])
  }

  /** What remains. */
  function Rest(n: nat, m: seq<Byte>): (r: seq<Byte>)
    requires n > 0
    ensures |r| == |m| % n
  {
    m[|m| - |m| % n..]
  }

  lemma {:induction false} FoldAppend<S>(step: (S, seq<Byte>) -> S, n: nat, s: S, a: seq<Byte>, b: seq<Byte>)
    requires n > 0 && |a| % n == 0
    ensures Fold(step, n, s, a + b) == Fold(step, n, Fold(step, n, s, a), b)
    decreases |a|
  {
    if |a| == 0 {
      assert a + b == b;
    } else {
      AtLeastOne(|a|, n);
      OneLess(|a|, n);
      assert (a + b)[..n] == a[..n] && (a + b)[n..] == a[n..] + b;
      FoldAppend(step, n, step(s, a[..n]), a[n..], b);
    }
  }

  lemma AtLeastOne(k: nat, n: nat)
    requires n > 0 && k > 0 && k % n == 0
    ensures k >= n
  {}

  lemma OneLess(k: nat, n: nat)
    requires n > 0 && k >= n
    ensures (k - n) % n == k % n
  {
    QuotientUnique(k - n, n, k / n - 1, k % n);
  }

  /** Whole blocks, then at most one more. */
  lemma FoldSplit<S>(step: (S, seq<Byte>) -> S, n: nat, s: S, whole: seq<Byte>, r: seq<Byte>)
    requires n > 0 && |whole| % n == 0 && |r| <= n
    ensures |r| < n ==> Fold(step, n, s, whole + r) == Fold(step, n, s, whole) && Rest(n, whole + r) == r
    ensures |r| == n ==> Fold(step, n, s, whole + r) == step(Fold(step, n, s, whole), r) && Rest(n, whole + r) == []
  {
    FoldAppend(step, n, s, whole, r);
    RemainderAfter(|whole|, |r|, n);
    FoldBlock(step, n, Fold(step, n, s, whole), r);
  }

  lemma FoldBlock<S>(step: (S, seq<Byte>) -> S, n: nat, s: S, r: seq<Byte>)
    requires n > 0 && |r| <= n
    ensures Fold(step, n, s, r) == if |r| < n then s else step(s, r)
  {
    assert |r| == n ==> r[..n] == r && r[n..] == [];
  }

  /** Bytes that stay inside the block join what remains; those that complete it take a step. */
  lemma FoldMore<S>(step: (S, seq<Byte>) -> S, n: nat, s: S, m: seq<Byte>, x: seq<Byte>)
    requires n > 0 && |m| % n + |x| <= n
    ensures |m| % n + |x| < n ==> Fold(step, n, s, m + x) == Fold(step, n, s, m) && Rest(n, m + x) == Rest(n, m) + x
    ensures |m| % n + |x| == n ==>
      Fold(step, n, s, m + x) == step(Fold(step, n, s, m), Rest(n, m) + x) && Rest(n, m + x) == []
  {
    hide Fold, Whole, Rest;
    var whole, r := Whole(n, m), Rest(n, m);
    WholeAndRest(n, m);
    FoldSplit(step, n, s, whole, r);
    FoldSplit(step, n, s, whole, r + x);
    assert whole + (r + x) == m + x;
  }

  function Whole(n: nat, m: seq<Byte>): seq<Byte>
    requires n > 0
  {
    m[..|m| - |m| % n]
  }

  lemma WholeAndRest(n: nat, m: seq<Byte>)
    requires n > 0
    ensures Whole(n, m) + Rest(n, m) == m && |Whole(n, m)| % n == 0 && |Rest(n, m)| == |m| % n < n
  {
    WholeLength(|m|, n);
  }

  lemma WholeLength(k: nat, n: nat)
    requires n > 0
    ensures (k - k % n) % n == 0
  {
    QuotientUnique(k - k % n, n, k / n, 0);
  }

  lemma RemainderAfter(k: nat, x: nat, n: nat)
    requires n > 0 && k % n + x <= n
    ensures (k + x) % n == if k % n + x == n then 0 else k % n + x
  {
    if k % n + x == n {
      QuotientUnique(k + x, n, k / n + 1, 0);
    } else {
      QuotientUnique(k + x, n, k / n, k % n + x);
    }
  }

  function Join(pieces: seq<seq<Byte>>): seq<Byte> {
    if |pieces| == 0 then [] else pieces[0] + Join(pieces[1..])
  }

  lemma JoinStart(pieces: seq<seq<Byte>>)
    ensures Join(pieces) == [] + Join(pieces[0..])
  {
    assert pieces[0..] == pieces;
  }

  lemma JoinNext(pieces: seq<seq<Byte>>, i: nat, was: seq<Byte>)
    requires i < |pieces|
    ensures was + Join(pieces[i..]) == was + pieces[i] + Join(pieces[i + 1..])
  {
    assert pieces[i..][1..] == pieces[i + 1..];
  }

  lemma JoinEnd(m: seq<Byte>)
    ensures m + Join([]) == m
  {}

  lemma JoinOne(m: seq<Byte>)
    ensures Join([m]) == m
  {
    assert [m][1..] == [];
  }
}
