/** The received packet numbers of one epoch (quic.c), kept as ranges. */
module AckRanges {

  const LIMIT: nat := 0x4000_0000_0000_0000 // 2^62, above every packet number
  const MAX_RANGES: nat := 32

  datatype Range = Range(start: nat, end: nat)

  /** Ascending, with at least one number between neighbours. */
  predicate Sorted(s: seq<Range>) {
    && (forall i :: 0 <= i < |s| ==> s[i].start <= s[i].end < LIMIT)
    && (forall i, j :: 0 <= i < j < |s| ==> s[i].end + 2 <= s[j].start)
  }

  /** n is in one of the ranges. */
  predicate Covers(s: seq<Range>, n: int) {
    exists i :: 0 <= i < |s| && s[i].start <= n <= s[i].end
  }

  /** No neighbour of pn, nor pn itself, is in a range. */
  predicate Isolated(s: seq<Range>, pn: int) {
    forall i :: 0 <= i < |s| ==> pn + 1 < s[i].start || s[i].end + 1 < pn
  }

  /** t holds what s holds, and pn. */
  ghost predicate Gains(s: seq<Range>, pn: nat, t: seq<Range>) {
    forall n: int :: Covers(t, n) <==> Covers(s, n) || n == pn
  }

  /** What one arrival does: the set of numbers gains pn, unless pn would need a
      thirty-third range. */
  ghost predicate Received(s: seq<Range>, pn: nat, t: seq<Range>) {
    && Sorted(t) && |t| <= MAX_RANGES
    && (if |s| == MAX_RANGES && Isolated(s, pn) then t == s
        else Gains(s, pn, t))
  }

  // ----- the three ways a list changes ------------------------------------------------------

  function Without(s: seq<Range>, i: nat): (t: seq<Range>)
    requires i < |s|
    ensures |t| == |s| - 1
  {
    s[..i] + s[i + 1..]
  }

  /** Ranges i - 1 and i become one. */
  function Merged(s: seq<Range>, i: nat): (t: seq<Range>)
    requires 0 < i < |s|
    ensures |t| == |s| - 1
  {
    Without(s[i - 1 := Range(s[i - 1].start, s[i].end)], i)
  }

  function Inserted(s: seq<Range>, i: nat, pn: nat): (t: seq<Range>)
    requires i <= |s|
    ensures |t| == |s| + 1
  {
    s[..i] + [Range(pn, pn)] + s[i..]
  }

  lemma CoversAt(s: seq<Range>, i: nat, n: int)
    requires i < |s| && s[i].start <= n <= s[i].end
    ensures Covers(s, n)
  {}

  lemma CoverIndex(s: seq<Range>, n: int) returns (i: nat)
    requires Covers(s, n)
    ensures i < |s| && s[i].start <= n <= s[i].end
  {
    i :| 0 <= i < |s| && s[i].start <= n <= s[i].end;
  }

  /** One end of a range moves by one, and no other range is reached. */
  lemma ExtendSorted(s: seq<Range>, i: nat, r: Range)
    requires Sorted(s) && i < |s| && r.start <= r.end < LIMIT
    requires i > 0 ==> s[i - 1].end + 2 <= r.start
    requires i + 1 < |s| ==> r.end + 2 <= s[i + 1].start
    ensures Sorted(s[i := r])
  {
    var t := s[i := r];
    forall j, k | 0 <= j < k < |t| ensures t[j].end + 2 <= t[k].start {
      if j == i && k > i + 1 {
        assert s[i + 1].end + 2 <= s[k].start && s[i + 1].start <= s[i + 1].end;
      }
      if k == i && j < i - 1 {
        assert s[j].end + 2 <= s[i - 1].start && s[i - 1].start <= s[i - 1].end;
      }
    }
  }

  lemma ExtendCovers(s: seq<Range>, i: nat, r: Range, pn: nat)
    requires i < |s| && s[i].start <= s[i].end
    requires (r == Range(pn, s[i].end) && pn + 1 == s[i].start) || (r == Range(s[i].start, pn) && pn == s[i].end + 1)
    ensures Gains(s, pn, s[i := r])
  {
    hide Covers;
    var t := s[i := r];
    forall n: int ensures Covers(t, n) <==> Covers(s, n) || n == pn {
      if Covers(s, n) {
        var j := CoverIndex(s, n);
        CoversAt(t, j, n);
      }
      if n == pn {
        CoversAt(t, i, n);
      }
      if Covers(t, n) {
        var j := CoverIndex(t, n);
        if j != i || n != pn {
          CoversAt(s, j, n);
        }
      }
    }
  }

  lemma MergedAt(s: seq<Range>, i: nat, j: nat)
    requires 0 < i < |s| && j < |s| - 1
    ensures Merged(s, i)[j] == if j < i - 1 then s[j] else if j == i - 1 then Range(s[i - 1].start, s[i].end) else s[j + 1]
  {}

  lemma MergeSorted(s: seq<Range>, i: nat)
    requires Sorted(s) && 0 < i < |s|
    ensures Sorted(Merged(s, i))
  {
    hide Merged;
    var t := Merged(s, i);
    assert s[i - 1].end + 2 <= s[i].start;
    forall j | 0 <= j < |t| ensures t[j].start <= t[j].end < LIMIT {
      MergedAt(s, i, j);
    }
    forall j, k | 0 <= j < k < |t| ensures t[j].end + 2 <= t[k].start {
      MergedAt(s, i, j);
      MergedAt(s, i, k);
    }
  }

  /** A range that ends just below pn absorbs pn and its upper neighbour, which starts
      just above pn. */
  lemma MergeCovers(s: seq<Range>, i: nat, pn: nat)
    requires 0 < i < |s| && s[i - 1].start <= s[i - 1].end && s[i].start <= s[i].end
    requires s[i - 1].end + 1 == pn && s[i].start == pn + 1
    ensures Gains(s, pn, Merged(s, i))
  {
    hide Covers, Merged;
    var t := Merged(s, i);
    MergedAt(s, i, i - 1);
    forall n: int ensures Covers(t, n) <==> Covers(s, n) || n == pn {
      if Covers(s, n) {
        var j := CoverIndex(s, n);
        var k := if j < i then j else j - 1;
        MergedAt(s, i, k);
        CoversAt(t, k, n);
      }
      if n == pn {
        CoversAt(t, i - 1, n);
      }
      if Covers(t, n) {
        var j := CoverIndex(t, n);
        MergedAt(s, i, j);
        if j < i - 1 {
          CoversAt(s, j, n);
        } else if j > i - 1 {
          CoversAt(s, j + 1, n);
        } else if n < pn {
          CoversAt(s, i - 1, n);
        } else if n > pn {
          CoversAt(s, i, n);
        }
      }
    }
  }

  lemma InsertedAt(s: seq<Range>, i: nat, pn: nat, j: nat)
    requires i <= |s| && j <= |s|
    ensures Inserted(s, i, pn)[j] == if j < i then s[j] else if j == i then Range(pn, pn) else s[j - 1]
  {}

  lemma IsInserted(s: seq<Range>, t: seq<Range>, i: nat, pn: nat)
    requires i <= |s| && |t| == |s| + 1
    requires forall j :: 0 <= j <= |s| ==> t[j] == if j < i then s[j] else if j == i then Range(pn, pn) else s[j - 1]
    ensures t == Inserted(s, i, pn)
  {
    hide Inserted;
    forall j | 0 <= j < |t| ensures t[j] == Inserted(s, i, pn)[j] {
      InsertedAt(s, i, pn, j);
    }
  }

  lemma InsertSorted(s: seq<Range>, i: nat, pn: nat)
    requires Sorted(s) && Isolated(s, pn) && i <= |s| && pn < LIMIT
    requires forall j :: 0 <= j < i ==> s[j].start < pn
    requires i < |s| ==> s[i].start >= pn
    ensures Sorted(Inserted(s, i, pn))
  {
    hide Inserted;
    var t := Inserted(s, i, pn);
    forall j | 0 <= j < |t| ensures t[j].start <= t[j].end < LIMIT {
      InsertedAt(s, i, pn, j);
    }
    forall j, k | 0 <= j < k < |t| ensures t[j].end + 2 <= t[k].start {
      InsertedAt(s, i, pn, j);
      InsertedAt(s, i, pn, k);
    }
  }

  lemma InsertCovers(s: seq<Range>, i: nat, pn: nat)
    requires i <= |s|
    ensures Gains(s, pn, Inserted(s, i, pn))
  {
    hide Covers, Inserted;
    var t := Inserted(s, i, pn);
    forall n: int ensures Covers(t, n) <==> Covers(s, n) || n == pn {
      if Covers(s, n) {
        var j := CoverIndex(s, n);
        var k := if j < i then j else j + 1;
        InsertedAt(s, i, pn, k);
        CoversAt(t, k, n);
      }
      if n == pn {
        InsertedAt(s, i, pn, i);
        CoversAt(t, i, n);
      }
      if Covers(t, n) {
        var j := CoverIndex(t, n);
        InsertedAt(s, i, pn, j);
        if j < i {
          CoversAt(s, j, n);
        } else if j > i {
          CoversAt(s, j - 1, n);
        }
      }
    }
  }

  // ----- the class ----------------------------------------------------------------------------

  /** rx_packets of one epoch: a fixed table and the number of ranges in use. */
  class Packets {
    var ranges: array<Range>
    var count: nat

    ghost predicate Valid()
      reads this, ranges
    {
      ranges.Length == MAX_RANGES && count <= MAX_RANGES && Sorted(Ranges())
    }

    function Ranges(): (s: seq<Range>)
      requires count <= ranges.Length
      reads this, ranges
      ensures |s| == count
    {
      ranges[..count]
    }

    constructor ()
      ensures Valid() && Ranges() == [] && fresh(ranges)
    {
      ranges := new Range[MAX_RANGES](i => Range(0, 0));
      count := 0;
    }

    /** Range i leaves the table; the later ones move down. */
    method Remove(i: nat)
      requires ranges.Length == MAX_RANGES && i < count <= MAX_RANGES
      modifies this`count, ranges
      ensures count == old(count) - 1
      ensures Ranges() == Without(old(Ranges()), i)
    {
      var j := i;
      while j < count - 1
        invariant i <= j <= count - 1 && count == old(count)
        invariant forall k :: 0 <= k < i ==> ranges[k] == old(ranges[k])
        invariant forall k :: i <= k < j ==> ranges[k] == old(ranges[k + 1])
        invariant forall k :: j <= k < count ==> ranges[k] == old(ranges[k])
      {
        ranges[j] := ranges[j + 1];
        j := j + 1;
      }
      count := count - 1;
    }

    /** Range i takes a new place in the table; the later ones move up. */
    method Insert(i: nat, pn: nat)
      requires ranges.Length == MAX_RANGES && i <= count < MAX_RANGES
      modifies this`count, ranges
      ensures count == old(count) + 1
      ensures Ranges() == Inserted(old(Ranges()), i, pn)
    {
      ghost var s := Ranges();
      var j := count;
      while j > i
        invariant i <= j <= count == old(count)
        invariant forall k :: 0 <= k < j ==> ranges[k] == old(ranges[k])
        invariant forall k :: j < k <= count ==> ranges[k] == old(ranges[k - 1])
      {
        ranges[j] := ranges[j - 1];
        j := j - 1;
      }
      ranges[i] := Range(pn, pn);
      count := count + 1;
      IsInserted(s, Ranges(), i, pn);
    }

    /** The table after range i has taken in pn. */
    method Extend(i: nat, r: Range, ghost pn: nat)
      requires Valid() && i < count && pn < LIMIT
      requires (r == Range(pn, Ranges()[i].end) && pn + 1 == Ranges()[i].start)
        || (r == Range(Ranges()[i].start, pn) && pn == Ranges()[i].end + 1)
      requires i > 0 ==> Ranges()[i - 1].end + 2 <= r.start
      requires i + 1 < count ==> r.end + 2 <= Ranges()[i + 1].start
      modifies ranges
      ensures Valid() && Received(old(Ranges()), pn, Ranges())
    {
      hide Covers, Received, Sorted, Isolated;
      ghost var s := Ranges();
      ExtendAdded(s, i, r, pn);
      ranges[i] := r;
      assert Ranges() == s[i := r];
    }

    /** quic_add_received_pn. */
    method Add(pn: nat)
      requires Valid() && pn < LIMIT
      modifies this`count, ranges
      ensures Valid() && Received(old(Ranges()), pn, Ranges())
    {
      hide Covers, Merged, Inserted, Sorted, Received;
      ghost var s := Ranges();
      var i := 0;
      while i < count
        invariant 0 <= i <= count == old(count) && Ranges() == s
        invariant forall k :: 0 <= k < i ==> pn + 1 < s[k].start || s[k].end + 1 < pn
      {
        Neighbours(s, i);
        if ranges[i].start <= pn <= ranges[i].end {
          AlreadyTracked(s, i, pn);
          return;
        }
        if pn == (ranges[i].start - 1) % 0x1_0000_0000_0000_0000 {
          if i > 0 && ranges[i - 1].end >= pn - 1 {
            // pn would have extended range i - 1
            assert false;
          }
          Extend(i, Range(pn, ranges[i].end), pn);
          return;
        }
        if pn == ranges[i].end + 1 {
          if i < count - 1 && ranges[i + 1].start <= pn + 1 {
            MergeAdded(s, i, pn);
            ranges[i] := Range(ranges[i].start, ranges[i + 1].end);
            assert Ranges() == s[i := Range(s[i].start, s[i + 1].end)];
            Remove(i + 1);
          } else {
            Extend(i, Range(ranges[i].start, pn), pn);
          }
          return;
        }
        i := i + 1;
      }
      if count >= 32 {
        NotInserted(s, pn);
        return;
      }
      var pos := 0;
      while pos < count && ranges[pos].start < pn
        invariant 0 <= pos <= count == old(count) && Ranges() == s
        invariant forall k :: 0 <= k < pos ==> s[k].start < pn
      {
        pos := pos + 1;
      }
      InsertAdded(s, pos, pn);
      Insert(pos, pn);
    }
  }

  lemma Neighbours(s: seq<Range>, i: nat)
    requires Sorted(s) && i < |s|
    ensures s[i].start <= s[i].end < LIMIT
    ensures i > 0 ==> s[i - 1].start <= s[i - 1].end && s[i - 1].end + 2 <= s[i].start
    ensures i + 1 < |s| ==> s[i + 1].start <= s[i + 1].end && s[i].end + 2 <= s[i + 1].start
  {}

  lemma AlreadyTracked(s: seq<Range>, i: nat, pn: nat)
    requires Sorted(s) && |s| <= MAX_RANGES && i < |s| && s[i].start <= pn <= s[i].end
    ensures Received(s, pn, s)
  {
    hide Sorted;
    assert Covers(s, pn);
    assert !Isolated(s, pn);
  }

  lemma ExtendAdded(s: seq<Range>, i: nat, r: Range, pn: nat)
    requires Sorted(s) && |s| <= MAX_RANGES && i < |s| && pn < LIMIT
    requires (r == Range(pn, s[i].end) && pn + 1 == s[i].start) || (r == Range(s[i].start, pn) && pn == s[i].end + 1)
    requires i > 0 ==> s[i - 1].end + 2 <= r.start
    requires i + 1 < |s| ==> r.end + 2 <= s[i + 1].start
    ensures Sorted(s[i := r]) && Received(s, pn, s[i := r])
  {
    hide Gains;
    Neighbours(s, i);
    ExtendSorted(s, i, r);
    ExtendCovers(s, i, r, pn);
    assert !Isolated(s, pn);
  }

  lemma MergeAdded(s: seq<Range>, i: nat, pn: nat)
    requires Sorted(s) && |s| <= MAX_RANGES && i + 1 < |s|
    requires pn == s[i].end + 1 && s[i + 1].start <= pn + 1
    ensures Merged(s, i + 1) == Without(s[i := Range(s[i].start, s[i + 1].end)], i + 1)
    ensures Received(s, pn, Merged(s, i + 1)) && Sorted(Merged(s, i + 1))
  {
    hide Gains;
    Neighbours(s, i);
    MergeSorted(s, i + 1);
    MergeCovers(s, i + 1, pn);
    assert !Isolated(s, pn);
  }

  lemma NotInserted(s: seq<Range>, pn: nat)
    requires Sorted(s) && |s| == MAX_RANGES && Isolated(s, pn)
    ensures Received(s, pn, s)
  {}

  lemma InsertAdded(s: seq<Range>, i: nat, pn: nat)
    requires Sorted(s) && Isolated(s, pn) && i <= |s| < MAX_RANGES && pn < LIMIT
    requires forall j :: 0 <= j < i ==> s[j].start < pn
    requires i < |s| ==> s[i].start >= pn
    ensures Received(s, pn, Inserted(s, i, pn)) && Sorted(Inserted(s, i, pn))
  {
    hide Gains, Inserted;
    InsertSorted(s, i, pn);
    InsertCovers(s, i, pn);
  }

  // ----- the list is determined by the set ----------------------------------------------------

  /** Two lists of the same set are equal. */
  lemma {:induction false} Canonical(s: seq<Range>, t: seq<Range>)
    requires Sorted(s) && Sorted(t)
    requires forall n: int :: Covers(s, n) <==> Covers(t, n)
    ensures s == t
    decreases |s|
  {
    assert |s| > 0 ==> Covers(s, s[0].start);
    assert |t| > 0 ==> Covers(t, t[0].start);
    if |s| > 0 && |t| > 0 {
      SameFirst(s, t);
      forall n: int ensures Covers(s[1..], n) <==> Covers(t[1..], n) {
        RestCovers(s, n);
        RestCovers(t, n);
      }
      Canonical(s[1..], t[1..]);
    }
  }

  lemma RestCovers(s: seq<Range>, n: int)
    requires Sorted(s) && |s| > 0
    ensures Covers(s[1..], n) <==> Covers(s, n) && n > s[0].end
  {
    if Covers(s[1..], n) {
      var i :| 0 <= i < |s[1..]| && s[1..][i].start <= n <= s[1..][i].end;
      assert s[i + 1].start <= n <= s[i + 1].end;
    }
    if Covers(s, n) && n > s[0].end {
      var i :| 0 <= i < |s| && s[i].start <= n <= s[i].end;
      assert s[1..][i - 1].start <= n <= s[1..][i - 1].end;
    }
  }

  lemma SameFirst(s: seq<Range>, t: seq<Range>)
    requires Sorted(s) && Sorted(t) && |s| > 0 && |t| > 0
    requires forall n: int :: Covers(s, n) <==> Covers(t, n)
    ensures s[0] == t[0]
  {
    assert s[0].start <= s[0].start <= s[0].end && t[0].start <= t[0].start <= t[0].end;
    assert Covers(s, s[0].start) && Covers(t, t[0].start);
    assert Covers(s, s[0].end) && Covers(t, t[0].end);
    NotAfter(s);
    NotAfter(t);
    assert Covers(t, s[0].start) && Covers(s, t[0].start);
    assert Covers(t, s[0].end) && Covers(s, t[0].end);
    if s[0].end < t[0].end {
      assert Covers(t, s[0].end + 1);
    } else if t[0].end < s[0].end {
      assert Covers(s, t[0].end + 1);
    }
  }

  lemma NotAfter(s: seq<Range>)
    requires Sorted(s) && |s| > 0
    ensures !Covers(s, s[0].end + 1)
    ensures forall n: int :: Covers(s, n) ==> s[0].start <= n
  {}

  // ----- every run -----------------------------------------------------------------------------

  /** The states of a run over a sequence of arrivals. */
  ghost predicate Run(states: seq<seq<Range>>, arrivals: seq<nat>) {
    && |states| == |arrivals| + 1 && states[0] == []
    && forall k :: 0 <= k < |arrivals| ==> arrivals[k] < LIMIT && Received(states[k], arrivals[k], states[k + 1])
  }

  /** After any arrivals, in any order and with duplicates: the ranges are sorted, hold
      only numbers that arrived, and forget nothing they held. */
  lemma {:induction false} EveryRun(states: seq<seq<Range>>, arrivals: seq<nat>, k: nat)
    requires Run(states, arrivals) && k <= |arrivals|
    ensures Sorted(states[k]) && |states[k]| <= MAX_RANGES
    ensures forall n: int :: Covers(states[k], n) ==> n in arrivals[..k]
    ensures forall j, n: int :: 0 <= j <= k && Covers(states[j], n) ==> Covers(states[k], n)
  {
    if k > 0 {
      EveryRun(states, arrivals, k - 1);
      assert Received(states[k - 1], arrivals[k - 1], states[k]);
      assert arrivals[..k] == arrivals[..k - 1] + [arrivals[k - 1]];
    }
  }

  /** While no arrival needs a thirty-third range nothing is dropped: the ranges are
      exactly the set of arrivals. */
  lemma {:induction false} NothingDropped(states: seq<seq<Range>>, arrivals: seq<nat>, k: nat)
    requires Run(states, arrivals) && k <= |arrivals|
    requires forall j :: 0 <= j < k ==> |states[j]| < MAX_RANGES || !Isolated(states[j], arrivals[j])
    ensures forall n: int :: Covers(states[k], n) <==> n in arrivals[..k]
  {
    if k > 0 {
      NothingDropped(states, arrivals, k - 1);
      assert Received(states[k - 1], arrivals[k - 1], states[k]);
      assert arrivals[..k] == arrivals[..k - 1] + [arrivals[k - 1]];
    }
  }
}
