/** ACK frames (section 19.3 of RFC 9000): what quic_build_ack_frame writes and what
    the parser makes of it. */
module AckFrame {
  import opened Bits
  import opened AckRanges
  import opened Varint

  // ----- the builder ---------------------------------------------------------------------

  /** The gap and the length written for range i, below range i + 1. */
  function GapPair(s: seq<Range>, i: nat): seq<Byte>
    requires Sorted(s) && i + 1 < |s|
  {
    Neighbours(s, i);
    PutVarint(s[i + 1].start - s[i].end - 2) + PutVarint(s[i].end - s[i].start)
  }

  /** The pairs for the ranges below range i, downwards. */
  function Gaps(s: seq<Range>, i: nat): seq<Byte>
    requires Sorted(s) && i < |s|
  {
    if i == 0 then [] else GapPair(s, i - 1) + Gaps(s, i - 1)
  }

  /** The four fields before the pairs. */
  function Head(s: seq<Range>): seq<Byte>
    requires Sorted(s) && 0 < |s| <= MAX_RANGES
  {
    var last := |s| - 1;
    Neighbours(s, last);
    PutVarint(s[last].end) + PutVarint(0) + PutVarint(last) + PutVarint(s[last].end - s[last].start)
  }

  function Frame(s: seq<Range>): seq<Byte>
    requires Sorted(s) && 0 < |s| <= MAX_RANGES
  {
    [2] + Head(s) + Gaps(s, |s| - 1)
  }

  /** The fields in order: for 1, 2, 5, 6 and 7 the largest number 7, no delay, one more
      range, 2 below the largest, one number skipped beyond the first, and 1 below 2. */
  lemma FrameExample()
    ensures var s := [Range(1, 2), Range(5, 7)]; Sorted(s) && Frame(s) == [2, 7, 0, 1, 2, 1, 1]
  {
    var s := [Range(1, 2), Range(5, 7)];
    assert Gaps(s, 0) == [];
    assert Frame(s) == [2] + Head(s) + (GapPair(s, 0) + Gaps(s, 0));
  }

  /** quic_build_ack_frame. */
  method Build(p: Packets) returns (payload: seq<Byte>)
    requires p.Valid()
    ensures p.count == 0 ==> payload == []
    ensures p.count > 0 ==> payload == Frame(p.Ranges())
  {
    hide PutVarint, Sorted;
    if p.count == 0 { return []; }
    var ranges := p.Ranges();
    var last := p.count - 1;
    Neighbours(ranges, last);
    payload := [2];
    payload := payload + PutVarint(ranges[last].end);
    payload := payload + PutVarint(0);
    payload := payload + PutVarint(last);
    payload := payload + PutVarint(ranges[last].end - ranges[last].start);
    assert payload == [2] + Head(ranges);
    var i := last - 1;
    while i >= 0
      invariant -1 <= i < last
      invariant payload + Gaps(ranges, i + 1) == Frame(ranges)
    {
      Neighbours(ranges, i);
      Neighbours(ranges, i + 1);
      Rejoin(payload, PutVarint(ranges[i + 1].start - ranges[i].end - 2), PutVarint(ranges[i].end - ranges[i].start),
        Gaps(ranges, i));
      payload := payload + PutVarint(ranges[i + 1].start - ranges[i].end - 2);
      payload := payload + PutVarint(ranges[i].end - ranges[i].start);
      i := i - 1;
    }
    assert payload + [] == payload;
  }

  lemma Rejoin(p: seq<Byte>, a: seq<Byte>, b: seq<Byte>, c: seq<Byte>)
    ensures p + (a + b + c) == p + a + b + c
  {}

  // ----- the parser ------------------------------------------------------------------------

  /** What is left of the payload at an offset, which may lie past the end. */
  function Rest(payload: seq<Byte>, off: nat): seq<Byte> {
    if off <= |payload| then payload[off..] else []
  }

  /** The packet numbers acknowledged for a range of len + 1 numbers that ends at end;
      unsigned subtraction wraps around. */
  function Wrapped(end: int, p: nat, len: nat): (r: seq<int>)
    decreases len + 1 - p
  {
    if p > len then [] else [(end - p) % 0x1_0000_0000_0000_0000] + Wrapped(end, p + 1, len)
  }

  /** The same for the later ranges, where numbers below zero are skipped. */
  function Clipped(end: int, p: nat, len: nat): (r: seq<int>)
    decreases len + 1 - p
  {
    if p > len then [] else (if end >= p then [end - p] else []) + Clipped(end, p + 1, len)
  }

  datatype Parsed = Parsed(off: nat, acked: seq<int>)

  /** The remaining n gap and length pairs. */
  function ParseGaps(payload: seq<Byte>, off: nat, l: nat, curr: nat, n: nat): (r: Parsed)
    decreases n
  {
    if n == 0 then Parsed(off, [])
    else
      var (gap, l1) := ParseVarint(Rest(payload, off), l);
      var (len, l2) := ParseVarint(Rest(payload, off + l1), l1);
      var next := if curr >= gap + 2 && curr - gap - 2 >= len then curr - gap - 2 - len else curr;
      var tail := ParseGaps(payload, off + l1 + l2, l2, next, n - 1);
      Parsed(tail.off, (if curr >= gap + 2 then Clipped(curr - gap - 2, 0, len) else []) + tail.acked)
  }

  /** An ACK frame of type 2, after its type byte. */
  function ParseAck(payload: seq<Byte>, off: nat): (r: Parsed) {
    var (largest, l1) := ParseVarint(Rest(payload, off), 0);
    var (delay, l2) := ParseVarint(Rest(payload, off + l1), l1);
    var (count, l3) := ParseVarint(Rest(payload, off + l1 + l2), l2);
    var (first, l4) := ParseVarint(Rest(payload, off + l1 + l2 + l3), l3);
    var curr := if largest >= first then largest - first else largest;
    var tail := ParseGaps(payload, off + l1 + l2 + l3 + l4, l4, curr, count);
    Parsed(tail.off, Wrapped(largest, 0, first) + tail.acked)
  }

  lemma WrappedNext(end: int, p: nat, len: nat)
    requires p <= len
    ensures Wrapped(end, p, len) == [(end - p) % 0x1_0000_0000_0000_0000] + Wrapped(end, p + 1, len)
    ensures Clipped(end, p, len) == (if end >= p then [end - p] else []) + Clipped(end, p + 1, len)
  {}

  /** The calls for the first range, appended to the log. */
  method AckFirst(log: seq<int>, end: int, len: nat) returns (acked: seq<int>)
    ensures acked == log + Wrapped(end, 0, len)
  {
    hide Wrapped, Clipped;
    acked := log;
    var p := 0;
    while p <= len
      invariant 0 <= p <= len + 1
      invariant acked + Wrapped(end, p, len) == log + Wrapped(end, 0, len)
    {
      WrappedNext(end, p, len);
      acked := acked + [(end - p) % 0x1_0000_0000_0000_0000];
      p := p + 1;
    }
    WrappedEnd(end, p, len);
  }

  /** The calls for a later range. */
  method AckLater(log: seq<int>, end: int, len: nat) returns (acked: seq<int>)
    ensures acked == log + Clipped(end, 0, len)
  {
    hide Wrapped, Clipped;
    acked := log;
    var p := 0;
    while p <= len
      invariant 0 <= p <= len + 1
      invariant acked + Clipped(end, p, len) == log + Clipped(end, 0, len)
    {
      WrappedNext(end, p, len);
      if end >= p {
        acked := acked + [end - p];
      }
      p := p + 1;
    }
    WrappedEnd(end, p, len);
  }

  /** The ACK part of quic_parse_frames, with the log of the calls to
      quic_handle_packet_acked. */
  method HandleAck(payload: seq<Byte>, start: nat) returns (off: nat, acked: seq<int>)
    ensures Parsed(off, acked) == ParseAck(payload, start)
  {
    hide ParseVarint, Rest, Wrapped, Clipped;
    off := start;
    var v := ParseVarint(Rest(payload, off), 0);
    var largest, l := v.0, v.1;
    off := off + l;
    v := ParseVarint(Rest(payload, off), l);
    l := v.1;
    off := off + l;
    v := ParseVarint(Rest(payload, off), l);
    var count := v.0;
    l := v.1;
    off := off + l;
    v := ParseVarint(Rest(payload, off), l);
    var first := v.0;
    l := v.1;
    off := off + l;
    acked := AckFirst([], largest, first);
    var curr := if largest >= first then largest - first else largest;
    off, acked := HandleGaps(payload, off, l, curr, count, acked);
  }

  /** The gap and length pairs. */
  method HandleGaps(payload: seq<Byte>, start: nat, l_: nat, curr_: nat, count: nat, log: seq<int>)
    returns (off: nat, acked: seq<int>)
    ensures off == ParseGaps(payload, start, l_, curr_, count).off
    ensures acked == log + ParseGaps(payload, start, l_, curr_, count).acked
  {
    hide ParseVarint, Rest, Clipped;
    off, acked := start, log;
    var l, curr := l_, curr_;
    var i := 0;
    ghost var goal := ParseGaps(payload, start, l_, curr_, count);
    while i < count
      invariant 0 <= i <= count
      invariant ParseGaps(payload, off, l, curr, count - i).off == goal.off
      invariant acked + ParseGaps(payload, off, l, curr, count - i).acked == log + goal.acked
    {
      var v := ParseVarint(Rest(payload, off), l);
      var gap := v.0;
      var w := ParseVarint(Rest(payload, off + v.1), v.1);
      var len := w.0;
      ghost var was := acked;
      off, l := off + v.1 + w.1, w.1;
      if curr >= gap + 2 {
        var end := curr - gap - 2;
        acked := AckLater(acked, end, len);
        if end >= len {
          curr := end - len;
        }
      }
      i := i + 1;
    }
  }

  lemma WrappedEnd(end: int, p: nat, len: nat)
    requires p > len
    ensures Wrapped(end, p, len) == [] && Clipped(end, p, len) == []
  {}

  // ----- the round trip ----------------------------------------------------------------------

  /** The numbers from hi down to lo. */
  function CountDown(hi: int, lo: int): (r: seq<int>)
    ensures forall n :: n in r <==> lo <= n <= hi
    ensures forall i, j :: 0 <= i < j < |r| ==> r[i] > r[j]
    decreases hi - lo
  {
    if hi < lo then []
    else
      var r := CountDown(hi - 1, lo);
      assert forall i :: 0 <= i < |r| ==> r[i] in r;
      [hi] + r
  }

  /** The numbers in the first n ranges, highest first. */
  function Down(s: seq<Range>, n: nat): (r: seq<int>)
    requires n <= |s|
  {
    if n == 0 then [] else CountDown(s[n - 1].end, s[n - 1].start) + Down(s, n - 1)
  }

  lemma {:induction false} WrappedDown(end: nat, p: nat, len: nat)
    requires p <= len + 1 && len <= end < MAX_VARINT
    ensures Wrapped(end, p, len) == CountDown(end - p, end - len)
    ensures Clipped(end, p, len) == CountDown(end - p, end - len)
    decreases len + 1 - p
  {
    if p <= len {
      WrappedDown(end, p + 1, len);
    }
  }

  /** Parsing a varint at an offset where one was written. */
  lemma ParseAt(payload: seq<Byte>, off: nat, val: nat, rest: seq<Byte>, l: nat)
    requires off <= |payload| && val < MAX_VARINT && payload[off..] == PutVarint(val) + rest
    ensures ParseVarint(Rest(payload, off), l) == (val, |PutVarint(val)|)
    ensures off + |PutVarint(val)| <= |payload| && payload[off + |PutVarint(val)|..] == rest
  {
    hide PutVarint, ParseVarint;
    VarintRoundTrip(val, rest, l);
    var k := |PutVarint(val)|;
    assert payload[off..][k..] == payload[off + k..];
  }

  /** The state of the parser between pairs: at offset off, with range i done. */
  ghost predicate AtGaps(s: seq<Range>, i: nat, payload: seq<Byte>, off: nat, rest: seq<Byte>)
    requires Sorted(s) && i < |s|
  {
    off <= |payload| && payload[off..] == Gaps(s, i) + rest
  }

  /** One pair is read back. */
  lemma PairRoundTrip(s: seq<Range>, i: nat, payload: seq<Byte>, off: nat, rest: seq<Byte>, l: nat)
    requires Sorted(s) && 0 < i < |s| && AtGaps(s, i, payload, off, rest)
    ensures var gap, len := s[i].start - s[i - 1].end - 2, s[i - 1].end - s[i - 1].start;
      && 0 <= gap < MAX_VARINT && 0 <= len < MAX_VARINT
      && var a, b := |PutVarint(gap)|, |PutVarint(len)|;
      && ParseVarint(Rest(payload, off), l) == (gap, a)
      && ParseVarint(Rest(payload, off + a), a) == (len, b)
      && AtGaps(s, i - 1, payload, off + a + b, rest)
      && |Gaps(s, i)| == a + b + |Gaps(s, i - 1)|
  {
    hide PutVarint, ParseVarint, Rest, Sorted;
    Neighbours(s, i - 1);
    Neighbours(s, i);
    var gap, len := s[i].start - s[i - 1].end - 2, s[i - 1].end - s[i - 1].start;
    var a, b, c := PutVarint(gap), PutVarint(len), Gaps(s, i - 1);
    assert payload[off..] == a + (b + (c + rest));
    ParseAt(payload, off, gap, b + (c + rest), l);
    ParseAt(payload, off + |a|, len, c + rest, |a|);
  }

  lemma ParseGapsStep(payload: seq<Byte>, off: nat, l: nat, curr: nat, n: nat, gap: nat, a: nat, len: nat, b: nat)
    requires n > 0 && ParseVarint(Rest(payload, off), l) == (gap, a)
    requires ParseVarint(Rest(payload, off + a), a) == (len, b) && curr >= gap + 2 + len
    ensures var tail := ParseGaps(payload, off + a + b, b, curr - gap - 2 - len, n - 1);
      ParseGaps(payload, off, l, curr, n) == Parsed(tail.off, Clipped(curr - gap - 2, 0, len) + tail.acked)
  {
    hide ParseVarint, Rest, Clipped;
  }

  lemma RangeDown(s: seq<Range>, i: nat)
    requires Sorted(s) && 0 < i <= |s|
    ensures Down(s, i) == Clipped(s[i - 1].end, 0, s[i - 1].end - s[i - 1].start) + Down(s, i - 1)
  {
    hide Clipped, CountDown, Sorted;
    Neighbours(s, i - 1);
    WrappedDown(s[i - 1].end, 0, s[i - 1].end - s[i - 1].start);
  }

  /** The length of the encoding of a gap and of a length. */
  function PairLengths(s: seq<Range>, i: nat): (r: (nat, nat))
    requires Sorted(s) && 0 < i < |s|
  {
    Neighbours(s, i - 1);
    Neighbours(s, i);
    (|PutVarint(s[i].start - s[i - 1].end - 2)|, |PutVarint(s[i - 1].end - s[i - 1].start)|)
  }

  lemma GapsStep(s: seq<Range>, i: nat, payload: seq<Byte>, off: nat, rest: seq<Byte>, l: nat)
    requires Sorted(s) && 0 < i < |s| && AtGaps(s, i, payload, off, rest)
    requires var n := PairLengths(s, i);
      var tail := ParseGaps(payload, off + n.0 + n.1, n.1, s[i - 1].start, i - 1);
      tail.off == off + n.0 + n.1 + |Gaps(s, i - 1)| && tail.acked == Down(s, i - 1)
    ensures ParseGaps(payload, off, l, s[i].start, i).off == off + |Gaps(s, i)|
    ensures ParseGaps(payload, off, l, s[i].start, i).acked == Down(s, i)
  {
    hide PutVarint, ParseVarint, Rest, Sorted, Clipped, AtGaps, ParseGaps, Gaps, Down;
    PairRoundTrip(s, i, payload, off, rest, l);
    Neighbours(s, i - 1);
    Neighbours(s, i);
    var gap, len := s[i].start - s[i - 1].end - 2, s[i - 1].end - s[i - 1].start;
    ParseGapsStep(payload, off, l, s[i].start, i, gap, |PutVarint(gap)|, len, |PutVarint(len)|);
    RangeDown(s, i);
  }

  lemma NoGaps(s: seq<Range>, payload: seq<Byte>, off: nat, l: nat)
    requires Sorted(s) && |s| > 0
    ensures ParseGaps(payload, off, l, s[0].start, 0) == Parsed(off, [])
    ensures Gaps(s, 0) == [] && Down(s, 0) == []
  {}

  lemma NextGaps(s: seq<Range>, i: nat, payload: seq<Byte>, off: nat, rest: seq<Byte>, l: nat)
    requires Sorted(s) && 0 < i < |s| && AtGaps(s, i, payload, off, rest)
    ensures AtGaps(s, i - 1, payload, off + PairLengths(s, i).0 + PairLengths(s, i).1, rest)
  {
    hide PutVarint, ParseVarint, Rest, Sorted, AtGaps, Gaps;
    PairRoundTrip(s, i, payload, off, rest, l);
  }

  lemma {:induction false} GapsRoundTrip(s: seq<Range>, i: nat, payload: seq<Byte>, off: nat, rest: seq<Byte>, l: nat)
    requires Sorted(s) && i < |s| && AtGaps(s, i, payload, off, rest)
    ensures ParseGaps(payload, off, l, s[i].start, i).off == off + |Gaps(s, i)|
    ensures ParseGaps(payload, off, l, s[i].start, i).acked == Down(s, i)
  {
    hide PutVarint, ParseVarint, Rest, Sorted, AtGaps, ParseGaps, Gaps, Down, PairLengths;
    if i == 0 {
      NoGaps(s, payload, off, l);
    } else {
      NextGaps(s, i, payload, off, rest, l);
      var n := PairLengths(s, i);
      GapsRoundTrip(s, i - 1, payload, off + n.0 + n.1, rest, n.1);
      GapsStep(s, i, payload, off, rest, l);
    }
  }

  /** Four varints written one after the other are read back. */
  lemma FourFields(payload: seq<Byte>, off: nat, v: nat, w: nat, x: nat, y: nat, rest: seq<Byte>)
    requires off <= |payload| && v < MAX_VARINT && w < MAX_VARINT && x < MAX_VARINT && y < MAX_VARINT
    requires payload[off..] == PutVarint(v) + (PutVarint(w) + (PutVarint(x) + (PutVarint(y) + rest)))
    ensures var a, b, c, d := |PutVarint(v)|, |PutVarint(w)|, |PutVarint(x)|, |PutVarint(y)|;
      && ParseVarint(Rest(payload, off), 0) == (v, a)
      && ParseVarint(Rest(payload, off + a), a) == (w, b)
      && ParseVarint(Rest(payload, off + a + b), b) == (x, c)
      && ParseVarint(Rest(payload, off + a + b + c), c) == (y, d)
      && off + a + b + c + d <= |payload| && payload[off + a + b + c + d..] == rest
  {
    hide PutVarint, ParseVarint, Rest;
    var a, b, c, d := PutVarint(v), PutVarint(w), PutVarint(x), PutVarint(y);
    ParseAt(payload, off, v, b + (c + (d + rest)), 0);
    ParseAt(payload, off + |a|, w, c + (d + rest), |a|);
    ParseAt(payload, off + |a| + |b|, x, d + rest, |b|);
    ParseAt(payload, off + |a| + |b| + |c|, y, rest, |c|);
  }

  lemma SplitFrame(t: seq<Byte>, a: seq<Byte>, b: seq<Byte>, c: seq<Byte>, d: seq<Byte>, g: seq<Byte>, rest: seq<Byte>)
    requires |t| == 1
    ensures (t + (a + b + c + d) + g + rest)[1..] == a + (b + (c + (d + (g + rest))))
    ensures |t + (a + b + c + d) + g| == 1 + |a| + |b| + |c| + |d| + |g|
  {}

  /** The four fields of the head are read back. */
  lemma HeadRoundTrip(s: seq<Range>, payload: seq<Byte>, rest: seq<Byte>)
    requires Sorted(s) && 0 < |s| <= MAX_RANGES && payload == Frame(s) + rest
    ensures var last := |s| - 1;
      var end, first := s[last].end, s[last].end - s[last].start;
      && 0 <= end < MAX_VARINT && 0 <= first < MAX_VARINT
      && var a, b, c, d := |PutVarint(end)|, |PutVarint(0)|, |PutVarint(last)|, |PutVarint(first)|;
      && ParseVarint(Rest(payload, 1), 0) == (end, a)
      && ParseVarint(Rest(payload, 1 + a), a) == (0, b)
      && ParseVarint(Rest(payload, 1 + a + b), b) == (last, c)
      && ParseVarint(Rest(payload, 1 + a + b + c), c) == (first, d)
      && AtGaps(s, last, payload, 1 + a + b + c + d, rest)
      && |Frame(s)| == 1 + a + b + c + d + |Gaps(s, last)|
  {
    hide PutVarint, ParseVarint, Rest, Sorted, Gaps;
    var last := |s| - 1;
    Neighbours(s, last);
    var end, first := s[last].end, s[last].end - s[last].start;
    var g := Gaps(s, last);
    SplitFrame([2], PutVarint(end), PutVarint(0), PutVarint(last), PutVarint(first), g, rest);
    FourFields(payload, 1, end, 0, last, first, g + rest);
  }

  /** Parsing the frame that was built acknowledges every received number once, highest
      first, and consumes exactly the frame. */
  lemma AckRoundTrip(s: seq<Range>, rest: seq<Byte>)
    requires Sorted(s) && 0 < |s| <= MAX_RANGES
    ensures ParseAck(Frame(s) + rest, 1).off == |Frame(s)|
    ensures ParseAck(Frame(s) + rest, 1).acked == Down(s, |s|)
  {
    hide PutVarint, ParseVarint, Rest, Sorted, Wrapped, CountDown, Gaps, ParseGaps, Frame, AtGaps;
    var last := |s| - 1;
    Neighbours(s, last);
    var payload := Frame(s) + rest;
    HeadRoundTrip(s, payload, rest);
    var end, first := s[last].end, s[last].end - s[last].start;
    var a, b, c, d := |PutVarint(end)|, |PutVarint(0)|, |PutVarint(last)|, |PutVarint(first)|;
    GapsRoundTrip(s, last, payload, 1 + a + b + c + d, rest, d);
    WrappedDown(end, 0, first);
  }

  /** The acknowledged numbers are exactly those in the ranges, in strictly descending
      order. */
  lemma {:induction false} DownIsTheSet(s: seq<Range>, n: nat)
    requires Sorted(s) && n <= |s|
    ensures forall x :: x in Down(s, n) <==> Covers(s[..n], x)
    ensures forall i, j :: 0 <= i < j < |Down(s, n)| ==> Down(s, n)[i] > Down(s, n)[j]
  {
    hide CountDown;
    if n > 0 {
      DownIsTheSet(s, n - 1);
      var top, low := CountDown(s[n - 1].end, s[n - 1].start), Down(s, n - 1);
      forall x ensures x in Down(s, n) <==> Covers(s[..n], x) {
        TakeCovers(s, n, x);
      }
      forall x | x in low ensures x < s[n - 1].start {
        BelowRange(s, n, x);
      }
      var d := top + low;
      forall i, j | 0 <= i < j < |d| ensures d[i] > d[j] {
        if i < |top| <= j {
          assert d[i] in top && d[j] in low;
        }
      }
    }
  }

  lemma TakeCovers(s: seq<Range>, n: nat, x: int)
    requires 0 < n <= |s|
    ensures Covers(s[..n], x) <==> Covers(s[..n - 1], x) || s[n - 1].start <= x <= s[n - 1].end
  {
    if Covers(s[..n - 1], x) {
      var i := CoverIndex(s[..n - 1], x);
      CoversAt(s[..n], i, x);
    }
    if s[n - 1].start <= x <= s[n - 1].end {
      CoversAt(s[..n], n - 1, x);
    }
    if Covers(s[..n], x) {
      var i := CoverIndex(s[..n], x);
      if i < n - 1 {
        CoversAt(s[..n - 1], i, x);
      }
    }
  }

  lemma BelowRange(s: seq<Range>, n: nat, x: int)
    requires Sorted(s) && 0 < n <= |s| && Covers(s[..n - 1], x)
    ensures x < s[n - 1].start
  {
    var i := CoverIndex(s[..n - 1], x);
    assert s[i].end + 2 <= s[n - 1].start;
  }
}
