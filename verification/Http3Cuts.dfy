/** How a stream that arrives in pieces is cut, and what the frames in it deliver: the
    frame machine of Http3 over whole streams (section 7.1 of RFC 9114). */
module Http3Cuts {
  import opened Bits
  import opened Varint
  import opened Http3
  import Chunks

  // ----- where the headers are ---------------------------------------------------------------------

  /** Position k of a stream that starts with a frame is strictly inside a frame header:
      found by walking from header to header, an incomplete last one included. */
  predicate InHeader(w: seq<Byte>, k: nat)
    decreases |w|
  {
    var n := HeaderLength(w);
    if n == 0 || k < n then 0 < k <= |w|
    else
      var end := n + BodyLength(w);
      end < k && InHeader(w[Min(end, |w|)..], k - end)
  }

  /** The value of the length field. */
  function BodyLength(w: seq<Byte>): nat
    requires HeaderLength(w) > 0
  {
    ParseLength(w, 0);
    ParseVarint(w[ParseVarint(w, 0).1..], 0).0
  }

  /** The same for a stream that starts rem bytes before the end of a frame. */
  predicate InLaterHeader(rem: nat, w: seq<Byte>, k: nat) {
    rem < k && InHeader(w[Min(rem, |w|)..], k - rem)
  }

  /** The bytes of the current frame still to come. */
  function Pending(s: H3): nat {
    if s.state == 0 then 0 else s.rem
  }

  lemma HeaderComplete(a: seq<Byte>, b: seq<Byte>)
    requires 0 < HeaderLength(a + b) <= |a|
    ensures HeaderLength(a) == HeaderLength(a + b)
  {
    hide ParseVarint;
    var f := ParseVarint(a + b, 0);
    ParseLength(a + b, 0);
    ParseLength((a + b)[f.1..], 0);
    ParseComplete(a, b);
    assert (a + b)[f.1..] == a[f.1..] + b;
    ParseComplete(a[f.1..], b);
  }

  lemma ParseComplete(p: seq<Byte>, rest: seq<Byte>)
    requires 0 < ParseVarint(p + rest, 0).1 <= |p|
    ensures ParseVarint(p, 0) == ParseVarint(p + rest, 0)
  {}

  lemma HeaderPending(s: H3, p: seq<Byte>)
    requires HeaderLength(p) > 0
    ensures Header(s, p).state != 0 && Header(s, p).rem == BodyLength(p)
  {}

  lemma InHeaderNext(w: seq<Byte>, k: nat)
    requires 0 < HeaderLength(w) <= k
    ensures var end := HeaderLength(w) + BodyLength(w);
      InHeader(w, k) <==> end < k && InHeader(w[Min(end, |w|)..], k - end)
  {
    hide HeaderLength, BodyLength;
  }

  /** One step of the walk. */
  lemma WalkStep(w: seq<Byte>, k: nat)
    requires HeaderLength(w) > 0 && HeaderLength(w) <= k
    ensures InHeader(w, k) <==> InLaterHeader(BodyLength(w), w[HeaderLength(w)..], k - HeaderLength(w))
  {
    hide HeaderLength, BodyLength, InHeader;
    var n, l := HeaderLength(w), BodyLength(w);
    InHeaderNext(w, k);
    SliceTwice(w, n, Min(l, |w| - n));
  }

  lemma SliceTwice(w: seq<Byte>, m: nat, n: nat)
    requires m + n <= |w|
    ensures w[m..][n..] == w[m + n..]
  {}

  lemma NoHeaderYet(a: seq<Byte>, b: seq<Byte>)
    requires HeaderLength(a) == 0 && |a| > 0
    ensures InLaterHeader(0, a + b, |a|)
  {
    hide HeaderLength, BodyLength;
    assert (a + b)[0..] == a + b;
    if 0 < HeaderLength(a + b) <= |a| {
      HeaderComplete(a, b);
    }
  }

  lemma AfterHeader(s: H3, a: seq<Byte>, b: seq<Byte>)
    requires HeaderLength(a) > 0
    ensures Header(s, a).state != 0
    ensures InLaterHeader(0, a + b, |a|)
      <==> InLaterHeader(Header(s, a).rem, a[HeaderLength(a)..] + b, |a| - HeaderLength(a))
  {
    hide HeaderLength, BodyLength, Header, InHeader;
    var w, n := a + b, HeaderLength(a);
    HeaderPrefix(s, a, b);
    HeaderPending(s, w);
    WalkStep(w, |a|);
    assert w[0..] == w && w[n..] == a[n..] + b;
  }

  lemma AfterBody(rem: nat, a: seq<Byte>, b: seq<Byte>)
    requires rem <= |a|
    ensures InLaterHeader(rem, a + b, |a|) <==> InLaterHeader(0, a[rem..] + b, |a| - rem)
  {
    hide InHeader;
    assert (a + b)[rem..] == a[rem..] + b && (a[rem..] + b)[0..] == a[rem..] + b;
  }

  /** A piece leaves bytes behind exactly when it ends strictly inside a frame header of
      the whole stream. */
  lemma {:induction false} LeftInHeader(s: H3, a: seq<Byte>, b: seq<Byte>)
    ensures Feed(s, a).left > 0 <==> InLaterHeader(Pending(s), a + b, |a|)
    decreases |a|, if s.state == 0 then 0 else 1
  {
    hide HeaderLength, Header, Body, Fits, Remaining, InLaterHeader;
    if |a| == 0 {
      assert a == [] && a + b == b;
      NothingFed(s, b);
    } else if s.state == 0 {
      var n := HeaderLength(a);
      if n == 0 {
        NoHeaderYet(a, b);
      } else {
        TurnOnWhole(s, a, b, Header(s, a), n);
        AfterHeader(s, a, b);
        LeftInHeader(Header(s, a), a[n..], b);
      }
    } else if s.rem <= |a| {
      TurnOnWhole(s, a, b, Body(s, a), s.rem);
      AfterBody(s.rem, a, b);
      LeftInHeader(Body(s, a), a[s.rem..], b);
    } else {
      FeedInside(s, a);
      NotPassed(s.rem, a + b, |a|);
    }
  }

  lemma NotPassed(rem: nat, w: seq<Byte>, k: nat)
    requires k <= rem
    ensures !InLaterHeader(rem, w, k)
  {}

  lemma NothingFed(s: H3, b: seq<Byte>)
    ensures Feed(s, []).left == 0 && !InLaterHeader(Pending(s), b, 0)
  {}

  lemma FeedInside(s: H3, a: seq<Byte>)
    requires s.state != 0 && 0 < |a| < s.rem
    ensures Feed(s, a) == Fed(Body(s, a), 0)
  {
    hide Body;
    assert a[|a|..] == [];
  }

  // ----- pieces --------------------------------------------------------------------------------------

  function FeedAll(s: H3, pieces: seq<seq<Byte>>): H3
    decreases |pieces|
  {
    if |pieces| == 0 then s else FeedAll(Feed(s, pieces[0]).s, pieces[1..])
  }

  /** No cut between two pieces is strictly inside a frame header of the whole stream. */
  predicate CutsOutside(rem: nat, pieces: seq<seq<Byte>>) {
    forall i :: 0 < i < |pieces| ==> !InLaterHeader(rem, Chunks.Join(pieces), |Chunks.Join(pieces[..i])|)
  }

  lemma {:induction false} FitsPrefix(s: H3, a: seq<Byte>, b: seq<Byte>)
    requires Fits(s, a + b)
    ensures Fits(s, a)
    decreases |a|, if s.state == 0 then 0 else 1
  {
    hide HeaderLength, Header, Body, Room;
    FitsHere(s, a + b);
    if |a| == 0 {
    } else if s.state == 0 {
      var n := HeaderLength(a);
      if n > 0 {
        TurnOnWhole(s, a, b, Header(s, a), n);
        FitsPrefix(Header(s, a), a[n..], b);
      }
    } else if s.rem <= |a| {
      TurnOnWhole(s, a, b, Body(s, a), s.rem);
      FitsPrefix(Body(s, a), a[s.rem..], b);
    } else {
      InsideBody(s, a, b);
      FitsHere(Body(s, a), b);
      assert a[|a|..] == [];
    }
  }

  /** After a piece that leaves nothing behind, the walk goes on where the piece ended. */
  lemma WalkAfter(s: H3, a: seq<Byte>, b: seq<Byte>, k: nat)
    requires Feed(s, a).left == 0 && Fits(s, a + b) && k <= |b|
    ensures InLaterHeader(Pending(s), a + b, |a| + k) <==> InLaterHeader(Pending(Feed(s, a).s), b, k)
  {
    hide Feed, Fits, InLaterHeader;
    var c, d := b[..k], b[k..];
    assert b == c + d && a + b == a + c + d;
    FitsPrefix(s, a + c, d);
    FeedSplit(s, a, c);
    assert Remaining(s, a, c) == c by {
      assert a[|a|..] + c == c;
    }
    LeftInHeader(s, a + c, d);
    LeftInHeader(Feed(s, a).s, c, d);
  }

  lemma JoinMore(pieces: seq<seq<Byte>>, i: nat)
    requires |pieces| > 0 && i < |pieces|
    ensures Chunks.Join(pieces) == pieces[0] + Chunks.Join(pieces[1..])
    ensures Chunks.Join(pieces[..i + 1]) == pieces[0] + Chunks.Join(pieces[1..][..i])
    ensures |Chunks.Join(pieces[1..][..i])| <= |Chunks.Join(pieces[1..])|
  {
    assert pieces[..i + 1][1..] == pieces[1..][..i];
    JoinTake(pieces[1..], i);
  }

  lemma {:induction false} JoinTake(pieces: seq<seq<Byte>>, i: nat)
    requires i <= |pieces|
    ensures |Chunks.Join(pieces[..i])| <= |Chunks.Join(pieces)|
    decreases i
  {
    if i > 0 {
      assert pieces[..i][1..] == pieces[1..][..i - 1];
      JoinTake(pieces[1..], i - 1);
    }
  }

  lemma CutsAfter(s: H3, pieces: seq<seq<Byte>>)
    requires |pieces| > 1 && Fits(s, Chunks.Join(pieces)) && CutsOutside(Pending(s), pieces)
    ensures Feed(s, pieces[0]).left == 0
    ensures Chunks.Join(pieces) == pieces[0] + Chunks.Join(pieces[1..])
    ensures CutsOutside(Pending(Feed(s, pieces[0]).s), pieces[1..])
  {
    hide Feed, Fits, InLaterHeader, Pending;
    var a, rest := pieces[0], pieces[1..];
    JoinMore(pieces, 0);
    assert pieces[1..][..0] == [] && Chunks.Join(pieces[..1]) == a;
    LeftInHeader(s, a, Chunks.Join(rest));
    forall i | 0 < i < |rest|
      ensures !InLaterHeader(Pending(Feed(s, a).s), Chunks.Join(rest), |Chunks.Join(rest[..i])|)
    {
      JoinMore(pieces, i);
      WalkAfter(s, a, Chunks.Join(rest), |Chunks.Join(rest[..i])|);
      assert !InLaterHeader(Pending(s), Chunks.Join(pieces), |Chunks.Join(pieces[..i + 1])|);
    }
  }

  /** Any pieces, not cut inside a header, give the same HEADERS blocks, DATA and final
      state as the whole stream. */
  lemma {:induction false} PiecesAgree(s: H3, pieces: seq<seq<Byte>>)
    requires CutsOutside(Pending(s), pieces) && Fits(s, Chunks.Join(pieces))
    ensures FeedAll(s, pieces) == Feed(s, Chunks.Join(pieces)).s
    decreases |pieces|
  {
    hide Fits, CutsOutside, Pending, Remaining;
    if |pieces| == 1 {
      assert pieces == [pieces[0]];
      Chunks.JoinOne(pieces[0]);
    } else if |pieces| > 1 {
      var a, b := pieces[0], Chunks.Join(pieces[1..]);
      CutsAfter(s, pieces);
      FeedSplit(s, a, b);
      NothingLeft(s, a, b);
      PiecesAgree(Feed(s, a).s, pieces[1..]);
    }
  }

  lemma NothingLeft(s: H3, a: seq<Byte>, b: seq<Byte>)
    requires Feed(s, a).left == 0
    ensures Remaining(s, a, b) == b
  {
    hide Feed;
    assert a[|a|..] + b == b;
  }

  // ----- what a stream of frames delivers ---------------------------------------------------------------

  datatype AnyFrame = Frame(kind: nat, body: seq<Byte>)

  /** A frame whose type and length have an encoding. */
  type Frame = f: AnyFrame | f.kind < MAX_VARINT && |f.body| < MAX_VARINT witness Frame(0, [])

  /** Type, length, body. */
  function Encoded(f: Frame): seq<Byte> {
    PutVarint(f.kind) + PutVarint(|f.body|) + f.body
  }

  function EncodedAll(fs: seq<Frame>): seq<Byte> {
    if |fs| == 0 then [] else Encoded(fs[0]) + EncodedAll(fs[1..])
  }

  /** The bodies of the frames of one kind. */
  function Bodies(fs: seq<Frame>, kind: nat): seq<seq<Byte>> {
    if |fs| == 0 then [] else (if fs[0].kind == kind then [fs[0].body] else []) + Bodies(fs[1..], kind)
  }

  /** A HEADERS body becomes a block, a DATA body is stored, others are skipped. */
  function Delivered(s: H3, f: Frame): H3 {
    var t := s.(state := 0, frameType := f.kind, rem := 0);
    if f.kind == 1 then t.(buf := f.body, blocks := s.blocks + [f.body])
    else if f.kind == 0 then t.(rx := s.rx + f.body, responded := true)
    else t
  }

  predicate FrameRoom(s: H3, f: Frame) {
    && (f.kind == 1 ==> |f.body| < HEADERS_ROOM)
    && (f.kind == 0 ==> |s.rx| + |f.body| < DATA_ROOM)
  }

  /** Inside the frame, after its header. */
  function Opened(s: H3, f: Frame): (t: H3)
    ensures t.state != 0 && t.rem == |f.body|
  {
    var t := s.(frameType := f.kind, rem := |f.body|);
    if f.kind == 1 then t.(state := 1, buf := [])
    else if f.kind == 0 then t.(state := 2) else t.(state := 3)
  }

  lemma HeaderOfFrame(s: H3, f: Frame, rest: seq<Byte>)
    ensures var w, n := Encoded(f) + rest, |Encoded(f)| - |f.body|;
      0 < n == HeaderLength(w) <= |w| && w[n..] == f.body + rest && Header(s, w) == Opened(s, f)
  {
    hide ParseVarint, PutVarint;
    var a, b := PutVarint(f.kind), PutVarint(|f.body|);
    var w := Encoded(f) + rest;
    assert w == a + (b + (f.body + rest));
    VarintRoundTrip(f.kind, b + (f.body + rest), 0);
    assert w[|a|..] == b + (f.body + rest);
    VarintRoundTrip(|f.body|, f.body + rest, 0);
  }

  /** A frame ahead of more bytes is delivered whole; an empty one waits for the next byte. */
  lemma FrameStep(s: H3, f: Frame, rest: seq<Byte>)
    requires s.state == 0 && FrameRoom(s, f)
    ensures |f.body| + |rest| > 0 ==> Feed(s, Encoded(f) + rest) == Feed(Delivered(s, f), rest)
    ensures |f.body| + |rest| == 0 ==> Feed(s, Encoded(f)) == Fed(Opened(s, f), 0)
    ensures Fits(Delivered(s, f), rest) ==> Fits(s, Encoded(f) + rest)
  {
    hide HeaderLength, Header, Body, Encoded, Room, Opened, Delivered, Feed, Fits;
    var w, t := Encoded(f) + rest, Opened(s, f);
    HeaderOfFrame(s, f, rest);
    HeaderTurn(s, w);
    BodyOfFrame(s, f, rest);
    if |f.body| + |rest| > 0 {
      BodyTurn(t, f.body + rest);
      assert (f.body + rest)[|f.body|..] == rest;
    } else {
      assert w == Encoded(f) && f.body + rest == [];
      NothingMore(t);
    }
  }

  lemma HeaderTurn(s: H3, p: seq<Byte>)
    requires s.state == 0 && HeaderLength(p) > 0
    ensures Feed(s, p) == Feed(Header(s, p), p[HeaderLength(p)..])
    ensures Fits(s, p) <==> Room(s) && Fits(Header(s, p), p[HeaderLength(p)..])
  {
    hide HeaderLength, Header, Room;
  }

  lemma BodyOfFrame(s: H3, f: Frame, rest: seq<Byte>)
    requires s.state == 0 && FrameRoom(s, f)
    ensures var t := Opened(s, f);
      && Room(s) && Room(t) && AtHand(t, f.body + rest) == |f.body|
      && Body(t, f.body + rest) == Delivered(s, f)
  {
    hide Store;
    assert (f.body + rest)[..|f.body|] == f.body && [] + f.body == f.body;
    if f.kind == 0 {
      StoreAll(s.rx, f.body);
    }
  }

  function DeliveredAll(s: H3, fs: seq<Frame>): H3
    decreases |fs|
  {
    if |fs| == 0 then s else DeliveredAll(Delivered(s, fs[0]), fs[1..])
  }

  /** HEADERS frames below 8192 bytes, all undrained DATA below 65536. */
  predicate FramesFit(s: H3, fs: seq<Frame>) {
    && (forall i :: 0 <= i < |fs| && fs[i].kind == 1 ==> |fs[i].body| < HEADERS_ROOM)
    && |s.rx| + |Chunks.Join(Bodies(fs, 0))| < DATA_ROOM
  }

  lemma BodiesNext(fs: seq<Frame>, kind: nat)
    requires |fs| > 0
    ensures Bodies(fs, kind) == (if fs[0].kind == kind then [fs[0].body] else []) + Bodies(fs[1..], kind)
  {}

  lemma JoinBodies(fs: seq<Frame>)
    requires |fs| > 0
    ensures Chunks.Join(Bodies(fs, 0))
      == (if fs[0].kind == 0 then fs[0].body else []) + Chunks.Join(Bodies(fs[1..], 0))
  {
    var more := Bodies(fs[1..], 0);
    if fs[0].kind == 0 {
      assert Bodies(fs, 0) == [fs[0].body] + more;
      assert ([fs[0].body] + more)[1..] == more;
    } else {
      assert Bodies(fs, 0) == more;
    }
  }

  lemma FramesFitNext(s: H3, fs: seq<Frame>)
    requires |fs| > 0 && FramesFit(s, fs)
    ensures FrameRoom(s, fs[0]) && FramesFit(Delivered(s, fs[0]), fs[1..]) && Delivered(s, fs[0]).state == 0
  {
    hide Bodies;
    JoinBodies(fs);
  }

  lemma SomeBytes(fs: seq<Frame>)
    requires |fs| > 0
    ensures |EncodedAll(fs)| > 0
  {}

  /** All frames ahead of any rest are delivered, unless the last one is empty and nothing
      follows it. */
  lemma {:induction false} FramesDelivered(s: H3, fs: seq<Frame>, rest: seq<Byte>)
    requires s.state == 0 && FramesFit(s, fs)
    requires |rest| > 0 || |fs| == 0 || |fs[|fs| - 1].body| > 0
    ensures Feed(s, EncodedAll(fs) + rest) == Feed(DeliveredAll(s, fs), rest)
    ensures Fits(DeliveredAll(s, fs), rest) ==> Fits(s, EncodedAll(fs) + rest)
    decreases |fs|
  {
    hide Feed, Fits, Delivered, Encoded, FramesFit, FrameRoom;
    if |fs| == 0 {
      assert [] + rest == rest;
    } else {
      FramesFitNext(s, fs);
      var more := EncodedAll(fs[1..]) + rest;
      assert EncodedAll(fs) + rest == Encoded(fs[0]) + more;
      if |fs| > 1 {
        SomeBytes(fs[1..]);
        assert fs[1..][|fs| - 2] == fs[|fs| - 1];
      }
      FrameStep(s, fs[0], more);
      FramesDelivered(Delivered(s, fs[0]), fs[1..], rest);
    }
  }

  /** The blocks are the bodies of the HEADERS frames, the stored bytes those of DATA. */
  lemma {:induction false} DeliveredContents(s: H3, fs: seq<Frame>)
    ensures var t := DeliveredAll(s, fs);
      && t.blocks == s.blocks + Bodies(fs, 1) && t.rx == s.rx + Chunks.Join(Bodies(fs, 0))
      && (s.state == 0 ==> t.state == 0)
    decreases |fs|
  {
    if |fs| > 0 {
      DeliveredContents(Delivered(s, fs[0]), fs[1..]);
      JoinBodies(fs);
      BodiesNext(fs, 1);
    }
  }

  /** Frames that arrive in any pieces not cut inside a header: exactly their HEADERS
      bodies become blocks and exactly their DATA is stored. */
  lemma StreamDelivered(s: H3, fs: seq<Frame>, pieces: seq<seq<Byte>>)
    requires s.state == 0 && FramesFit(s, fs) && (|fs| == 0 || |fs[|fs| - 1].body| > 0)
    requires Chunks.Join(pieces) == EncodedAll(fs) && CutsOutside(0, pieces)
    ensures FeedAll(s, pieces).blocks == s.blocks + Bodies(fs, 1)
    ensures FeedAll(s, pieces).rx == s.rx + Chunks.Join(Bodies(fs, 0))
    ensures FeedAll(s, pieces).state == 0
  {
    hide FeedAll, CutsOutside, FramesFit, Encoded, Delivered, Bodies;
    FramesDelivered(s, fs, []);
    assert EncodedAll(fs) + [] == EncodedAll(fs);
    DeliveredContents(s, fs);
    PiecesAgree(s, pieces);
  }

  /** Cut inside a header, the same bytes mean something else: the first piece is lost. */
  lemma CutInsideHeader()
    ensures var s := H3(0, 0, 0, [], [], [], false);
      Feed(s, [0x00, 0x01, 0x41]).s.rx == [0x41] && Feed(Feed(s, [0x00]).s, [0x01, 0x41]).s.rx == []
  {
    var s := H3(0, 0, 0, [], [], [], false);
    var p: seq<Byte> := [0x00, 0x01, 0x41];
    assert p[1..] == [0x01, 0x41];
    assert HeaderLength(p) == 2;
    var t := Header(s, p);
    assert p[2..] == [0x41] && t.state == 2 && t.rem == 1;
    StoreAll([], [0x41]);
    assert [0x41][..1] == [0x41] && [0x41][1..] == [];
    assert HeaderLength([0x00]) == 0;
    assert [0x01, 0x41][1..] == [0x41];
    assert HeaderLength([0x01, 0x41]) == 0;
  }
}
