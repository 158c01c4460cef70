/** The HTTP/3 frame machine of a bidirectional stream (quic.c; section 7.1 of RFC 9114),
    fed with the pieces of the stream as they arrive. */
module Http3 {
  import opened Bits
  import opened Varint

  const HEADERS_ROOM: nat := 8192
  const DATA_ROOM: nat := 65536

  /** The fields of the stream, and the HEADERS blocks handed to the decoder. State 0
      expects a frame header, 1 is inside HEADERS, 2 inside DATA, 3 skips. */
  datatype H3 = H3(state: nat, frameType: nat, rem: nat, buf: seq<Byte>, rx: seq<Byte>,
                   blocks: seq<seq<Byte>>, responded: bool)

  /** DATA is stored in portions of up to 1500 bytes, each only if it fits. */
  function Store(rx: seq<Byte>, data: seq<Byte>): seq<Byte>
    decreases |data|
  {
    if |data| == 0 then rx
    else
      var n := Min(1500, |data|);
      Store(if |rx| + n < DATA_ROOM then rx + data[..n] else rx, data[n..])
  }

  /** The lengths of the type and of the length field; 0 if the bytes do not suffice. */
  function HeaderLength(p: seq<Byte>): (n: nat)
    ensures n > 0 ==> n >= 2 && n <= |p|
  {
    var f := ParseVarint(p, 0);
    ParseLength(p, 0);
    if f.1 == 0 then 0
    else
      var g := ParseVarint(p[f.1..], 0);
      ParseLength(p[f.1..], 0);
      if g.1 == 0 then 0 else f.1 + g.1
  }

  lemma ParseLength(p: seq<Byte>, l: nat)
    ensures ParseVarint(p, l).1 == l || 1 <= ParseVarint(p, l).1 <= |p|
  {}

  function Header(s: H3, p: seq<Byte>): H3
    requires HeaderLength(p) > 0
  {
    ParseLength(p, 0);
    var f := ParseVarint(p, 0);
    var g := ParseVarint(p[f.1..], 0);
    var t := s.(frameType := f.0, rem := g.0);
    if f.0 == 1 then t.(state := 1, buf := [])
    else if f.0 == 0 then t.(state := 2)
    else t.(state := 3)
  }

  /** The bytes of the current frame that are at hand. */
  function AtHand(s: H3, p: seq<Byte>): (n: nat)
    ensures n <= |p| && n <= s.rem
  {
    Min(s.rem, |p|)
  }

  /** The body of a frame. */
  function Body(s: H3, p: seq<Byte>): H3
    requires s.state != 0
  {
    var n := AtHand(s, p);
    var t := s.(rem := s.rem - n, state := if s.rem == n then 0 else s.state);
    if s.state == 1 then
      var buf := if |s.buf| + n < HEADERS_ROOM then s.buf + p[..n] else s.buf;
      t.(buf := buf, blocks := if s.rem == n then s.blocks + [buf] else s.blocks)
    else if s.state == 2 then t.(rx := Store(s.rx, p[..n]), responded := true)
    else t
  }

  /** The state after a piece, and how many bytes at its end were dropped. */
  datatype Fed = Fed(s: H3, left: nat)

  function Feed(s: H3, p: seq<Byte>): (r: Fed)
    decreases |p|, if s.state == 0 then 0 else 1
  {
    if |p| == 0 then Fed(s, 0)
    else if s.state == 0 then
      var n := HeaderLength(p);
      if n == 0 then Fed(s, |p|) else Feed(Header(s, p), p[n..])
    else Feed(Body(s, p), p[AtHand(s, p)..])
  }

  // ----- the loop of quic_parse_frames -------------------------------------------------------

  class Stream {
    var h3_state: nat
    var h3_frame_type: nat
    var h3_frame_rem: nat
    var h3_buf: seq<Byte>
    var rx_buf: seq<Byte>
    var blocks: seq<seq<Byte>>
    var responded: bool

    function State(): H3
      reads this
    {
      H3(h3_state, h3_frame_type, h3_frame_rem, h3_buf, rx_buf, blocks, responded)
    }

    constructor ()
      ensures State() == H3(0, 0, 0, [], [], [], false)
    {
      h3_state, h3_frame_type, h3_frame_rem, h3_buf, rx_buf := 0, 0, 0, [], [];
      blocks, responded := [], false;
    }

    /** The DATA part: printed and stored in portions. */
    method Deliver(data: seq<Byte>)
      modifies this`rx_buf
      ensures rx_buf == Store(old(rx_buf), data)
    {
      var printed := 0;
      assert data[0..] == data;
      while printed < |data|
        invariant 0 <= printed <= |data|
        invariant Store(rx_buf, data[printed..]) == Store(old(rx_buf), data)
      {
        var n := |data| - printed;
        if n > 1500 {
          n := 1500;
        }
        ghost var rest := data[printed..];
        assert rest[..n] == data[printed..printed + n] && rest[n..] == data[printed + n..];
        if |rx_buf| + n < DATA_ROOM {
          rx_buf := rx_buf + data[printed..printed + n];
        }
        printed := printed + n;
      }
    }

    /** State 0: the type and the length of the next frame, if they are complete. */
    method ReadHeader(p: seq<Byte>) returns (n: nat)
      requires h3_state == 0
      modifies this
      ensures n == HeaderLength(p) && State() == if n > 0 then Header(old(State()), p) else old(State())
    {
      hide ParseVarint;
      ParseLength(p, 0);
      var f := ParseVarint(p, 0);
      if f.1 == 0 { return 0; }
      ParseLength(p[f.1..], 0);
      var g := ParseVarint(p[f.1..], 0);
      if g.1 == 0 { return 0; }
      n := f.1 + g.1;
      h3_frame_type, h3_frame_rem := f.0, g.0;
      if f.0 == 1 {
        h3_state, h3_buf := 1, [];
      } else if f.0 == 0 {
        h3_state := 2;
      } else {
        h3_state := 3;
      }
    }

    /** States 1 to 3: the part of the frame body that is at hand. */
    method ReadBody(p: seq<Byte>) returns (chunk: nat)
      requires h3_state != 0
      modifies this
      ensures chunk == AtHand(old(State()), p) && State() == Body(old(State()), p)
    {
      hide Store;
      chunk := Min(h3_frame_rem, |p|);
      if h3_state == 1 {
        if |h3_buf| + chunk < HEADERS_ROOM {
          h3_buf := h3_buf + p[..chunk];
        }
        h3_frame_rem := h3_frame_rem - chunk;
        if h3_frame_rem == 0 {
          blocks := blocks + [h3_buf];
          h3_state := 0;
        }
      } else if h3_state == 2 {
        Deliver(p[..chunk]);
        h3_frame_rem := h3_frame_rem - chunk;
        if h3_frame_rem == 0 {
          h3_state := 0;
        }
        responded := true;
      } else {
        h3_frame_rem := h3_frame_rem - chunk;
        if h3_frame_rem == 0 {
          h3_state := 0;
        }
      }
    }

    /** The frame loop over one piece of the stream. */
    method Receive(p: seq<Byte>) returns (left: nat)
      modifies this
      ensures Fed(State(), left) == Feed(old(State()), p)
    {
      hide HeaderLength, Header, Body;
      var so := 0;
      assert p[0..] == p;
      while so < |p|
        invariant 0 <= so <= |p|
        invariant Feed(State(), p[so..]) == Feed(old(State()), p)
        decreases |p| - so, if h3_state == 0 then 0 else 1
      {
        ghost var s, rest := State(), p[so..];
        if h3_state == 0 {
          var n := ReadHeader(p[so..]);
          if n == 0 { break; }
          so := so + n;
          assert rest[n..] == p[so..];
        } else {
          BodyTurns(s, rest);
          var chunk := ReadBody(p[so..]);
          so := so + chunk;
          assert rest[chunk..] == p[so..];
        }
      }
      left := |p| - so;
    }
  }

  // ----- splitting the stream -------------------------------------------------------------------

  /** A frame that has begun fits its buffer. */
  predicate Room(s: H3) {
    && (s.state == 1 ==> |s.buf| + s.rem < HEADERS_ROOM)
    && (s.state == 2 ==> |s.rx| + s.rem < DATA_ROOM)
  }

  /** Every HEADERS frame is below 8192 bytes and the undrained DATA below 65536. */
  predicate Fits(s: H3, p: seq<Byte>)
    decreases |p|, if s.state == 0 then 0 else 1
  {
    Room(s) &&
    (if |p| == 0 then true
     else if s.state == 0 then
       var n := HeaderLength(p);
       n > 0 ==> Fits(Header(s, p), p[n..])
     else Fits(Body(s, p), p[AtHand(s, p)..]))
  }

  lemma {:induction false} StoreAll(rx: seq<Byte>, data: seq<Byte>)
    requires |rx| + |data| < DATA_ROOM
    ensures Store(rx, data) == rx + data
    decreases |data|
  {
    if |data| > 0 {
      var n := Min(1500, |data|);
      StoreAll(rx + data[..n], data[n..]);
      assert data[..n] + data[n..] == data;
    }
  }

  /** A header that is complete in a is the same in a + b. */
  lemma HeaderPrefix(s: H3, a: seq<Byte>, b: seq<Byte>)
    requires HeaderLength(a) > 0
    ensures HeaderLength(a + b) == HeaderLength(a) && Header(s, a + b) == Header(s, a)
  {
    hide ParseVarint;
    var f := ParseVarint(a, 0);
    ParseLength(a, 0);
    ParsePrefix(a, b);
    assert (a + b)[f.1..] == a[f.1..] + b;
    ParsePrefix(a[f.1..], b);
  }

  lemma ParsePrefix(p: seq<Byte>, rest: seq<Byte>)
    requires ParseVarint(p, 0).1 > 0
    ensures ParseVarint(p + rest, 0) == ParseVarint(p, 0)
  {}

  /** A frame body that reaches beyond a is the same in one piece and in two. */
  lemma BodySplit(s: H3, a: seq<Byte>, b: seq<Byte>)
    requires s.state != 0 && Room(s) && |a| < s.rem
    ensures Body(s, a).state == s.state && AtHand(s, a) == |a|
    ensures AtHand(s, a + b) == |a| + AtHand(Body(s, a), b)
    ensures |b| > 0 ==> Body(s, a + b) == Body(Body(s, a), b)
  {
    hide Store;
    var n := AtHand(s, a + b);
    var m := AtHand(Body(s, a), b);
    assert a[..|a|] == a && (a + b)[..n] == a + b[..m];
    if s.state == 2 {
      StoreAll(s.rx, a);
      StoreAll(s.rx + a, b[..m]);
      StoreAll(s.rx, a + b[..m]);
    }
    assert s.buf + a + b[..m] == s.buf + (a + b[..m]);
    assert s.rx + a + b[..m] == s.rx + (a + b[..m]);
  }

  /** The bytes that a piece leaves behind, put back in front of the next one. */
  function Remaining(s: H3, a: seq<Byte>, b: seq<Byte>): (r: seq<Byte>)
  {
    LeftAtMost(s, a);
    a[|a| - Feed(s, a).left..] + b
  }

  lemma {:induction false} LeftAtMost(s: H3, p: seq<Byte>)
    ensures Feed(s, p).left <= |p|
    decreases |p|, if s.state == 0 then 0 else 1
  {
    hide HeaderLength, Header, Body;
    if |p| > 0 {
      if s.state == 0 {
        var n := HeaderLength(p);
        if n > 0 {
          LeftAtMost(Header(s, p), p[n..]);
        }
      } else {
        BodyTurns(s, p);
        LeftAtMost(Body(s, p), p[AtHand(s, p)..]);
      }
    }
  }

  /** One turn of the loop on a piece is a turn on the whole stream. */
  lemma TurnOnWhole(s: H3, a: seq<Byte>, b: seq<Byte>, t: H3, n: nat)
    requires n <= |a| && |a| > 0
    requires if s.state == 0 then n == HeaderLength(a) > 0 && t == Header(s, a)
             else s.rem <= |a| && n == s.rem && t == Body(s, a)
    ensures Feed(s, a) == Feed(t, a[n..]) && Feed(s, a + b) == Feed(t, a[n..] + b)
    ensures Remaining(s, a, b) == Remaining(t, a[n..], b)
    ensures s.state == 0 ==> n > 0
    ensures s.state != 0 ==> t.state == 0
    ensures Fits(s, a + b) ==> Fits(t, a[n..] + b)
  {
    hide HeaderLength, Header, Body, Room;
    LeftAtMost(s, a);
    LeftAtMost(t, a[n..]);
    if s.state == 0 {
      HeaderPrefix(s, a, b);
    } else {
      BodyPrefix(s, a, b);
    }
    assert (a + b)[n..] == a[n..] + b;
    var left := Feed(t, a[n..]).left;
    assert a[n..][|a| - n - left..] == a[|a| - left..];
  }

  /** Wherever a stream is cut: feeding it whole is feeding the first piece, then what
      that piece left behind together with the rest. */
  lemma {:induction false} FeedSplit(s: H3, a: seq<Byte>, b: seq<Byte>)
    requires Fits(s, a + b)
    ensures Feed(s, a + b) == Feed(Feed(s, a).s, Remaining(s, a, b))
    ensures Fits(Feed(s, a).s, Remaining(s, a, b))
    decreases |a|, if s.state == 0 then 0 else 1
  {
    hide HeaderLength, Header, Body, Room;
    if |a| == 0 {
      assert a + b == b && Remaining(s, a, b) == b;
    } else if s.state == 0 {
      var n := HeaderLength(a);
      if n == 0 {
        assert Remaining(s, a, b) == a + b;
      } else {
        TurnOnWhole(s, a, b, Header(s, a), n);
        FeedSplit(Header(s, a), a[n..], b);
      }
    } else if s.rem <= |a| {
      TurnOnWhole(s, a, b, Body(s, a), s.rem);
      FeedSplit(Body(s, a), a[s.rem..], b);
    } else {
      InsideBody(s, a, b);
    }
  }

  lemma InsideBody(s: H3, a: seq<Byte>, b: seq<Byte>)
    requires s.state != 0 && |a| < s.rem && |a| > 0 && Fits(s, a + b)
    ensures Feed(s, a) == Fed(Body(s, a), 0) && Remaining(s, a, b) == b
    ensures Feed(s, a + b) == Feed(Body(s, a), b) && Fits(Body(s, a), b)
  {
    hide HeaderLength, Header, Body, Room, Feed, Fits, AtHand;
    FitsHere(s, a + b);
    BodySplit(s, a, b);
    BodyRoom(s, a);
    BodyTurn(s, a);
    BodyTurn(s, a + b);
    assert a[|a|..] == [] && [] + b == b;
    NothingMore(Body(s, a));
    if |b| == 0 {
      assert a + b == a && b == [];
    } else {
      BodyTurn(Body(s, a), b);
      var m := AtHand(Body(s, a), b);
      assert (a + b)[|a| + m..] == b[m..];
    }
  }

  lemma BodyTurn(s: H3, p: seq<Byte>)
    requires s.state != 0 && |p| > 0
    ensures Feed(s, p) == Feed(Body(s, p), p[AtHand(s, p)..])
    ensures Fits(s, p) <==> Room(s) && Fits(Body(s, p), p[AtHand(s, p)..])
  {
    hide Body, Room;
  }

  lemma NothingMore(s: H3)
    ensures Feed(s, []) == Fed(s, 0) && (Fits(s, []) <==> Room(s))
  {
    hide Room;
  }

  lemma FitsHere(s: H3, p: seq<Byte>)
    requires Fits(s, p)
    ensures Room(s)
  {}

  lemma BodyPrefix(s: H3, a: seq<Byte>, b: seq<Byte>)
    requires s.state != 0 && s.rem <= |a|
    ensures AtHand(s, a) == AtHand(s, a + b) == s.rem
    ensures Body(s, a + b) == Body(s, a) && Body(s, a).state == 0
  {
    assert (a + b)[..s.rem] == a[..s.rem];
  }

  lemma BodyRoom(s: H3, a: seq<Byte>)
    requires s.state != 0 && Room(s) && |a| < s.rem
    ensures Room(Body(s, a))
  {
    hide Store;
    assert a[..|a|] == a;
    if s.state == 2 {
      StoreAll(s.rx, a);
    }
  }

  lemma BodyTurns(s: H3, p: seq<Byte>)
    requires s.state != 0 && |p| > 0
    ensures AtHand(s, p) == 0 ==> Body(s, p).state == 0
  {}
}
