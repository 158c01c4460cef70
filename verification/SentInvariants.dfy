/** What every run of sends, acknowledgements and probe timeouts keeps. */
module SentInvariants {
  import opened Bits
  import opened SentQueue

  /** Every entry came from a sender. */
  predicate Known(q: seq<Entry>) {
    forall i :: 0 <= i < |q| ==> Resent(q[i])
  }

  /** Packet numbers are below the counters, and no two entries share epoch and number. */
  predicate Unique(q: seq<Entry>, c: Counters) {
    && Known(q)
    && (forall i :: 0 <= i < |q| ==> q[i].pn < Next(c, q[i].epoch))
    && forall i, j :: 0 <= i < j < |q| ==> !Matches(q[j], q[i].epoch, q[i].pn)
  }

  // ----- data is conserved --------------------------------------------------------------------

  /** What the packets of a queue carry, with multiplicity. */
  function Data(q: seq<Entry>): multiset<(nat, seq<Byte>)> {
    if |q| == 0 then multiset{} else multiset{(q[0].epoch, q[0].payload)} + Data(q[1..])
  }

  lemma {:induction false} DataAppend(p: seq<Entry>, q: seq<Entry>)
    ensures Data(p + q) == Data(p) + Data(q)
  {
    if |p| == 0 {
      assert p + q == q;
    } else {
      assert (p + q)[1..] == p[1..] + q;
      DataAppend(p[1..], q);
    }
  }

  lemma DataOne(e: Entry)
    ensures Data([e]) == multiset{(e.epoch, e.payload)}
  {
    assert [e][1..] == [];
  }

  lemma VisitKeepsData(w: Walk, now: nat, pto: nat, stamp: nat -> nat)
    requires |w.todo| > 0 && Known(w.todo)
    ensures var v := Visit(w, now, pto, stamp);
      Known(v.todo) && Data(v.again) + Data(v.kept) + Data(v.todo) == Data(w.again) + Data(w.kept) + Data(w.todo)
  {
    var e := w.todo[0];
    assert Resent(e);
    var copy := Entry(e.epoch, Next(w.counters, e.epoch), stamp(w.stamps), e.payload);
    DataAppend(w.kept, [e]);
    DataAppend([copy], w.again);
    DataOne(e);
    DataOne(copy);
  }

  /** quic_check_pto loses nothing and invents nothing. */
  lemma {:induction false} PtoKeepsData(w: Walk, now: nat, pto: nat, stamp: nat -> nat)
    requires Known(w.todo)
    ensures var r := Finish(w, now, pto, stamp);
      Data(r.again + r.kept) == Data(w.again) + Data(w.kept) + Data(w.todo)
    decreases |w.todo|
  {
    hide Visit;
    var r := Finish(w, now, pto, stamp);
    FinishStep(w, now, pto, stamp);
    if |w.todo| == 0 {
      DataAppend(w.again, w.kept);
    } else {
      VisitKeepsData(w, now, pto, stamp);
      VisitCases(w, now, pto, stamp);
      PtoKeepsData(Visit(w, now, pto, stamp), now, pto, stamp);
    }
  }

  // ----- what has not expired stays, in order ---------------------------------------------------

  function Unexpired(q: seq<Entry>, now: nat, pto: nat): seq<Entry> {
    if |q| == 0 then [] else (if Expired(q[0], now, pto) then [] else [q[0]]) + Unexpired(q[1..], now, pto)
  }

  lemma {:induction false} PtoKeepsOrder(w: Walk, now: nat, pto: nat, stamp: nat -> nat)
    ensures Finish(w, now, pto, stamp).kept == w.kept + Unexpired(w.todo, now, pto)
    decreases |w.todo|
  {
    hide Expired, Resent, Sends, Bump, Next;
    FinishStep(w, now, pto, stamp);
    if |w.todo| > 0 {
      PtoKeepsOrder(Visit(w, now, pto, stamp), now, pto, stamp);
    }
  }

  // ----- the timeout by the ages of the packets ---------------------------------------------------

  /** The entries of at most this age, in order. */
  function Young(q: seq<Entry>, now: nat, limit: nat): seq<Entry> {
    if |q| == 0 then [] else (if now - q[0].time <= limit then [q[0]] else []) + Young(q[1..], now, limit)
  }

  /** What the older ones carry, in order, as far as it can be sent and stored again. */
  function Old(q: seq<Entry>, now: nat, limit: nat): seq<(nat, seq<Byte>)> {
    if |q| == 0 then []
    else
      (if now - q[0].time > limit && q[0].epoch in {0, 2, 3} && 1 <= |q[0].payload| <= 2048
       then [(q[0].epoch, q[0].payload)] else [])
      + Old(q[1..], now, limit)
  }

  /** What the entries carry, the one pushed first in front. */
  function Pushed(q: seq<Entry>): seq<(nat, seq<Byte>)> {
    if |q| == 0 then [] else Pushed(q[1..]) + [(q[0].epoch, q[0].payload)]
  }

  predicate Past(q: seq<Entry>, now: nat) {
    forall i :: 0 <= i < |q| ==> q[i].time <= now
  }

  lemma VisitByAge(w: Walk, now: nat, pto: nat, stamp: nat -> nat)
    requires |w.todo| > 0 && Past(w.todo, now) && now < WORD
    ensures var v := Visit(w, now, pto, stamp);
      && v.kept + Young(v.todo, now, pto) == w.kept + Young(w.todo, now, pto)
      && Pushed(v.again) + Old(v.todo, now, pto) == Pushed(w.again) + Old(w.todo, now, pto)
      && Past(v.todo, now) && |v.todo| < |w.todo|
  {
    hide Bump, Next;
    var e := w.todo[0];
    assert (now - e.time) % WORD == now - e.time by { Unwrapped(now - e.time); }
    if Resent(e) {
      var copy := Entry(e.epoch, Next(w.counters, e.epoch), stamp(w.stamps), e.payload);
      assert ([copy] + w.again)[1..] == w.again;
      assert [] + w.again == w.again;
    }
  }

  lemma Unwrapped(x: nat)
    requires x < WORD
    ensures x % WORD == x
  {}

  lemma {:induction false} FinishByAge(w: Walk, now: nat, pto: nat, stamp: nat -> nat)
    requires Past(w.todo, now) && now < WORD
    ensures var r := Finish(w, now, pto, stamp);
      && r.kept == w.kept + Young(w.todo, now, pto)
      && Pushed(r.again) == Pushed(w.again) + Old(w.todo, now, pto)
    decreases |w.todo|
  {
    hide Visit, Young, Old, Pushed, Past;
    FinishStep(w, now, pto, stamp);
    if |w.todo| == 0 {
      assert Young(w.todo, now, pto) == [] && Old(w.todo, now, pto) == [] by { NothingLeft(w.todo, now, pto); }
    } else {
      VisitByAge(w, now, pto, stamp);
      FinishByAge(Visit(w, now, pto, stamp), now, pto, stamp);
    }
  }

  lemma NothingLeft(q: seq<Entry>, now: nat, pto: nat)
    requires |q| == 0
    ensures Young(q, now, pto) == [] && Old(q, now, pto) == []
  {}

  lemma {:induction false} YoungIs(q: seq<Entry>, now: nat, limit: nat, e: Entry)
    ensures e in Young(q, now, limit) <==> e in q && now - e.time <= limit
  {
    if |q| > 0 {
      YoungIs(q[1..], now, limit, e);
      assert e in q <==> e == q[0] || e in q[1..];
    }
  }

  /** For clock readings that do not wrap: exactly the entries of at most the timeout's age
      stay, in order and under their numbers; of the others, all that have a sender and a
      payload that can be stored are queued again, in order, under numbers not used before. */
  lemma PtoByAge(q: seq<Entry>, c: Counters, rtt: Rtt, now: nat, stamp: nat -> nat)
    requires now < 0x1_0000_0000_0000_0000 && rtt.srtt + 4 * rtt.rttvar < 0x1_0000_0000_0000_0000
    requires forall i :: 0 <= i < |q| ==> q[i].time <= now
    ensures var limit := if rtt.srtt + 4 * rtt.rttvar == 0 then 300000 else rtt.srtt + 4 * rtt.rttvar;
      var r := Finish(Walk([], [], q, c, 0), now, Timeout(rtt), stamp);
      && r.kept == Young(q, now, limit)
      && (forall e :: e in r.kept <==> e in q && now - e.time <= limit)
      && Pushed(r.again) == Old(q, now, limit)
      && forall e :: e in r.again ==>
           e.pn >= if e.epoch == 0 then c.initial else if e.epoch == 2 then c.handshake else c.app
  {
    hide Finish, Young, Old, Pushed;
    var limit := Timeout(rtt);
    Unwrapped(rtt.srtt + 4 * rtt.rttvar);
    var w := Walk([], [], q, c, 0);
    FinishByAge(w, now, limit, stamp);
    assert Pushed([]) == [] by { NothingPushed(); }
    PtoFresh(w, c, now, limit, stamp);
    forall e ensures e in Young(q, now, limit) <==> e in q && now - e.time <= limit {
      YoungIs(q, now, limit, e);
    }
  }

  lemma NothingPushed()
    ensures Pushed([]) == []
  {}

  // ----- packet numbers stay unique ---------------------------------------------------------------

  lemma BumpGrows(c: Counters, epoch: nat, other: nat)
    requires Sends(epoch) && Sends(other)
    ensures Next(Bump(c, epoch), other) == if epoch == other then Next(c, other) + 1 else Next(c, other)
  {}

  /** A packet with a copy number at the head. */
  lemma PushUnique(q: seq<Entry>, c: Counters, e: Entry)
    requires Unique(q, c) && Resent(e) && e.pn == Next(c, e.epoch)
    ensures Unique([e] + q, Bump(c, e.epoch))
  {
    hide Bump, Next, Storable, Sends;
    var t := [e] + q;
    forall i | 0 <= i < |t| ensures t[i].pn < Next(Bump(c, e.epoch), t[i].epoch) {
      BumpGrows(c, e.epoch, t[i].epoch);
      if i > 0 {
        assert t[i] == q[i - 1];
      }
    }
    forall i, j | 0 <= i < j < |t| ensures !Matches(t[j], t[i].epoch, t[i].pn) {
      assert t[j] == q[j - 1];
      if i > 0 {
        assert t[i] == q[i - 1];
      }
    }
  }

  lemma RemoveUnique(q: seq<Entry>, c: Counters, k: nat)
    requires Unique(q, c) && k < |q|
    ensures Unique(RemoveAt(q, k), c)
  {
    hide RemoveAt, Next, Storable, Sends, Matches;
    RemovedAt(q, k);
    var t := RemoveAt(q, k);
    forall i | 0 <= i < |t| ensures Resent(t[i]) && t[i].pn < Next(c, t[i].epoch) {
      assert t[i] == if i < k then q[i] else q[i + 1];
    }
    forall i, j | 0 <= i < j < |t| ensures !Matches(t[j], t[i].epoch, t[i].pn) {
      assert t[i] == if i < k then q[i] else q[i + 1];
      assert t[j] == if j < k then q[j] else q[j + 1];
    }
  }

  /** Between any two nodes of the walk the numbers are unique. */
  lemma VisitUnique(w: Walk, now: nat, pto: nat, stamp: nat -> nat)
    requires |w.todo| > 0 && Unique(AllOf(w), w.counters)
    ensures var v := Visit(w, now, pto, stamp); Unique(AllOf(v), v.counters)
  {
    hide Visit, Unique, RemoveAt, Bump, Next, Storable, Expired;
    VisitCases(w, now, pto, stamp);
    var e, i := w.todo[0], |w.again| + |w.kept|;
    var q, c := AllOf(w), w.counters;
    assert q[i] == e;
    if Expired(e, now, pto) {
      KnownAt(q, c, i);
      var copy := Entry(e.epoch, Next(c, e.epoch), stamp(w.stamps), e.payload);
      PushUnique(q, c, copy);
      RemoveUnique([copy] + q, Bump(c, e.epoch), i + 1);
      RemovePushed([copy] + q, q, i);
    }
  }

  lemma KnownAt(q: seq<Entry>, c: Counters, i: nat)
    requires Unique(q, c) && i < |q|
    ensures Resent(q[i])
  {}

  lemma {:induction false} PtoUnique(w: Walk, now: nat, pto: nat, stamp: nat -> nat)
    requires Unique(AllOf(w), w.counters)
    ensures var r := Finish(w, now, pto, stamp); Unique(r.again + r.kept, r.counters)
    decreases |w.todo|
  {
    hide Visit, Unique;
    FinishStep(w, now, pto, stamp);
    if |w.todo| == 0 {
      assert AllOf(w) == w.again + w.kept;
    } else {
      VisitUnique(w, now, pto, stamp);
      VisitCases(w, now, pto, stamp);
      PtoUnique(Visit(w, now, pto, stamp), now, pto, stamp);
    }
  }

  /** Every packet that is sent again gets a number not used before. */
  lemma {:induction false} PtoFresh(w: Walk, c: Counters, now: nat, pto: nat, stamp: nat -> nat)
    requires forall e :: e in w.again ==> Sends(e.epoch) && Next(c, e.epoch) <= e.pn
    requires forall k :: Sends(k) ==> Next(c, k) <= Next(w.counters, k)
    ensures forall e :: e in Finish(w, now, pto, stamp).again ==> Sends(e.epoch) && Next(c, e.epoch) <= e.pn
    decreases |w.todo|
  {
    FinishStep(w, now, pto, stamp);
    if |w.todo| > 0 {
      PtoFresh(Visit(w, now, pto, stamp), c, now, pto, stamp);
    }
  }

  // ----- acknowledgements -----------------------------------------------------------------------

  /** An acknowledgement removes the one entry it names and no other. */
  lemma AckRemovesOne(q: seq<Entry>, c: Counters, epoch: nat, pn: nat)
    requires Unique(q, c) && Find(q, epoch, pn) < |q|
    ensures var t := RemoveAt(q, Find(q, epoch, pn));
      && (forall e :: e in t <==> e in q && !Matches(e, epoch, pn))
      && Unique(t, c)
  {
    hide RemoveAt, Resent, Next;
    var k := Find(q, epoch, pn);
    RemovedAt(q, k);
    RemoveUnique(q, c, k);
    var t := RemoveAt(q, k);
    forall e ensures e in t <==> e in q && !Matches(e, epoch, pn) {
      if e in t {
        var i :| 0 <= i < |t| && t[i] == e;
        assert e == if i < k then q[i] else q[i + 1];
      }
      if e in q && !Matches(e, epoch, pn) {
        var i :| 0 <= i < |q| && q[i] == e;
        assert i < k ==> t[i] == e;
        assert i > k ==> t[i - 1] == e;
      }
    }
  }

  // ----- every run ------------------------------------------------------------------------------

  datatype Event =
    | Sent(epoch: nat, payload: seq<Byte>, now: nat)
    | Acked(epoch: nat, pn: nat)
    | Probe(now: nat, pto: nat, stamp: nat -> nat)

  datatype Sender = Sender(queue: seq<Entry>, counters: Counters)

  /** The state after an event, as the methods of the connection leave it. */
  function After(s: Sender, e: Event): Sender
    requires e.Sent? ==> Sends(e.epoch)
  {
    match e
    case Sent(epoch, payload, now) =>
      Sender((if Storable(payload) then [Entry(epoch, Next(s.counters, epoch), now, payload)] else []) + s.queue,
             Bump(s.counters, epoch))
    case Acked(epoch, pn) =>
      var i := Find(s.queue, epoch, pn);
      if i < |s.queue| then s.(queue := RemoveAt(s.queue, i)) else s
    case Probe(now, pto, stamp) =>
      var w := Finish(Walk([], [], s.queue, s.counters, 0), now, pto, stamp);
      Sender(w.again + w.kept, w.counters)
  }

  function Runs(events: seq<Event>): Sender
    requires forall i :: 0 <= i < |events| && events[i].Sent? ==> Sends(events[i].epoch)
  {
    if |events| == 0 then Sender([], Counters(1, 0, 0)) else After(Runs(events[..|events| - 1]), events[|events| - 1])
  }

  lemma AfterUnique(s: Sender, e: Event)
    requires Unique(s.queue, s.counters) && (e.Sent? ==> Sends(e.epoch))
    ensures Unique(After(s, e).queue, After(s, e).counters)
  {
    hide Unique, Finish, RemoveAt, Find, Next, Bump;
    match e
    case Sent(epoch, payload, now) =>
      if Storable(payload) {
        PushUnique(s.queue, s.counters, Entry(epoch, Next(s.counters, epoch), now, payload));
      } else {
        assert [] + s.queue == s.queue;
        BumpUnique(s.queue, s.counters, epoch);
      }
    case Acked(epoch, pn) =>
      if Find(s.queue, epoch, pn) < |s.queue| {
        RemoveUnique(s.queue, s.counters, Find(s.queue, epoch, pn));
      }
    case Probe(now, pto, stamp) =>
      var w := Walk([], [], s.queue, s.counters, 0);
      assert AllOf(w) == s.queue;
      PtoUnique(w, now, pto, stamp);
  }

  lemma BumpUnique(q: seq<Entry>, c: Counters, epoch: nat)
    requires Unique(q, c) && Sends(epoch)
    ensures Unique(q, Bump(c, epoch))
  {
    hide Bump, Next;
    forall i | 0 <= i < |q| ensures Resent(q[i]) && q[i].pn < Next(Bump(c, epoch), q[i].epoch) {
      BumpGrows(c, epoch, q[i].epoch);
    }
  }

  /** Over every run without a Retry, epoch and packet number are unique in the queue. */
  lemma {:induction false} EveryRun(events: seq<Event>)
    requires forall i :: 0 <= i < |events| && events[i].Sent? ==> Sends(events[i].epoch)
    ensures Unique(Runs(events).queue, Runs(events).counters)
  {
    if |events| > 0 {
      hide Unique, After;
      var rest := events[..|events| - 1];
      EveryRun(rest);
      AfterUnique(Runs(rest), events[|events| - 1]);
    }
  }

  // ----- the round-trip estimate ------------------------------------------------------------------

  function Estimates(samples: seq<nat>): Rtt {
    if |samples| == 0 then Rtt(0, 0) else Estimate(Estimates(samples[..|samples| - 1]), samples[|samples| - 1])
  }

  /** The smoothed value lies between the smallest and the largest sample, and the
      variation is at most the largest. */
  lemma {:induction false} SrttBetween(samples: seq<nat>, lo: nat, hi: nat)
    requires Between(samples, lo, hi) && hi < 0x2000_0000_0000_0000
    ensures lo <= Estimates(samples).srtt <= hi && Estimates(samples).rttvar <= hi
  {
    hide Estimate;
    var rest, last := samples[..|samples| - 1], samples[|samples| - 1];
    if |rest| > 0 {
      SrttBetween(rest, lo, hi);
      EstimateBetween(Estimates(rest), last, lo, hi);
    } else {
      FirstEstimate(last);
    }
  }

  lemma EstimateBetween(e: Rtt, rtt: nat, lo: nat, hi: nat)
    requires lo <= e.srtt <= hi && e.rttvar <= hi && lo <= rtt <= hi < 0x2000_0000_0000_0000
    ensures lo <= Estimate(e, rtt).srtt <= hi && Estimate(e, rtt).rttvar <= hi
  {
    Average(7 * e.srtt + rtt, 8, lo, hi);
    Average(3 * e.rttvar + if e.srtt > rtt then e.srtt - rtt else rtt - e.srtt, 4, 0, hi);
  }

  lemma Average(x: nat, n: nat, lo: nat, hi: nat)
    requires (n == 4 || n == 8) && n * lo <= x <= n * hi && hi < 0x2000_0000_0000_0000
    ensures lo <= x % WORD / n <= hi
  {
    assert x < WORD;
    assert x % WORD == x;
  }

  lemma FirstEstimate(rtt: nat)
    ensures Estimate(Rtt(0, 0), rtt) == Rtt(rtt, rtt / 2)
  {}

  /** The weights of section 5.3 of RFC 9002, rounded down: an eighth of the new sample, and
      a quarter of its distance from the smoothed value before it. */
  lemma EstimateWeights(e: Rtt, rtt: nat)
    requires e.srtt < 0x2000_0000_0000_0000 && e.rttvar < 0x2000_0000_0000_0000 && rtt < 0x2000_0000_0000_0000
    ensures var n := Estimate(e, rtt);
      if e.srtt == 0 then n.srtt == rtt && 2 * n.rttvar <= rtt <= 2 * n.rttvar + 1
      else
        && 8 * n.srtt <= 7 * e.srtt + rtt <= 8 * n.srtt + 7
        && 4 * n.rttvar <= 3 * e.rttvar + (if e.srtt > rtt then e.srtt - rtt else rtt - e.srtt) <= 4 * n.rttvar + 3
  {
    var diff := if e.srtt > rtt then e.srtt - rtt else rtt - e.srtt;
    Unwrapped(7 * e.srtt + rtt);
    Unwrapped(3 * e.rttvar + diff);
  }

  /** Two samples of 2^61 make the 64-bit sum wrap. */
  lemma SrttWraps()
    ensures Estimates([0x2000_0000_0000_0000, 0x2000_0000_0000_0000]).srtt == 0
  {
    TwoEstimates(0x2000_0000_0000_0000, 0x2000_0000_0000_0000);
  }

  lemma TwoEstimates(x: nat, y: nat)
    ensures Estimates([x, y]) == Estimate(Estimate(Rtt(0, 0), x), y)
  {
    hide Estimate;
    var s: seq<nat> := [x, y];
    assert s[..1] == [x] && s[..1][..0] == [];
    assert Estimates(s[..1]) == Estimate(Rtt(0, 0), x);
  }

  /** All samples lie between lo and hi. */
  predicate Between(samples: seq<nat>, lo: nat, hi: nat) {
    |samples| > 0 && forall i :: 0 <= i < |samples| ==> lo <= samples[i] <= hi
  }

  /** For samples of at most m, the smoothed value never leaves their range. */
  ghost predicate Averages(m: nat) {
    forall samples: seq<nat>, lo: nat, hi: nat ::
      Between(samples, lo, hi) && hi <= m ==> lo <= Estimates(samples).srtt <= hi
  }

  /** It is an average for all sample sequences exactly below 2^61. */
  lemma SrttThreshold(m: nat)
    ensures Averages(m) <==> m < 0x2000_0000_0000_0000
  {
    hide Estimates;
    if m < 0x2000_0000_0000_0000 {
      forall samples: seq<nat>, lo: nat, hi: nat | Between(samples, lo, hi) && hi <= m
        ensures lo <= Estimates(samples).srtt <= hi
      {
        SrttBetween(samples, lo, hi);
      }
    } else {
      SrttWraps();
      var big: nat := 0x2000_0000_0000_0000;
      assert Between([big, big], big, big);
      assert !Averages(m);
    }
  }

  /** A clock set back by a millisecond between sending and the acknowledgement makes such
      a sample: the difference wraps, and the next estimate is below both samples. */
  lemma ClockSetBack()
    ensures Sample(0, 1000, 0) == WORD - 1000
    ensures Estimates([Sample(0, 1000, 0), 50000]).srtt == 5375 < 50000 < Sample(0, 1000, 0)
  {
    TwoEstimates(Sample(0, 1000, 0), 50000);
  }

  /** For clock readings below 2^61 and a delay that came in a varint, a sample is below
      2^61 exactly when the clock has not gone back. */
  lemma SampleInRange(now: nat, sent: nat, delay: nat)
    requires now < 0x2000_0000_0000_0000 && sent < 0x2000_0000_0000_0000 && delay < 0x4000_0000_0000_0000
    ensures Sample(now, sent, delay) < 0x2000_0000_0000_0000 <==> sent <= now
  {
    if sent > now {
      assert (now - sent) % WORD == WORD - (sent - now);
    }
  }
}
