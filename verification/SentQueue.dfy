/** The queue of sent packets, acknowledgements, the RTT estimate and the probe timeout
    (quic.c; RFC 9002). The clock is a parameter. */
module SentQueue {
  import opened Bits

  const WORD: nat := 0x1_0000_0000_0000_0000

  /** What one packet in the queue holds. */
  datatype Entry = Entry(epoch: nat, pn: nat, time: nat, payload: seq<Byte>)

  /** The next packet number of every space that sends. */
  datatype Counters = Counters(initial: nat, handshake: nat, app: nat)

  datatype Rtt = Rtt(srtt: nat, rttvar: nat)

  // ----- the queue as a value ----------------------------------------------------------------

  predicate Matches(e: Entry, epoch: nat, pn: nat) {
    e.epoch == epoch && e.pn == pn
  }

  /** The position of the first match, or the length. */
  function Find(q: seq<Entry>, epoch: nat, pn: nat): (i: nat)
    ensures i <= |q|
    ensures forall j :: 0 <= j < i ==> !Matches(q[j], epoch, pn)
    ensures i < |q| ==> Matches(q[i], epoch, pn)
  {
    if |q| == 0 || Matches(q[0], epoch, pn) then 0 else 1 + Find(q[1..], epoch, pn)
  }

  function RemoveAt<T>(q: seq<T>, i: nat): (r: seq<T>)
    requires i < |q|
    ensures |r| == |q| - 1
  {
    q[..i] + q[i + 1..]
  }

  lemma RemovedAt<T>(q: seq<T>, i: nat)
    requires i < |q|
    ensures forall j :: 0 <= j < i ==> RemoveAt(q, i)[j] == q[j]
    ensures forall j :: i <= j < |q| - 1 ==> RemoveAt(q, i)[j] == q[j + 1]
  {}

  /** The sample of an acknowledgement; unsigned subtraction wraps around. */
  function Sample(now: nat, sent: nat, delay: nat): nat {
    var rtt := (now - sent) % WORD;
    if rtt > delay then rtt - delay else rtt
  }

  /** The estimate after a sample. */
  function Estimate(e: Rtt, rtt: nat): Rtt {
    if e.srtt == 0 then Rtt(rtt, rtt / 2)
    else
      var diff := if e.srtt > rtt then e.srtt - rtt else rtt - e.srtt;
      Rtt((7 * e.srtt + rtt) % WORD / 8, (3 * e.rttvar + diff) % WORD / 4)
  }

  function Timeout(e: Rtt): nat {
    var pto := (e.srtt + 4 * e.rttvar) % WORD;
    if pto == 0 then 300000 else pto
  }

  predicate Expired(e: Entry, now: nat, pto: nat) {
    (now - e.time) % WORD > pto
  }

  /** Only these epochs have a sender. */
  predicate Sends(epoch: nat) {
    epoch == 0 || epoch == 2 || epoch == 3
  }

  predicate Storable(payload: seq<Byte>) {
    0 < |payload| <= 2048
  }

  /** An expired entry is queued again only with a sender and a payload that fits. */
  predicate Resent(e: Entry) {
    Sends(e.epoch) && Storable(e.payload)
  }

  function Next(c: Counters, epoch: nat): nat
    requires Sends(epoch)
  {
    if epoch == 0 then c.initial else if epoch == 2 then c.handshake else c.app
  }

  function Bump(c: Counters, epoch: nat): Counters
    requires Sends(epoch)
  {
    if epoch == 0 then c.(initial := c.initial + 1)
    else if epoch == 2 then c.(handshake := c.handshake + 1)
    else c.(app := c.app + 1)
  }

  /** A walk over the queue for the probe timeout: what was sent again (latest first),
      what was kept, what is still to be visited, the counters and the time stamps used. */
  datatype Walk = Walk(again: seq<Entry>, kept: seq<Entry>, todo: seq<Entry>, counters: Counters, stamps: nat)

  /** One step of the walk. */
  function Visit(w: Walk, now: nat, pto: nat, stamp: nat -> nat): Walk
    requires |w.todo| > 0
  {
    var e := w.todo[0];
    if !Expired(e, now, pto) then w.(kept := w.kept + [e], todo := w.todo[1..])
    else
      Walk(
        (if Resent(e) then [Entry(e.epoch, Next(w.counters, e.epoch), stamp(w.stamps), e.payload)] else []) + w.again,
        w.kept,
        w.todo[1..],
        if Sends(e.epoch) then Bump(w.counters, e.epoch) else w.counters,
        if Sends(e.epoch) then w.stamps + 1 else w.stamps)
  }

  /** The queue and its counters in the middle of a walk. */
  function AllOf(w: Walk): seq<Entry> {
    w.again + w.kept + w.todo
  }

  function Finish(w: Walk, now: nat, pto: nat, stamp: nat -> nat): (r: Walk)
    ensures r.todo == []
    decreases |w.todo|
  {
    if |w.todo| == 0 then w else Finish(Visit(w, now, pto, stamp), now, pto, stamp)
  }

  // ----- the linked list ----------------------------------------------------------------------

  /** A node of the list; only its link ever changes. */
  class Packet {
    const pn: nat
    const epoch: nat
    const sent_time: nat
    const payload: seq<Byte>
    var next: Packet?

    constructor (pn_: nat, epoch_: nat, time: nat, payload_: seq<Byte>, next_: Packet?)
      ensures pn == pn_ && epoch == epoch_ && sent_time == time && payload == payload_ && next == next_
    {
      pn, epoch, sent_time, payload, next := pn_, epoch_, time, payload_, next_;
    }

    ghost function Contents(): Entry {
      Entry(epoch, pn, sent_time, payload)
    }
  }

  ghost function Entries(nodes: seq<Packet>): (q: seq<Entry>)
    ensures |q| == |nodes| && forall i :: 0 <= i < |q| ==> q[i] == nodes[i].Contents()
  {
    seq(|nodes|, i requires 0 <= i < |nodes| => nodes[i].Contents())
  }

  lemma EntriesRemove(nodes: seq<Packet>, i: nat)
    requires i < |nodes|
    ensures Entries(RemoveAt(nodes, i)) == RemoveAt(Entries(nodes), i)
  {}

  function NodeAt(nodes: seq<Packet>, i: nat): Packet? {
    if i < |nodes| then nodes[i] else null
  }

  /** The list that starts at p runs through nodes and ends. */
  ghost predicate Linked(p: Packet?, nodes: seq<Packet>)
    reads nodes
  {
    && p == NodeAt(nodes, 0)
    && forall i :: 0 <= i < |nodes| ==> nodes[i].next == NodeAt(nodes, i + 1)
  }

  predicate Distinct<T(==)>(s: seq<T>) {
    forall i, j :: 0 <= i < |s| && 0 <= j < |s| && s[i] == s[j] ==> i == j
  }

  lemma DistinctFrom<T>(s: seq<T>, i: nat)
    requires Distinct(s) && i < |s|
    ensures forall k :: 0 <= k < |s| && k != i ==> s[k] != s[i]
  {}

  lemma DistinctRemove<T>(s: seq<T>, i: nat)
    requires Distinct(s) && i < |s|
    ensures Distinct(RemoveAt(s, i))
  {
    hide RemoveAt;
    RemovedAt(s, i);
    var t := RemoveAt(s, i);
    forall j, k | 0 <= j < |t| && 0 <= k < |t| && t[j] == t[k] ensures j == k {
      var a, b := if j < i then j else j + 1, if k < i then k else k + 1;
      assert t[j] == s[a] && t[k] == s[b];
    }
  }

  /** The connection, as far as sent packets go. */
  class Connection {
    var sent_queue: Packet?
    var c_initial_pn: nat
    var c_hs_pn: nat
    var c_app_pn: nat
    var srtt: nat
    var rttvar: nat
    ghost var nodes: seq<Packet>

    ghost predicate Valid()
      reads this, nodes
    {
      Linked(sent_queue, nodes) && Distinct(nodes)
    }

    ghost function Queue(): (q: seq<Entry>)
      reads this`nodes
      ensures |q| == |nodes|
    {
      Entries(nodes)
    }

    ghost function Numbers(): Counters
      reads this
    {
      Counters(c_initial_pn, c_hs_pn, c_app_pn)
    }

    constructor ()
      ensures Valid() && Queue() == [] && Numbers() == Counters(1, 0, 0) && srtt == rttvar == 0
    {
      sent_queue := null;
      c_initial_pn, c_hs_pn, c_app_pn := 1, 0, 0;
      srtt, rttvar := 0, 0;
      nodes := [];
    }

    /** quic_add_to_sent_queue. */
    method Add(epoch: nat, pn: nat, payload: seq<Byte>, now: nat)
      requires Valid()
      modifies this`sent_queue, this`nodes
      ensures Valid()
      ensures Storable(payload) ==> Queue() == [Entry(epoch, pn, now, payload)] + old(Queue())
      ensures !Storable(payload) ==> Queue() == old(Queue()) && nodes == old(nodes)
      ensures Storable(payload) ==> |nodes| > 0 && fresh(nodes[0]) && nodes[1..] == old(nodes)
    {
      if |payload| <= 0 || |payload| > 2048 { return; }
      var p := new Packet(pn, epoch, now, payload, sent_queue);
      sent_queue := p;
      ghost var was := nodes;
      nodes := [p] + was;
      forall j | 0 <= j < |nodes| ensures nodes[j].next == NodeAt(nodes, j + 1) {
        if j > 0 {
          assert nodes[j] == was[j - 1];
        }
      }
      assert nodes[1..] == was;
      assert Queue() == [p.Contents()] + old(Queue());
    }

    /** Node i leaves the list; prev is the node before it. */
    method Unlink(ghost i: nat, prev: Packet?, curr: Packet)
      requires Valid() && i < |nodes| && curr == nodes[i]
      requires prev == if i == 0 then null else nodes[i - 1]
      modifies this`sent_queue, this`nodes, prev
      ensures Valid() && nodes == RemoveAt(old(nodes), i)
      ensures Queue() == RemoveAt(old(Queue()), i)
    {
      hide Distinct, Entries, RemoveAt;
      ghost var was := nodes;
      EntriesRemove(was, i);
      DistinctRemove(was, i);
      RemovedAt(was, i);
      assert curr.next == NodeAt(was, i + 1);
      if prev != null {
        DistinctFrom(was, i - 1);
        prev.next := curr.next;
      } else {
        sent_queue := curr.next;
      }
      nodes := RemoveAt(was, i);
      forall j | 0 <= j < |nodes| ensures nodes[j].next == NodeAt(nodes, j + 1) {
        if j < i {
          assert nodes[j] == was[j];
        } else {
          assert nodes[j] == was[j + 1] && was[j + 1] != prev;
        }
      }
    }

    /** The walk to the first match; curr is null without one. */
    method Search(epoch_: nat, pn: nat) returns (prev: Packet?, curr: Packet?, ghost i: nat)
      requires Valid()
      ensures i == Find(Queue(), epoch_, pn) && curr == NodeAt(nodes, i)
      ensures prev == if i == 0 then null else nodes[i - 1]
    {
      hide Distinct, Find;
      ghost var q := Queue();
      prev, curr, i := null, sent_queue, 0;
      FindNone(q, epoch_, pn);
      while curr != null
        invariant 0 <= i <= |nodes| == |q| && curr == NodeAt(nodes, i)
        invariant prev == if i == 0 then null else nodes[i - 1]
        invariant Find(q, epoch_, pn) == i + Find(q[i..], epoch_, pn)
        decreases |nodes| - i
      {
        FindNext(q, i, epoch_, pn);
        if curr.epoch == epoch_ && curr.pn == pn { return; }
        prev := curr;
        curr := curr.next;
        i := i + 1;
      }
    }

    /** The smoothed round-trip time takes in a sample. */
    method Observe(rtt: nat)
      modifies this`srtt, this`rttvar
      ensures Rtt(srtt, rttvar) == Estimate(Rtt(old(srtt), old(rttvar)), rtt)
    {
      if srtt == 0 {
        srtt := rtt;
        rttvar := rtt / 2;
      } else {
        rttvar := (3 * rttvar + if srtt > rtt then srtt - rtt else rtt - srtt) % WORD / 4;
        srtt := (7 * srtt + rtt) % WORD / 8;
      }
    }

    /** quic_handle_packet_acked: the first match leaves the queue and its age becomes a
        sample; without a match nothing changes. */
    method HandleAcked(epoch_: nat, pn: nat, delay: nat, now: nat)
      requires Valid()
      modifies this`sent_queue, this`nodes, this`srtt, this`rttvar, nodes
      ensures Valid()
      ensures var i := Find(old(Queue()), epoch_, pn);
        if i == old(|nodes|) then
          Queue() == old(Queue()) && srtt == old(srtt) && rttvar == old(rttvar)
        else
          && Queue() == RemoveAt(old(Queue()), i)
          && Rtt(srtt, rttvar) == Estimate(Rtt(old(srtt), old(rttvar)), Sample(now, old(Queue())[i].time, delay))
    {
      hide Distinct, RemoveAt, Find, Estimate, Entries, Linked;
      var prev, curr, i := Search(epoch_, pn);
      if curr == null { return; }
      assert Queue()[i] == curr.Contents();
      var rtt := (now - curr.sent_time) % WORD;
      if rtt > delay {
        rtt := rtt - delay;
      }
      assert rtt == Sample(now, Queue()[i].time, delay);
      Unlink(i, prev, curr);
      Observe(rtt);
    }

    /** Removal by a search for the node before, from the head of the list. */
    method Delete(ghost i: nat, packet: Packet)
      requires Valid() && i < |nodes| && packet == nodes[i]
      modifies this`sent_queue, this`nodes, nodes
      ensures Valid() && nodes == RemoveAt(old(nodes), i)
      ensures Queue() == RemoveAt(old(Queue()), i)
    {
      hide RemoveAt, Entries;
      var p := sent_queue;
      if p == packet {
        assert i == 0;
        Unlink(0, null, packet);
        return;
      }
      ghost var j := 0;
      while p != null && p.next != packet
        invariant 0 <= j < i && p == nodes[j]
        decreases i - j
      {
        assert j + 1 < i by {
          assert nodes[j].next == NodeAt(nodes, j + 1);
        }
        p := p.next;
        j := j + 1;
      }
      assert nodes[j].next == NodeAt(nodes, j + 1);
      Unlink(i, p, packet);
    }

    /** quic_send_initial_raw, quic_send_handshake_raw or quic_send_1rtt, as far as the
        queue goes. */
    method Send(epoch: nat, payload: seq<Byte>, now: nat)
      requires Valid() && Sends(epoch)
      modifies this`sent_queue, this`nodes, this`c_initial_pn, this`c_hs_pn, this`c_app_pn
      ensures Valid() && Numbers() == Bump(old(Numbers()), epoch)
      ensures Storable(payload) ==>
        && Queue() == [Entry(epoch, Next(old(Numbers()), epoch), now, payload)] + old(Queue())
        && |nodes| > 0 && fresh(nodes[0]) && nodes[1..] == old(nodes)
      ensures !Storable(payload) ==> Queue() == old(Queue()) && nodes == old(nodes)
    {
      hide Linked, Distinct, Entries;
      if epoch == 0 {
        Add(0, c_initial_pn, payload, now);
        c_initial_pn := c_initial_pn + 1;
      } else if epoch == 2 {
        Add(2, c_hs_pn, payload, now);
        c_hs_pn := c_hs_pn + 1;
      } else {
        Add(3, c_app_pn, payload, now);
        c_app_pn := c_app_pn + 1;
      }
    }

    /** An expired packet is sent again, if its epoch has a sender. */
    method Resend(ghost i: nat, curr: Packet, now: nat)
      requires Valid() && i < |nodes| && curr == nodes[i]
      modifies this`sent_queue, this`nodes, this`c_initial_pn, this`c_hs_pn, this`c_app_pn
      ensures Valid()
      ensures var e := old(Queue())[i];
        && Numbers() == (if Sends(e.epoch) then Bump(old(Numbers()), e.epoch) else old(Numbers()))
        && (if Resent(e) then
             && Queue() == [Entry(e.epoch, Next(old(Numbers()), e.epoch), now, e.payload)] + old(Queue())
             && |nodes| > 0 && fresh(nodes[0]) && nodes[1..] == old(nodes)
           else Queue() == old(Queue()) && nodes == old(nodes))
    {
      hide Distinct, Entries, Linked;
      assert Queue()[i] == curr.Contents();
      if curr.epoch == 0 || curr.epoch == 2 || curr.epoch == 3 {
        Send(curr.epoch, curr.payload, now);
      }
    }

    /** The step for an expired packet: sent again and removed. */
    method Retransmit(ghost i: nat, curr: Packet, now: nat) returns (next: Packet?)
      requires Valid() && i < |nodes| && curr == nodes[i]
      modifies this`sent_queue, this`nodes, this`c_initial_pn, this`c_hs_pn, this`c_app_pn, nodes
      ensures Valid()
      ensures forall p :: p in nodes ==> p in old(nodes) || fresh(p)
      ensures var e := old(Queue())[i];
        && Numbers() == (if Sends(e.epoch) then Bump(old(Numbers()), e.epoch) else old(Numbers()))
        && Queue() == (if Resent(e) then [Entry(e.epoch, Next(old(Numbers()), e.epoch), now, e.payload)] else [])
             + RemoveAt(old(Queue()), i)
        && next == NodeAt(nodes, if Resent(e) then i + 1 else i)
    {
      hide Distinct, Entries, RemoveAt, Bump, Next, Storable, Sends;
      ghost var e := Queue()[i];
      ghost var q, was := Queue(), nodes;
      ghost var k := if Resent(e) then i + 1 else i;
      Resend(i, curr, now);
      assert nodes[k] == curr;
      ghost var mid, midQueue := nodes, Queue();
      assert mid[k].next == NodeAt(mid, k + 1);
      next := curr.next;
      Delete(k, curr);
      RemovedNext(mid, k);
      RemovedIn(mid, k);
      if Resent(e) {
        RemovePushed(midQueue, q, i);
      }
    }

    /** The list in the middle of a walk: curr is the next node to visit. */
    ghost predicate AtWalk(w: Walk, curr: Packet?)
      reads this, nodes
    {
      && Valid() && Queue() == AllOf(w) && Numbers() == w.counters
      && curr == NodeAt(nodes, |w.again| + |w.kept|)
    }

    lemma WalkStarts()
      requires Valid()
      ensures AtWalk(Walk([], [], Queue(), Numbers(), 0), sent_queue)
    {
      var q := Queue();
      assert [] + [] + q == q;
    }

    lemma WalkEnds(w: Walk, curr: Packet?)
      requires AtWalk(w, curr)
      ensures curr == null <==> |w.todo| == 0
      ensures |w.todo| == 0 ==> Queue() == w.again + w.kept
    {
      assert |AllOf(w)| == |nodes|;
      assert w.todo == [] ==> AllOf(w) == w.again + w.kept;
    }

    lemma WalkNode(w: Walk, curr: Packet)
      requires AtWalk(w, curr) && |w.todo| > 0
      ensures var i := |w.again| + |w.kept|;
        && i < |nodes| && nodes[i] == curr && w.todo[0] == Queue()[i] == curr.Contents()
        && curr.next == NodeAt(nodes, i + 1)
    {
      assert AllOf(w)[|w.again| + |w.kept|] == w.todo[0];
    }

    /** One iteration of quic_check_pto. */
    method VisitNode(ghost w: Walk, curr: Packet, sent: nat, now: nat, pto: nat, stamp: nat -> nat)
      returns (next: Packet?, sent': nat)
      requires AtWalk(w, curr) && |w.todo| > 0 && sent == w.stamps
      modifies this`sent_queue, this`nodes, this`c_initial_pn, this`c_hs_pn, this`c_app_pn, nodes
      ensures AtWalk(Visit(w, now, pto, stamp), next) && sent' == Visit(w, now, pto, stamp).stamps
      ensures forall p :: p in nodes ==> p in old(nodes) || fresh(p)
    {
      hide Distinct, Entries, RemoveAt, Bump, Next, Storable, Visit, AllOf, Linked, Resent;
      ghost var i := |w.again| + |w.kept|;
      WalkNode(w, curr);
      VisitCases(w, now, pto, stamp);
      sent' := sent;
      if (now - curr.sent_time) % WORD > pto {
        var sends := curr.epoch == 0 || curr.epoch == 2 || curr.epoch == 3;
        next := Retransmit(i, curr, stamp(sent));
        if sends {
          sent' := sent + 1;
        }
      } else {
        next := curr.next;
      }
    }

    /** quic_check_pto: the walk over the list, while retransmissions push onto its head. */
    method CheckPto(now: nat, stamp: nat -> nat)
      requires Valid()
      modifies this`sent_queue, this`nodes, this`c_initial_pn, this`c_hs_pn, this`c_app_pn, nodes
      ensures Valid()
      ensures var w := Finish(Walk([], [], old(Queue()), old(Numbers()), 0), now, Timeout(Rtt(srtt, rttvar)), stamp);
        Queue() == w.again + w.kept && Numbers() == w.counters
    {
      hide AtWalk, Finish, Visit, Valid;
      var pto := (srtt + 4 * rttvar) % WORD;
      if pto == 0 {
        pto := 300000;
      }
      ghost var w := Walk([], [], Queue(), Numbers(), 0);
      ghost var start := w;
      var sent := 0;
      var curr := sent_queue;
      WalkStarts();
      while curr != null
        invariant AtWalk(w, curr) && sent == w.stamps
        invariant Finish(w, now, pto, stamp) == Finish(start, now, pto, stamp)
        invariant forall i :: 0 <= i < |nodes| ==> nodes[i] in old(nodes) || fresh(nodes[i])
        decreases |w.todo|
      {
        WalkEnds(w, curr);
        FinishStep(w, now, pto, stamp);
        VisitCases(w, now, pto, stamp);
        curr, sent := VisitNode(w, curr, sent, now, pto, stamp);
        assert forall i :: 0 <= i < |nodes| ==> nodes[i] in nodes;
        w := Visit(w, now, pto, stamp);
      }
      WalkEnds(w, curr);
      FinishStep(w, now, pto, stamp);
      WalkIsValid(w, curr);
    }

    lemma WalkIsValid(w: Walk, curr: Packet?)
      requires AtWalk(w, curr)
      ensures Valid() && Numbers() == w.counters
    {}
  }

  lemma FinishStep(w: Walk, now: nat, pto: nat, stamp: nat -> nat)
    ensures |w.todo| == 0 ==> Finish(w, now, pto, stamp) == w
    ensures |w.todo| > 0 ==> Finish(w, now, pto, stamp) == Finish(Visit(w, now, pto, stamp), now, pto, stamp)
  {}

  /** What a step does to the queue as a whole. */
  lemma VisitCases(w: Walk, now: nat, pto: nat, stamp: nat -> nat)
    requires |w.todo| > 0
    ensures var e, v, i := w.todo[0], Visit(w, now, pto, stamp), |w.again| + |w.kept|;
      && |v.todo| == |w.todo| - 1
      && (!Expired(e, now, pto) ==>
        AllOf(v) == AllOf(w) && |v.again| + |v.kept| == i + 1 && v.counters == w.counters && v.stamps == w.stamps)
      && (Expired(e, now, pto) ==>
        && AllOf(v) == (if Resent(e) then [Entry(e.epoch, Next(w.counters, e.epoch), stamp(w.stamps), e.payload)] else [])
             + RemoveAt(AllOf(w), i)
        && |v.again| + |v.kept| == (if Resent(e) then i + 1 else i)
        && v.counters == (if Sends(e.epoch) then Bump(w.counters, e.epoch) else w.counters)
        && v.stamps == (if Sends(e.epoch) then w.stamps + 1 else w.stamps))
  {
    hide Expired, Bump, Next, Storable;
    var e, i := w.todo[0], |w.again| + |w.kept|;
    var pushed := if Resent(e) then [Entry(e.epoch, Next(w.counters, e.epoch), stamp(w.stamps), e.payload)] else [];
    assert RemoveAt(AllOf(w), i) == w.again + w.kept + w.todo[1..];
    assert pushed + (w.again + w.kept + w.todo[1..]) == pushed + w.again + w.kept + w.todo[1..];
    assert w.again + (w.kept + [e]) + w.todo[1..] == AllOf(w);
  }

  lemma RemovedNext(nodes: seq<Packet>, k: nat)
    requires k < |nodes|
    ensures NodeAt(RemoveAt(nodes, k), k) == NodeAt(nodes, k + 1)
  {}

  lemma RemovedIn<T>(s: seq<T>, k: nat)
    requires k < |s|
    ensures forall x :: x in RemoveAt(s, k) ==> x in s
  {}

  lemma RemovePushed(s: seq<Entry>, q: seq<Entry>, i: nat)
    requires |s| > 0 && s == [s[0]] + q && i < |q|
    ensures RemoveAt(s, i + 1) == [s[0]] + RemoveAt(q, i)
  {}

  lemma FindNext(q: seq<Entry>, i: nat, epoch: nat, pn: nat)
    requires i < |q|
    ensures Find(q[i..], epoch, pn) == if Matches(q[i], epoch, pn) then 0 else 1 + Find(q[i + 1..], epoch, pn)
  {
    assert q[i..][1..] == q[i + 1..];
  }

  lemma FindNone(q: seq<Entry>, epoch: nat, pn: nat)
    ensures q[0..] == q && Find(q[|q|..], epoch, pn) == 0
  {
    assert q[|q|..] == [];
  }
}
