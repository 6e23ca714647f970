/** Connection identifiers: what src/packet/connection_id.c is to compute, stated as a plain map
    from undirected address-and-port pairs to the connection's id and initial sequence number. */
module Connections {
  import opened Optional
  import opened Bytes

  /** The 4-tuple of a packet in the direction it was sent. */
  datatype Key = Key(src: bv32, dst: bv32, sport: u16, dport: u16) {
    function Reverse(): Key {
      Key(dst, src, dport, sport)
    }
  }

  datatype Transport = Udp | Tcp(syn: bool, ack: bool, seqno: u32)

  /** A captured packet: one that is not TCP or UDP over IPv4 has no connection. */
  datatype Packet = Untracked | Tracked(key: Key, transport: Transport)

  type Flow = set<(bv32, u16)>

  /** The two ends of a connection, in no order. */
  function FlowOf(k: Key): Flow {
    {(k.src, k.sport), (k.dst, k.dport)}
  }

  lemma FlowIsUndirected(k: Key, q: Key)
    ensures FlowOf(k) == FlowOf(q) <==> k == q || k == q.Reverse()
  {
    if FlowOf(k) == FlowOf(q) {
      assert (k.src, k.sport) in FlowOf(q) && (k.dst, k.dport) in FlowOf(q);
      assert (q.src, q.sport) in FlowOf(k) && (q.dst, q.dport) in FlowOf(k);
    }
  }

  datatype Connection = Connection(id: nat, seqno: u32)
  datatype Tracker = Tracker(flows: map<Flow, Connection>, counter: nat)

  const NEW := Tracker(map[], 0)
  const CONNECTION_ID_NONE := 0

  function FirstSeq(t: Transport): u32 {
    if t.Tcp? then t.seqno else 0
  }

  /** A connection request that is not a repetition of the one that opened `c`. */
  predicate Reopens(t: Transport, c: Connection) {
    t.Tcp? && t.syn && !t.ack && t.seqno != c.seqno
  }

  /** The id of a packet: a known flow keeps its id until a new connection request for it. */
  function Track(t: Tracker, p: Packet): (r: (Tracker, nat)) {
    if p.Untracked? then (t, CONNECTION_ID_NONE) else
      var f := FlowOf(p.key);
      if f in t.flows && !Reopens(p.transport, t.flows[f]) then (t, t.flows[f].id)
      else
        var id := t.counter + 1;
        (Tracker(t.flows[f := Connection(id, FirstSeq(p.transport))], id), id)
  }

  function Run(t: Tracker, ps: seq<Packet>): (r: (Tracker, seq<nat>))
    decreases ps
  {
    if ps == [] then (t, []) else
      var (t1, id) := Track(t, ps[0]);
      var (t2, ids) := Run(t1, ps[1..]);
      (t2, [id] + ids)
  }

  lemma {:induction false} RunSnoc(t: Tracker, ps: seq<Packet>, p: Packet)
    ensures Run(t, ps + [p]).0 == Track(Run(t, ps).0, p).0
    ensures Run(t, ps + [p]).1 == Run(t, ps).1 + [Track(Run(t, ps).0, p).1]
    decreases ps
  {
    if ps == [] {
      assert ([] + [p])[1..] == [];
    } else {
      assert (ps + [p])[1..] == ps[1..] + [p];
      RunSnoc(Track(t, ps[0]).0, ps[1..], p);
    }
  }

  /** Ids are in use for one flow at a time. */
  ghost predicate Sound(t: Tracker) {
    && (forall f :: f in t.flows ==> 1 <= t.flows[f].id <= t.counter)
    && (forall f, g :: f in t.flows && g in t.flows && t.flows[f].id == t.flows[g].id ==> f == g)
  }

  lemma {:induction false} RunSound(t: Tracker, ps: seq<Packet>)
    requires Sound(t)
    ensures Sound(Run(t, ps).0)
    ensures |Run(t, ps).1| == |ps|
    ensures forall i :: 0 <= i < |ps| ==> (Run(t, ps).1[i] == CONNECTION_ID_NONE <==> ps[i].Untracked?)
    decreases ps
  {
    if ps != [] {
      assert Sound(Track(t, ps[0]).0);
      RunSound(Track(t, ps[0]).0, ps[1..]);
    }
  }

  /** Both directions, and TCP and UDP alike, share the id of their 4-tuple: the second of two
      packets of one flow gets the id of the first unless it asks for a new connection, in which
      case its id has never been given out. Packets of different flows get different ids. */
  lemma SameConnection(t: Tracker, p: Packet, q: Packet)
    requires Sound(t) && p.Tracked? && q.Tracked?
    ensures var (t1, first) := Track(t, p);
            var (t2, second) := Track(t1, q);
            if p.key == q.key || p.key == q.key.Reverse() then
              if Reopens(q.transport, t1.flows[FlowOf(p.key)]) then second == t1.counter + 1 else second == first
            else second != first
  {
    FlowIsUndirected(p.key, q.key);
  }

  predicate OfFlow(p: Packet, f: Flow) {
    p.Tracked? && FlowOf(p.key) == f
  }

  ghost predicate AllHaveId(ps: seq<Packet>, ids: seq<nat>, f: Flow, id: nat)
    requires |ids| == |ps|
  {
    forall i :: 0 <= i < |ps| && OfFlow(ps[i], f) ==> ids[i] == id
  }

  ghost predicate NoneReopens(ps: seq<Packet>, f: Flow, c: Connection) {
    forall i :: 0 <= i < |ps| && OfFlow(ps[i], f) ==> !Reopens(ps[i].transport, c)
  }

  /** Over every run a connection keeps its id, in both directions and among any other traffic, if and
      only if no packet of the flow asks for a new connection. */
  lemma {:induction false} IdPersistsIff(t: Tracker, ps: seq<Packet>, f: Flow)
    requires Sound(t) && f in t.flows
    ensures |Run(t, ps).1| == |ps|
    ensures AllHaveId(ps, Run(t, ps).1, f, t.flows[f].id) <==> NoneReopens(ps, f, t.flows[f])
    decreases ps
  {
    if ps != [] {
      var (t1, id) := Track(t, ps[0]);
      var rest := Run(t1, ps[1..]).1;
      assert Run(t, ps).1 == [id] + rest;
      RunSound(t1, ps[1..]);
      FirstAndRest(ps, id, rest, f, t.flows[f]);
      if OfFlow(ps[0], f) && Reopens(ps[0].transport, t.flows[f]) {
        assert id != t.flows[f].id;
      } else {
        assert Sound(t1) && f in t1.flows && t1.flows[f] == t.flows[f];
        IdPersistsIff(t1, ps[1..], f);
      }
    }
  }

  lemma FirstAndRest(ps: seq<Packet>, id: nat, rest: seq<nat>, f: Flow, c: Connection)
    requires ps != [] && |rest| == |ps| - 1
    ensures AllHaveId(ps, [id] + rest, f, c.id) <==>
            (OfFlow(ps[0], f) ==> id == c.id) && AllHaveId(ps[1..], rest, f, c.id)
    ensures NoneReopens(ps, f, c) <==>
            (OfFlow(ps[0], f) ==> !Reopens(ps[0].transport, c)) && NoneReopens(ps[1..], f, c)
  {
    assert forall i :: 0 <= i < |rest| ==> ps[1..][i] == ps[i + 1] && ([id] + rest)[i + 1] == rest[i];
  }

  lemma {:induction false} RunAppend(t: Tracker, ps: seq<Packet>, qs: seq<Packet>)
    ensures Run(t, ps + qs).1 == Run(t, ps).1 + Run(Run(t, ps).0, qs).1
    decreases ps
  {
    if ps == [] {
      assert [] + qs == qs;
    } else {
      assert (ps + qs)[1..] == ps[1..] + qs;
      RunAppend(Track(t, ps[0]).0, ps[1..], qs);
    }
  }

  /** An id no flow has any more is not given out again. */
  lemma {:induction false} NeverAgain(t: Tracker, ps: seq<Packet>, id: nat)
    requires 1 <= id <= t.counter && forall f :: f in t.flows ==> t.flows[f].id != id
    ensures id !in Run(t, ps).1
    decreases ps
  {
    if ps != [] {
      NeverAgain(Track(t, ps[0]).0, ps[1..], id);
    }
  }

  /** Packet `j` of a run carries the id of flow `f` exactly if it is of that flow, and no packet of the flow
      up to and including it has asked for a new connection. */
  lemma {:induction false} CarriesIdIff(t: Tracker, ps: seq<Packet>, f: Flow, j: nat)
    requires Sound(t) && f in t.flows && j < |ps|
    ensures |Run(t, ps).1| == |ps|
    ensures Run(t, ps).1[j] == t.flows[f].id <==> OfFlow(ps[j], f) && NoneReopens(ps[..j + 1], f, t.flows[f])
    decreases ps
  {
    RunSound(t, ps);
    var (t1, id) := Track(t, ps[0]);
    var rest := Run(t1, ps[1..]).1;
    assert Run(t, ps).1 == [id] + rest;
    assert ps[..j + 1][1..] == ps[1..][..j] && ps[..j + 1][0] == ps[0];
    RunSound(t1, ps[1..]);
    FirstAndRest(ps[..j + 1], id, rest[..j], f, t.flows[f]);
    if OfFlow(ps[0], f) && Reopens(ps[0].transport, t.flows[f]) {
      NeverAgain(t1, ps[1..], t.flows[f].id);
    } else if j > 0 {
      CarriesIdIff(t1, ps[1..], f, j - 1);
    }
  }

  /** A request for a new connection with another sequence number than `seqno`. */
  predicate Requests(p: Packet, seqno: u32) {
    p.Tracked? && p.transport.Tcp? && p.transport.syn && !p.transport.ack && p.transport.seqno != seqno
  }

  /** The sequence number of the packet that last opened a connection of the flow, judged by its packets alone:
      the first of them, and each request with another number than the opening before it. */
  function OpenedWith(ps: seq<Packet>, f: Flow): Option<u32> {
    if ps == [] then None else
      var before, p := OpenedWith(ps[..|ps| - 1], f), ps[|ps| - 1];
      if !OfFlow(p, f) || (before.Some? && !Requests(p, before.value)) then before
      else Some(if p.transport.Tcp? then p.transport.seqno else 0)
  }

  /** The packet after `ps` opens a connection. */
  predicate Opens(ps: seq<Packet>, p: Packet) {
    p.Tracked? && var before := OpenedWith(ps, FlowOf(p.key)); before.None? || Requests(p, before.value)
  }

  function Openings(ps: seq<Packet>): nat {
    if ps == [] then 0 else
      var front := ps[..|ps| - 1];
      Openings(front) + if Opens(front, ps[|ps| - 1]) then 1 else 0
  }

  lemma {:induction false} OpenedInTable(ps: seq<Packet>, f: Flow)
    ensures var t := Run(NEW, ps).0;
      OpenedWith(ps, f) == if f in t.flows then Some(t.flows[f].seqno) else None
  {
    if ps != [] {
      var front, p := ps[..|ps| - 1], ps[|ps| - 1];
      OpenedInTable(front, f);
      assert ps == front + [p];
      RunSnoc(NEW, front, p);
    }
  }

  /** Connections are numbered in the order in which they are opened, from 1. */
  lemma {:induction false} NumberedByOpening(ps: seq<Packet>, p: Packet)
    ensures |Run(NEW, ps + [p]).1| == |ps| + 1
    ensures Opens(ps, p) ==> Run(NEW, ps + [p]).1[|ps|] == Openings(ps) + 1
  {
    CountsOpenings(ps);
    RunSnoc(NEW, ps, p);
    RunSound(NEW, ps);
    if p.Tracked? {
      OpenedInTable(ps, FlowOf(p.key));
    }
  }

  lemma {:induction false} CountsOpenings(ps: seq<Packet>)
    ensures Run(NEW, ps).0.counter == Openings(ps)
  {
    if ps != [] {
      var front, p := ps[..|ps| - 1], ps[|ps| - 1];
      CountsOpenings(front);
      assert ps == front + [p];
      RunSnoc(NEW, front, p);
      if p.Tracked? {
        OpenedInTable(front, FlowOf(p.key));
      }
    }
  }

  /** What equal ids in the output mean: over every run, two packets carry the same id exactly if they are of
      one flow and no packet of it after the first, up to and including the second, requests a new connection
      with another sequence number than the one the flow was last opened with. */
  lemma {:induction false} SameIdIff(ps: seq<Packet>, i: nat, j: nat)
    requires i < j < |ps|
    ensures |Run(NEW, ps).1| == |ps|
    ensures var ids := Run(NEW, ps).1;
      ids[i] == ids[j] != CONNECTION_ID_NONE <==>
        && ps[i].Tracked?
        && var f := FlowOf(ps[i].key); var start := OpenedWith(ps[..i + 1], f);
        && OfFlow(ps[j], f) && start.Some?
        && forall k :: i < k <= j && OfFlow(ps[k], f) ==> !Requests(ps[k], start.value)
  {
    SameIdInTable(ps, i, j);
    if ps[i].Tracked? {
      var f := FlowOf(ps[i].key);
      OpenedInTable(ps[..i + 1], f);
      var t := Run(NEW, ps[..i + 1]).0;
      if f in t.flows {
        NoneRequests(ps, i, j, f, t.flows[f]);
      }
    }
  }

  lemma NoneRequests(ps: seq<Packet>, i: nat, j: nat, f: Flow, c: Connection)
    requires i < j < |ps|
    ensures NoneReopens(ps[i + 1..j + 1], f, c) <==>
      forall k :: i < k <= j && OfFlow(ps[k], f) ==> !Requests(ps[k], c.seqno)
  {
    var qs := ps[i + 1..j + 1];
    assert forall k :: i < k <= j ==> ps[k] == qs[k - i - 1];
    if NoneReopens(qs, f, c) {
      forall k | i < k <= j && OfFlow(ps[k], f) ensures !Requests(ps[k], c.seqno) {
        assert !Reopens(qs[k - i - 1].transport, c);
      }
    } else {
      var n :| 0 <= n < |qs| && OfFlow(qs[n], f) && Reopens(qs[n].transport, c);
      assert ps[n + i + 1] == qs[n] && Requests(ps[n + i + 1], c.seqno);
    }
  }

  lemma {:induction false} SameIdInTable(ps: seq<Packet>, i: nat, j: nat)
    requires i < j < |ps|
    ensures |Run(NEW, ps).1| == |ps|
    ensures var ids, t := Run(NEW, ps).1, Run(NEW, ps[..i + 1]).0;
      ids[i] == ids[j] != CONNECTION_ID_NONE <==>
        && ps[i].Tracked? && OfFlow(ps[j], FlowOf(ps[i].key)) && FlowOf(ps[i].key) in t.flows
        && NoneReopens(ps[i + 1..j + 1], FlowOf(ps[i].key), t.flows[FlowOf(ps[i].key)])
  {
    var front, back := ps[..i + 1], ps[i + 1..];
    SplitIds(ps, i, j);
    LastId(ps[..i], ps[i]);
    assert front == ps[..i] + [ps[i]];
    RunSound(NEW, front);
    if ps[i].Tracked? {
      CarriesIdIff(Run(NEW, front).0, back, FlowOf(ps[i].key), j - i - 1);
      assert back[..j - i] == ps[i + 1..j + 1];
    }
  }

  /** The ids of a run in two parts. */
  lemma SplitIds(ps: seq<Packet>, i: nat, j: nat)
    requires i < j < |ps|
    ensures var front, back := ps[..i + 1], ps[i + 1..]; var ids := Run(NEW, ps).1;
      && |ids| == |ps| && |Run(NEW, front).1| == i + 1 && |Run(Run(NEW, front).0, back).1| == |back|
      && ids[i] == Run(NEW, front).1[i] && ids[j] == Run(Run(NEW, front).0, back).1[j - i - 1]
  {
    var front, back := ps[..i + 1], ps[i + 1..];
    assert ps == front + back;
    RunAppend(NEW, front, back);
    RunSound(NEW, front);
    RunSound(Run(NEW, front).0, back);
  }

  /** The last packet of a run carries the id its flow has in the table. */
  lemma {:induction false} LastId(ps: seq<Packet>, p: Packet)
    ensures var (t, ids) := Run(NEW, ps + [p]);
      && |ids| == |ps| + 1
      && if p.Tracked? then FlowOf(p.key) in t.flows && ids[|ps|] == t.flows[FlowOf(p.key)].id != CONNECTION_ID_NONE
         else ids[|ps|] == CONNECTION_ID_NONE
  {
    RunSound(NEW, ps);
    RunSnoc(NEW, ps, p);
  }
}
