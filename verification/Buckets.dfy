/** The table behind connection ids as a value: 256 buckets of append-only lists in which a closed
    connection leaves its two entries behind, marked finished. */
module Buckets {
  import opened Bytes
  import opened Connections

  const BUCKET_COUNT := 256

  /** A list element: the entry searched for (4-tuple and mark, compared as a whole) and the state
      stored with it. States refer to their sibling by position in the bucket. */
  datatype Entry = Entry(key: Key, finished: bool)
  datatype Cell = Cell(entry: Entry, seqno: u32, id: nat, sibling: nat)

  type Bucket = seq<Cell>

  /** ipv4_bucket_select. */
  function Select(k: Key): nat {
    ((k.src ^ k.dst) % 256) as bv8 as nat
  }

  lemma SelectIsUndirected(k: Key)
    ensures Select(k) == Select(k.Reverse()) < BUCKET_COUNT
  {
    assert k.src ^ k.dst == k.dst ^ k.src;
  }

  predicate Live(c: Cell, k: Key) {
    c.entry == Entry(k, false)
  }

  /** Two entries for a new connection, one per direction. */
  function Opened(b: Bucket, k: Key, id: nat, seqno: u32): Bucket {
    b + [Cell(Entry(k, false), seqno, id, |b| + 1), Cell(Entry(k.Reverse(), false), seqno, id, |b|)]
  }

  /** The connection at `i` closed in both directions. */
  function Closed(b: Bucket, i: nat): Bucket
    requires i < |b| && b[i].sibling < |b|
  {
    var j := b[i].sibling;
    var c := b[i := b[i].(entry := b[i].entry.(finished := true))];
    c[j := c[j].(entry := c[j].entry.(finished := true))]
  }

  /** Entries come in pairs, opposite in direction and alike in everything else. */
  ghost predicate Paired(b: Bucket) {
    forall i :: 0 <= i < |b| ==>
      var j := b[i].sibling;
      j < |b| && j != i && b[j] == Cell(Entry(b[i].entry.key.Reverse(), b[i].entry.finished), b[i].seqno, b[i].id, i)
  }

  /** At most one connection is live for a key: two live entries for it are each other's sibling,
      which happens when both ends of the connection are the same. */
  ghost predicate Unique(b: Bucket) {
    forall i, j :: 0 <= i < |b| && 0 <= j < |b| && !b[i].entry.finished && b[i].entry == b[j].entry ==>
      j == i || j == b[i].sibling
  }

  /** Bucket `n` holds a live entry for a key exactly if the flow is known and belongs to `n`, and
      every live entry carries the flow's current id and sequence number. */
  ghost predicate Holds(b: Bucket, n: nat, flows: map<Flow, Connection>) {
    && (forall i :: 0 <= i < |b| && !b[i].entry.finished ==>
          var k := b[i].entry.key;
          Select(k) == n && FlowOf(k) in flows && flows[FlowOf(k)] == Connection(b[i].id, b[i].seqno))
    && (forall k: Key :: Select(k) == n && FlowOf(k) in flows ==> exists i :: 0 <= i < |b| && Live(b[i], k))
  }

  ghost predicate Refines(bs: seq<Bucket>, counter: nat, t: Tracker) {
    match t
    case Tracker(flows, ids) =>
      && |bs| == BUCKET_COUNT && counter == ids
      && (forall n :: 0 <= n < |bs| ==> Paired(bs[n]) && Unique(bs[n]) && Holds(bs[n], n, flows))
  }

  lemma PairedOpened(b: Bucket, k: Key, id: nat, seqno: u32)
    requires Paired(b)
    ensures Paired(Opened(b, k, id, seqno))
  {
  }

  lemma PairedClosed(b: Bucket, i: nat)
    requires Paired(b) && i < |b|
    ensures Paired(Closed(b, i))
  {
  }

  /** A bucket in which no entry for the flow is live takes a connection for it. */
  lemma UniqueOpened(b: Bucket, k: Key, id: nat, seqno: u32)
    requires Unique(b)
    requires forall i :: 0 <= i < |b| ==> !Live(b[i], k) && !Live(b[i], k.Reverse())
    ensures Unique(Opened(b, k, id, seqno))
  {
  }

  lemma HoldsOpened(b: Bucket, n: nat, flows: map<Flow, Connection>, k: Key, id: nat, seqno: u32)
    requires Holds(b, n, flows - {FlowOf(k)}) && Select(k) == n
    ensures Holds(Opened(b, k, id, seqno), n, flows[FlowOf(k) := Connection(id, seqno)])
  {
    SelectIsUndirected(k);
    var c := Opened(b, k, id, seqno);
    var after := flows[FlowOf(k) := Connection(id, seqno)];
    assert FlowOf(k.Reverse()) == FlowOf(k);
    forall q: Key | Select(q) == n && FlowOf(q) in after ensures exists i :: 0 <= i < |c| && Live(c[i], q) {
      FlowIsUndirected(k, q);
      if q == k {
        assert Live(c[|b|], q);
      } else if q == k.Reverse() {
        assert Live(c[|b| + 1], q);
      } else {
        var i :| 0 <= i < |b| && Live(b[i], q);
        assert Live(c[i], q);
      }
    }
  }

  /** Closing a flow's connection leaves no live entry for it and touches no other flow. */
  lemma ClosedLeavesNone(b: Bucket, k: Key, i: nat)
    requires Paired(b) && Unique(b) && i < |b| && Live(b[i], k)
    ensures Unique(Closed(b, i))
    ensures forall j :: 0 <= j < |b| ==> !Live(Closed(b, i)[j], k) && !Live(Closed(b, i)[j], k.Reverse())
  {
    var c := Closed(b, i);
    forall j | 0 <= j < |b| ensures !Live(c[j], k) && !Live(c[j], k.Reverse()) {
      var s := b[j].sibling;
      assert b[s].entry == Entry(b[j].entry.key.Reverse(), b[j].entry.finished) && b[s].sibling == j;
    }
  }

  lemma HoldsWithout(b: Bucket, c: Bucket, n: nat, flows: map<Flow, Connection>, f: Flow)
    requires Holds(b, n, flows) && |c| == |b|
    requires forall j :: 0 <= j < |b| && !c[j].entry.finished ==> c[j] == b[j] && FlowOf(b[j].entry.key) != f
    requires forall j :: 0 <= j < |b| && !b[j].entry.finished && FlowOf(b[j].entry.key) != f ==> c[j] == b[j]
    ensures Holds(c, n, flows - {f})
  {
    forall q: Key | Select(q) == n && FlowOf(q) in flows - {f} ensures exists j :: 0 <= j < |c| && Live(c[j], q) {
      var j :| 0 <= j < |b| && Live(b[j], q);
      assert Live(c[j], q);
    }
  }

  lemma HoldsClosed(b: Bucket, n: nat, flows: map<Flow, Connection>, k: Key, i: nat)
    requires Paired(b) && Unique(b) && Holds(b, n, flows) && i < |b| && Live(b[i], k)
    ensures Holds(Closed(b, i), n, flows - {FlowOf(k)})
  {
    var c := Closed(b, i);
    ClosedLeavesNone(b, k, i);
    forall j | 0 <= j < |b| && !c[j].entry.finished ensures c[j] == b[j] && FlowOf(b[j].entry.key) != FlowOf(k) {
      assert !Live(c[j], k) && !Live(c[j], k.Reverse());
      FlowIsUndirected(b[j].entry.key, k);
    }
    assert FlowOf(k.Reverse()) == FlowOf(k);
    HoldsWithout(b, c, n, flows, FlowOf(k));
  }

  /** A flow of which no entry is live can be left out of the map. */
  lemma HoldsUnknown(b: Bucket, n: nat, flows: map<Flow, Connection>, k: Key)
    requires Paired(b) && Holds(b, n, flows) && Select(k) == n
    requires forall i :: 0 <= i < |b| ==> !Live(b[i], k)
    ensures FlowOf(k) !in flows
    ensures forall i :: 0 <= i < |b| ==> !Live(b[i], k.Reverse())
  {
    forall i | 0 <= i < |b| ensures !Live(b[i], k.Reverse()) {
      var j := b[i].sibling;
      assert b[j].entry == Entry(b[i].entry.key.Reverse(), b[i].entry.finished);
    }
  }

  /** The new entries are appended before the old ones are marked; the order does not matter. */
  lemma CloseThenOpen(b: Bucket, i: nat, k: Key, id: nat, seqno: u32)
    requires Paired(b) && i < |b|
    ensures Closed(Opened(b, k, id, seqno), i) == Opened(Closed(b, i), k, id, seqno)
  {
  }

  /** Changing one flow leaves the other buckets as they were. */
  lemma HoldsElsewhere(b: Bucket, n: nat, flows: map<Flow, Connection>, k: Key, c: Connection)
    requires Holds(b, n, flows) && Select(k) != n
    ensures Holds(b, n, flows[FlowOf(k) := c])
  {
    SelectIsUndirected(k);
    forall q: Key | Select(q) == n ensures FlowOf(q) != FlowOf(k) {
      FlowIsUndirected(q, k);
    }
  }

  /** A packet of an unknown flow. */
  lemma RefinesFirst(bs: seq<Bucket>, counter: nat, t: Tracker, k: Key, p: Transport)
    requires Refines(bs, counter, t) && Select(k) < |bs|
    requires forall i :: 0 <= i < |bs[Select(k)]| ==> !Live(bs[Select(k)][i], k)
    ensures var n := Select(k);
      && Track(t, Tracked(k, p)).1 == counter + 1
      && Refines(bs[n := Opened(bs[n], k, counter + 1, FirstSeq(p))], counter + 1, Track(t, Tracked(k, p)).0)
  {
    var n := Select(k);
    HoldsUnknown(bs[n], n, t.flows, k);
    assert t.flows - {FlowOf(k)} == t.flows;
    Reopened(bs, counter, t, bs[n], k, FirstSeq(p));
  }

  /** A new connection request for the flow of the entry at `i`. */
  lemma RefinesReopen(bs: seq<Bucket>, counter: nat, t: Tracker, k: Key, p: Transport, i: nat)
    requires Refines(bs, counter, t) && Select(k) < |bs| && i < |bs[Select(k)]| && Live(bs[Select(k)][i], k)
    requires p.Tcp? && p.syn && !p.ack && bs[Select(k)][i].seqno != p.seqno
    ensures var n := Select(k);
      && Track(t, Tracked(k, p)).1 == counter + 1
      && Refines(bs[n := Opened(Closed(bs[n], i), k, counter + 1, p.seqno)], counter + 1, Track(t, Tracked(k, p)).0)
  {
    var n := Select(k);
    ClosedLeavesNone(bs[n], k, i);
    HoldsClosed(bs[n], n, t.flows, k, i);
    PairedClosed(bs[n], i);
    Reopened(bs, counter, t, Closed(bs[n], i), k, p.seqno);
    TrackReopens(bs, counter, t, k, p, i);
  }

  lemma TrackReopens(bs: seq<Bucket>, counter: nat, t: Tracker, k: Key, p: Transport, i: nat)
    requires Refines(bs, counter, t) && Select(k) < |bs| && i < |bs[Select(k)]| && Live(bs[Select(k)][i], k)
    requires p.Tcp? && p.syn && !p.ack && bs[Select(k)][i].seqno != p.seqno
    ensures var flows := t.flows[FlowOf(k) := Connection(counter + 1, p.seqno)];
      Track(t, Tracked(k, p)) == (Tracker(flows, counter + 1), counter + 1)
  {
    assert Holds(bs[Select(k)], Select(k), t.flows);
  }

  /** Opening a connection in its bucket `b`, from which any earlier one has been cleared. */
  lemma Reopened(bs: seq<Bucket>, counter: nat, t: Tracker, b: Bucket, k: Key, seqno: u32)
    requires Refines(bs, counter, t) && Select(k) < |bs|
    requires Paired(b) && Unique(b) && Holds(b, Select(k), t.flows - {FlowOf(k)})
    requires forall i :: 0 <= i < |b| ==> !Live(b[i], k) && !Live(b[i], k.Reverse())
    ensures Refines(bs[Select(k) := Opened(b, k, counter + 1, seqno)], counter + 1,
                    Tracker(t.flows[FlowOf(k) := Connection(counter + 1, seqno)], counter + 1))
  {
    var n, c := Select(k), Connection(counter + 1, seqno);
    PairedOpened(b, k, counter + 1, seqno);
    UniqueOpened(b, k, counter + 1, seqno);
    HoldsOpened(b, n, t.flows, k, counter + 1, seqno);
    forall m | 0 <= m < |bs| && m != n ensures Holds(bs[m], m, t.flows[FlowOf(k) := c]) {
      HoldsElsewhere(bs[m], m, t.flows, k, c);
    }
  }

  /** Any other packet of a known flow. */
  lemma RefinesKnown(bs: seq<Bucket>, counter: nat, t: Tracker, k: Key, p: Transport, i: nat)
    requires Refines(bs, counter, t) && Select(k) < |bs| && i < |bs[Select(k)]| && Live(bs[Select(k)][i], k)
    requires !(p.Tcp? && p.syn && !p.ack && bs[Select(k)][i].seqno != p.seqno)
    ensures Track(t, Tracked(k, p)) == (t, bs[Select(k)][i].id)
  {
    assert Holds(bs[Select(k)], Select(k), t.flows);
  }

  /** One packet, given what the search of its bucket found: an entry that answers for the packet,
      or the bucket that must replace the present one. */
  predicate Answers(c: Cell, p: Transport) {
    !(p.Tcp? && p.syn && !p.ack && c.seqno != p.seqno)
  }

  function Entered(b: Bucket, found: bool, i: nat, k: Key, id: nat, seqno: u32): Bucket
    requires found ==> i < |b| && b[i].sibling < |b|
  {
    Opened(if found then Closed(b, i) else b, k, id, seqno)
  }

  lemma TrackStep(bs: seq<Bucket>, counter: nat, t: Tracker, k: Key, p: Transport, found: bool, i: nat)
    requires Refines(bs, counter, t)
    requires Select(k) < |bs|
    requires found ==> i < |bs[Select(k)]| && Live(bs[Select(k)][i], k)
    requires !found ==> forall j :: 0 <= j < |bs[Select(k)]| ==> !Live(bs[Select(k)][j], k)
    ensures var n, r := Select(k), Track(t, Tracked(k, p));
      && Paired(bs[n])
      && (found && Answers(bs[n][i], p) ==> r == (t, bs[n][i].id))
      && (!(found && Answers(bs[n][i], p)) ==>
            && r.1 == counter + 1
            && Refines(bs[n := Entered(bs[n], found, i, k, counter + 1, FirstSeq(p))], counter + 1, r.0))
  {
    if !found {
      RefinesFirst(bs, counter, t, k, p);
    } else if Answers(bs[Select(k)][i], p) {
      RefinesKnown(bs, counter, t, k, p, i);
    } else {
      RefinesReopen(bs, counter, t, k, p, i);
    }
  }

  /** Live entries with the same key carry the same id and sequence number. */
  lemma LiveEntriesAgree(bs: seq<Bucket>, counter: nat, t: Tracker, n: nat, m: nat, i: nat, j: nat)
    requires Refines(bs, counter, t) && n < |bs| && m < |bs| && i < |bs[n]| && j < |bs[m]|
    requires !bs[n][i].entry.finished && !bs[m][j].entry.finished
    requires FlowOf(bs[n][i].entry.key) == FlowOf(bs[m][j].entry.key)
    ensures n == m && bs[n][i].id == bs[m][j].id && bs[n][i].seqno == bs[m][j].seqno
  {
    FlowIsUndirected(bs[n][i].entry.key, bs[m][j].entry.key);
    SelectIsUndirected(bs[n][i].entry.key);
    assert Holds(bs[n], n, t.flows) && Holds(bs[m], m, t.flows);
  }
}
