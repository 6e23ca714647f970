/** The inter-arrival test as a latch: once a packet comes too long after the one before it, the
    filter is to match nothing more (caputils/filter.h:151). */
module FilterLatch {
  import opened PicoTime
  import opened FrameRanges
  import opened FilterBits
  import opened Filter

  /** The packet comes too long after the last accepted one. */
  predicate Late(c: Config, last: TimePico, ts: TimePico) {
    !InTime(c, last, ts)
  }

  predicate Latching(c: Config) {
    c.mode.And? && Enabled(c, FrameMaxDt)
  }

  lemma EnabledMeansIndexed(c: Config, t: Test)
    requires Enabled(c, t)
    ensures c.index != 0
  {
    ZeroHasNone(t);
  }

  /** On normalised times a packet is late exactly when more than the limit has gone by. */
  lemma LateMeans(c: Config, last: TimePico, ts: TimePico)
    requires last.Normal() && ts.Normal() && c.frameMaxDt.Normal()
    ensures Late(c, last, ts) <==> ts.Value() > last.Value() + c.frameMaxDt.Value()
  {
    TimeCmpOrders(ts, last, last);
    SubExact(ts, last);
    TimeCmpOrders(Sub(ts, last), c.frameMaxDt, last);
  }

  /** Once too late, always too late: later timestamps have larger distances. */
  lemma LateStays(c: Config, last: TimePico, ts: TimePico, later: TimePico)
    requires last.Normal() && ts.Normal() && later.Normal()
    requires Late(c, last, ts) && TimeCmp(ts, later) <= 0
    ensures Late(c, last, later)
  {
    SubExact(ts, last);
    TimeCmpOrders(last, ts, later);
    SubExact(later, last);
    TimeCmpOrders(ts, later, later);
    TimeCmpOrders(Sub(ts, last), Sub(later, last), c.frameMaxDt);
    TimeCmpOrders(c.frameMaxDt, Sub(ts, last), Sub(later, last));
    TimeCmpOrders(Sub(later, last), c.frameMaxDt, Sub(ts, last));
  }

  /** A packet that is too late is rejected and leaves the reference time as it was. */
  lemma LateRejects(c: Config, s: State, a: Arrival)
    requires Latching(c) && !s.first && Late(c, s.lastTs, a.packet.ts)
    ensures Usable(c) && !Verdict(c, s, a)
    ensures !Next(c, s, a).first && Next(c, s, a).lastTs == s.lastTs
  {
    EnabledMeansIndexed(c, FrameMaxDt);
    AndMeaning(c, s, a.packet);
    assert Enabled(c, FrameMaxDt) && !Holds(c, s, a.packet, FrameMaxDt);
  }

  /** Normalised timestamps that never go back, from `from` on. */
  ghost predicate Ordered(from: TimePico, run: seq<Arrival>) {
    && (forall i :: 0 <= i < |run| ==> run[i].packet.ts.Normal() && TimeCmp(from, run[i].packet.ts) <= 0)
    && (forall i, j :: 0 <= i < j < |run| ==> TimeCmp(run[i].packet.ts, run[j].packet.ts) <= 0)
  }

  lemma {:induction false} Latched(c: Config, s: State, from: TimePico, run: seq<Arrival>)
    requires Latching(c) && Usable(c) && !s.first && s.lastTs.Normal() && from.Normal()
    requires Late(c, s.lastTs, from) && Ordered(from, run)
    ensures forall i :: 0 <= i < |run| ==> !Verdicts(c, s, run)[i]
    decreases run
  {
    if run != [] {
      LateStays(c, s.lastTs, from, run[0].packet.ts);
      LateRejects(c, s, run[0]);
      Latched(c, Next(c, s, run[0]), from, run[1..]);
    }
  }

  lemma {:induction false} VerdictsSplit(c: Config, s: State, front: seq<Arrival>, back: seq<Arrival>)
    requires Usable(c)
    ensures Verdicts(c, s, front + back) == Verdicts(c, s, front) + Verdicts(c, After(c, s, front), back)
    decreases front
  {
    if front == [] {
      assert [] + back == back;
    } else {
      assert (front + back)[1..] == front[1..] + back;
      VerdictsSplit(c, Next(c, s, front[0]), front[1..], back);
    }
  }

  lemma {:induction false} ReferenceNormal(c: Config, s: State, run: seq<Arrival>)
    requires Usable(c) && s.lastTs.Normal()
    requires forall i :: 0 <= i < |run| ==> run[i].packet.ts.Normal()
    ensures After(c, s, run).lastTs.Normal()
    ensures run != [] ==> !After(c, s, run).first
    decreases run
  {
    if run != [] {
      ReferenceNormal(c, Next(c, s, run[0]), run[1..]);
    }
  }

  /** Over every run of an AND filter with the inter-arrival test and timestamps in order: if some
      packet fails that test, it and every later packet are rejected. */
  lemma {:induction false} Latch(c: Config, rs: seq<Range>, run: seq<Arrival>, i: nat)
    requires Latching(c) && Usable(c) && Ordered(TimePico(0, 0), run) && i < |run|
    requires !Holds(c, Seen(After(c, Fresh(rs), run[..i]), run[i].packet), run[i].packet, FrameMaxDt)
    ensures forall j :: i <= j < |run| ==> !Verdicts(c, Fresh(rs), run)[j]
  {
    var front, back, s := run[..i], run[i..], After(c, Fresh(rs), run[..i]);
    ReferenceNormal(c, Fresh(rs), front);
    if s.first {
      SubExact(run[i].packet.ts, run[i].packet.ts);
      TimeCmpOrders(run[i].packet.ts, run[i].packet.ts, run[i].packet.ts);
      SubSelf(c, run[i].packet.ts);
    }
    Latched(c, s, run[i].packet.ts, back);
    assert run == front + back;
    VerdictsSplit(c, Fresh(rs), front, back);
  }

  /** The first packet is its own reference and never late. */
  lemma SubSelf(c: Config, ts: TimePico)
    requires ts.Normal()
    ensures InTime(c, ts, ts)
  {
    SubExact(ts, ts);
    TimeCmpOrders(ts, ts, ts);
    assert Sub(ts, ts).Value() == 0;
  }

  // -- The reference time --

  /** Packet `k` is the last one accepted. */
  predicate IsLast(vs: seq<bool>, k: nat) {
    k < |vs| && vs[k] && AllRejected(vs[k + 1..])
  }

  /** The time is that of the last packet accepted, or `before` if there is none. */
  ghost predicate Refers(run: seq<Arrival>, vs: seq<bool>, before: TimePico, last: TimePico)
    requires |vs| == |run|
  {
    && (AllRejected(vs) ==> last == before)
    && (forall k: nat :: IsLast(vs, k) ==> last == run[k].packet.ts)
  }

  lemma RefersCons(a: Arrival, v: bool, run: seq<Arrival>, vs: seq<bool>, before: TimePico, last: TimePico)
    requires |vs| == |run| && Refers(run, vs, if v then a.packet.ts else before, last)
    ensures Refers([a] + run, [v] + vs, before, last)
  {
    RejectedCons(v, vs);
    forall k: nat | IsLast([v] + vs, k) ensures last == ([a] + run)[k].packet.ts {
      assert ([v] + vs)[k + 1..] == vs[k..];
      if k > 0 {
        assert IsLast(vs, k - 1);
      }
    }
  }

  lemma {:induction false} ReferenceFrom(c: Config, s: State, run: seq<Arrival>)
    requires Usable(c) && !s.first
    ensures Refers(run, Verdicts(c, s, run), s.lastTs, After(c, s, run).lastTs)
    decreases run
  {
    if run != [] {
      var n, rest := Next(c, s, run[0]), run[1..];
      ReferenceFrom(c, n, rest);
      RefersCons(run[0], Verdict(c, s, run[0]), rest, Verdicts(c, n, rest), s.lastTs, After(c, n, rest).lastTs);
      assert run == [run[0]] + rest;
    }
  }

  /** After every run the reference time is that of the last packet accepted, or, if none was, of the first. */
  lemma {:induction false} ReferenceTime(c: Config, rs: seq<Range>, run: seq<Arrival>)
    requires Usable(c) && run != []
    ensures Refers(run, Verdicts(c, Fresh(rs), run), run[0].packet.ts, After(c, Fresh(rs), run).lastTs)
  {
    var s := Seen(Fresh(rs), run[0].packet);
    assert Next(c, Fresh(rs), run[0]) == Next(c, s, run[0]) && Verdict(c, Fresh(rs), run[0]) == Verdict(c, s, run[0]);
    ReferenceFrom(c, s, run);
  }

  /** The filter has the inter-arrival test and no other. */
  predicate OnlyInterArrival(c: Config) {
    c.mode.And? && c.index == 0x4000
  }

  lemma InterArrivalVerdict(c: Config, s: State, a: Arrival)
    requires OnlyInterArrival(c) && s.ranges == []
    ensures Verdict(c, s, a) <==> a.bpf && InTime(c, Seen(s, a.packet).lastTs, a.packet.ts)
  {
    MaskValues();
    OnlyTest(c, Seen(s, a.packet), a.packet, FrameMaxDt);
  }

  /** The packet comes no more than the limit after `last`. */
  predicate Soon(c: Config, last: TimePico, ts: TimePico) {
    ts.Value() - last.Value() <= c.frameMaxDt.Value()
  }

  ghost predicate AllNormal(run: seq<Arrival>) {
    forall i :: 0 <= i < |run| ==> run[i].packet.ts.Normal()
  }

  /** A filter with the inter-arrival test alone, over every run of normalised timestamps: the first packet is in
      time, and a later one is if and only if it comes no more than the limit after the last packet accepted, or
      after the first if none was. */
  lemma {:induction false} InterArrival(c: Config, run: seq<Arrival>, i: nat, last: TimePico)
    requires OnlyInterArrival(c) && c.frameMaxDt.Normal() && AllNormal(run) && i < |run|
    requires i > 0 ==> Refers(run[..i], Verdicts(c, Fresh([]), run)[..i], run[0].packet.ts, last)
    ensures i == 0 ==> Verdicts(c, Fresh([]), run)[0] == run[0].bpf
    ensures i > 0 ==> (Verdicts(c, Fresh([]), run)[i] <==> run[i].bpf && Soon(c, last, run[i].packet.ts))
  {
    var s, ts := After(c, Fresh([]), run[..i]), run[i].packet.ts;
    VerdictAt(c, Fresh([]), run, i);
    NoRangesStay(c, Fresh([]), run[..i]);
    InterArrivalVerdict(c, s, run[i]);
    if i == 0 {
      SubSelf(c, ts);
    } else {
      ReferenceNormal(c, Fresh([]), run[..i]);
      ReferenceTime(c, [], run[..i]);
      RefersOnce(run[..i], Verdicts(c, Fresh([]), run[..i]), run[0].packet.ts, s.lastTs, last);
      LateMeans(c, last, ts);
    }
  }

  lemma {:induction false} VerdictAt(c: Config, s: State, run: seq<Arrival>, i: nat)
    requires Usable(c) && i < |run|
    ensures Verdicts(c, s, run)[..i] == Verdicts(c, s, run[..i])
    ensures Verdicts(c, s, run)[i] == Verdict(c, After(c, s, run[..i]), run[i])
  {
    assert run == run[..i] + run[i..];
    VerdictsSplit(c, s, run[..i], run[i..]);
  }

  /** There is only one such time. */
  lemma {:induction false} RefersOnce(run: seq<Arrival>, vs: seq<bool>, before: TimePico, a: TimePico, b: TimePico)
    requires |vs| == |run| && Refers(run, vs, before, a) && Refers(run, vs, before, b)
    ensures a == b
  {
    if !AllRejected(vs) {
      var k := LastOf(vs);
      assert IsLast(vs, k);
    }
  }

  lemma {:induction false} LastOf(vs: seq<bool>) returns (k: nat)
    requires !AllRejected(vs)
    ensures IsLast(vs, k)
    decreases |vs|
  {
    var n := |vs| - 1;
    if vs[n] {
      k := n;
    } else {
      k := LastOf(vs[..n]);
      assert vs[k + 1..] == vs[..n][k + 1..] + [false];
    }
  }

  /** No packet up to `i` comes more than the limit after the one before it. */
  ghost predicate NoGap(c: Config, run: seq<Arrival>, i: nat)
    requires i < |run|
  {
    forall j :: 0 < j <= i ==> Soon(c, run[j - 1].packet.ts, run[j].packet.ts)
  }

  /** With timestamps in order and nothing else to judge by, the packets accepted are those before the first gap. */
  lemma {:induction false} AcceptedUntilGap(c: Config, run: seq<Arrival>, i: nat)
    requires OnlyInterArrival(c) && c.frameMaxDt.Normal() && Ordered(TimePico(0, 0), run) && i < |run|
    requires forall j :: 0 <= j < |run| ==> run[j].bpf
    ensures Verdicts(c, Fresh([]), run)[i] <==> NoGap(c, run, i)
    decreases i
  {
    if i == 0 {
      InterArrival(c, run, 0, TimePico(0, 0));
    } else {
      AcceptedUntilGap(c, run, i - 1);
      NextAccepted(c, run, i);
      NoGapSnoc(c, run, i);
    }
  }

  lemma NoGapSnoc(c: Config, run: seq<Arrival>, i: nat)
    requires 0 < i < |run|
    ensures NoGap(c, run, i) <==> NoGap(c, run, i - 1) && Soon(c, run[i - 1].packet.ts, run[i].packet.ts)
  {
  }

  lemma {:induction false} NextAccepted(c: Config, run: seq<Arrival>, i: nat)
    requires OnlyInterArrival(c) && c.frameMaxDt.Normal() && Ordered(TimePico(0, 0), run) && 0 < i < |run|
    requires run[i - 1].bpf && run[i].bpf
    ensures var vs := Verdicts(c, Fresh([]), run);
      vs[i] <==> vs[i - 1] && Soon(c, run[i - 1].packet.ts, run[i].packet.ts)
  {
    var vs := Verdicts(c, Fresh([]), run);
    if vs[i - 1] {
      var s := After(c, Fresh([]), run[..i]);
      VerdictAt(c, Fresh([]), run, i);
      ReferenceTime(c, [], run[..i]);
      assert IsLast(vs[..i], i - 1);
      InterArrival(c, run, i, s.lastTs);
    } else {
      StillLate(c, run, i);
    }
  }

  lemma {:induction false} StillLate(c: Config, run: seq<Arrival>, i: nat)
    requires OnlyInterArrival(c) && Ordered(TimePico(0, 0), run) && 0 < i < |run|
    requires c.frameMaxDt.Normal() && run[i - 1].bpf && !Verdicts(c, Fresh([]), run)[i - 1]
    ensures !Verdicts(c, Fresh([]), run)[i]
  {
    var s, t := After(c, Fresh([]), run[..i - 1]), run[i - 1].packet.ts;
    VerdictAt(c, Fresh([]), run, i - 1);
    NoRangesStay(c, Fresh([]), run[..i - 1]);
    NotInTime(c, s, run[i - 1]);
    Latch(c, [], run, i - 1);
  }

  lemma NotInTime(c: Config, s: State, a: Arrival)
    requires OnlyInterArrival(c) && s.ranges == [] && a.bpf && !Verdict(c, s, a)
    ensures Latching(c) && !Holds(c, Seen(s, a.packet), a.packet, FrameMaxDt)
  {
    InterArrivalVerdict(c, s, a);
    MaskValues();
    OneEnabled(c, FrameMaxDt);
  }

  /** The inter-arrival test fails at every packet of the run. */
  ghost predicate FailsThroughout(c: Config, s: State, run: seq<Arrival>)
    requires Usable(c)
  {
    forall i :: 0 <= i < |run| ==>
      !Holds(c, Seen(After(c, s, run[..i]), run[i].packet), run[i].packet, FrameMaxDt)
  }

  lemma FailsCons(c: Config, s: State, run: seq<Arrival>)
    requires Usable(c) && run != []
    ensures FailsThroughout(c, s, run) <==>
      !Holds(c, Seen(s, run[0].packet), run[0].packet, FrameMaxDt) && FailsThroughout(c, Next(c, s, run[0]), run[1..])
  {
    var t, rest := Next(c, s, run[0]), run[1..];
    assert run[..0] == [];
    forall i | 0 <= i < |rest| ensures After(c, s, run[..i + 1]) == After(c, t, rest[..i]) && rest[i] == run[i + 1] {
      assert run[..i + 1][1..] == rest[..i];
    }
    if FailsThroughout(c, s, run) {
      forall i | 0 <= i < |rest| ensures !Holds(c, Seen(After(c, t, rest[..i]), rest[i].packet), rest[i].packet,
        FrameMaxDt) {
        assert run[i + 1] == rest[i];
      }
    }
  }

  /** Whatever the timestamps, the other tests and the verdicts of the BPF program: the test fails at every
      packet of a run if and only if every packet is late by the reference time the run starts with, and
      then all are rejected. A single earlier timestamp opens the latch again. */
  lemma {:induction false} LatchIff(c: Config, s: State, run: seq<Arrival>)
    requires Latching(c) && Usable(c) && !s.first
    ensures FailsThroughout(c, s, run) <==> AllLate(c, s.lastTs, run)
    ensures AllLate(c, s.lastTs, run) ==> AllRejected(Verdicts(c, s, run))
    decreases run
  {
    if run != [] {
      FailsCons(c, s, run);
      RejectedCons(Verdict(c, s, run[0]), Verdicts(c, Next(c, s, run[0]), run[1..]));
      LateCons(c, s.lastTs, run);
      if Late(c, s.lastTs, run[0].packet.ts) {
        LateRejects(c, s, run[0]);
        LatchIff(c, Next(c, s, run[0]), run[1..]);
      }
    }
  }

  predicate AllRejected(vs: seq<bool>) {
    forall i :: 0 <= i < |vs| ==> !vs[i]
  }

  predicate AllLate(c: Config, last: TimePico, run: seq<Arrival>) {
    forall i :: 0 <= i < |run| ==> Late(c, last, run[i].packet.ts)
  }

  lemma RejectedCons(v: bool, vs: seq<bool>)
    ensures AllRejected([v] + vs) <==> !v && AllRejected(vs)
  {
    assert forall i :: 0 <= i < |vs| ==> ([v] + vs)[i + 1] == vs[i];
    assert ([v] + vs)[0] == v;
  }

  lemma LateCons(c: Config, last: TimePico, run: seq<Arrival>)
    requires run != []
    ensures AllLate(c, last, run) <==> Late(c, last, run[0].packet.ts) && AllLate(c, last, run[1..])
  {
    assert forall i :: 0 <= i < |run[1..]| ==> run[1..][i] == run[i + 1];
  }
}
