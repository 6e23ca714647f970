/** The packet filter of src/filter.c: sixteen tests selected by a bit mask, combined with AND or
    OR, and the state that frame numbers and inter-arrival times are judged by. */
module Filter {
  import opened Optional
  import opened Bytes
  import opened PicoTime
  import opened FrameRanges
  import opened FilterBits

  datatype Mode = Unknown | And | Or

  type EtherAddr = a: seq<byte> | |a| == 6 witness [0, 0, 0, 0, 0, 0]

  datatype IpHeader = IpHeader(proto: byte, src: u32, dst: u32)

  /** What the tests look at: the capture header and the located protocol headers. `tci` and
      `inner` are the fields after an 802.1Q tag; ports are 0 without a transport header. */
  datatype Packet = Packet(
    nic: string, mampid: string, ts: TimePico,
    ethSrc: EtherAddr, ethDst: EtherAddr, ethProto: u16, tci: u16, inner: u16,
    ip: Option<IpHeader>, sport: u16, dport: u16)

  datatype Config = Config(
    index: u32, mode: Mode,
    starttime: TimePico, endtime: TimePico, mampid: string, iface: string,
    vlanTci: u16, vlanTciMask: u16, ethType: u16, ethTypeMask: u16,
    ethSrc: EtherAddr, ethSrcMask: EtherAddr, ethDst: EtherAddr, ethDstMask: EtherAddr,
    ipProto: byte, ipSrc: u32, ipSrcMask: u32, ipDst: u32, ipDstMask: u32,
    srcPort: u16, srcPortMask: u16, dstPort: u16, dstPortMask: u16, port: u16, portMask: u16,
    frameMaxDt: TimePico)

  /** The part of the filter that matching changes. */
  datatype State = State(first: bool, counter: int, lastTs: TimePico, ranges: seq<Range>)

  const ETHERTYPE_VLAN := 0x8100

  predicate Tagged(p: Packet) { p.ethProto == ETHERTYPE_VLAN }

  function Proto(p: Packet): u16 { if Tagged(p) then p.inner else p.ethProto }

  predicate MatchEth(desired: EtherAddr, mask: EtherAddr, net: EtherAddr) {
    forall i | 0 <= i < 6 :: BitAnd(net[i], mask[i]) == desired[i]
  }

  /** strstr(hay, needle) != NULL. */
  predicate Occurs(needle: string, hay: string) {
    exists i | 0 <= i <= |hay| :: OccursAt(needle, hay, i)
  }

  predicate OccursAt(needle: string, hay: string, i: nat)
    requires i <= |hay|
  {
    needle <= hay[i..]
  }

  /** strncmp(a, b, n) == 0 on terminated strings. */
  predicate SameUpTo(a: string, b: string, n: nat) {
    a[..Min(|a|, n)] == b[..Min(|b|, n)]
  }

  predicate InTime(c: Config, last: TimePico, ts: TimePico) {
    TimeCmp(ts, last) < 0 || TimeCmp(Sub(ts, last), c.frameMaxDt) <= 0
  }

  /** The condition each test looks for, whether or not the test is enabled. */
  predicate Holds(c: Config, s: State, p: Packet, t: Test) {
    match t
    case DstPort => c.dstPort == BitAnd(p.dport, c.dstPortMask)
    case SrcPort => c.srcPort == BitAnd(p.sport, c.srcPortMask)
    case IpDst => p.ip.Some? && BitAnd(p.ip.value.dst, c.ipDstMask) == c.ipDst
    case IpSrc => p.ip.Some? && BitAnd(p.ip.value.src, c.ipSrcMask) == c.ipSrc
    case IpProto => p.ip.Some? && c.ipProto == p.ip.value.proto
    case EthDst => MatchEth(c.ethDst, c.ethDstMask, p.ethDst)
    case EthSrc => MatchEth(c.ethSrc, c.ethSrcMask, p.ethSrc)
    case EthType => BitAnd(Proto(p), c.ethTypeMask) == c.ethType
    case Vlan => Tagged(p) && BitAnd(p.tci, c.vlanTciMask) == c.vlanTci
    case Iface => Occurs(c.iface, p.nic)
    case MampId => SameUpTo(c.mampid, p.mampid, 8)
    case EndTime => TimeCmp(c.endtime, p.ts) > 0
    case StartTime => TimeCmp(c.starttime, p.ts) <= 0
    case Port => c.port == BitAnd(p.sport, c.portMask) || c.port == BitAnd(p.dport, c.portMask)
    case FrameMaxDt => InTime(c, s.lastTs, p.ts)
    case FrameNum => TestHead(s.ranges, s.counter)
  }

  predicate Enabled(c: Config, t: Test) {
    Has(c.index, t)
  }

  /** What the filter_* functions return. All but filter_frame_num look at their own bit. */
  predicate Passed(c: Config, s: State, p: Packet, t: Test) {
    (t.FrameNum? || Enabled(c, t)) && Holds(c, s, p, t)
  }

  function RunTests(c: Config, s: State, p: Packet): Outcomes {
    (t: Test) => Passed(c, s, p, t)
  }

  /** filter_core, which aborts in any other mode. */
  predicate Core(c: Config, s: State, p: Packet)
    requires c.mode != Unknown
  {
    var m := Word(RunTests(c, s, p));
    if c.mode.And? then m == c.index else m > 0
  }

  ghost predicate AllHold(c: Config, s: State, p: Packet) {
    forall t: Test :: Enabled(c, t) ==> Holds(c, s, p, t)
  }

  ghost predicate SomeHolds(c: Config, s: State, p: Packet) {
    exists t: Test :: Enabled(c, t) && Holds(c, s, p, t)
  }

  /** Frame ranges are given only together with their test, as the option parser sees to. */
  predicate RangesDeclared(c: Config, s: State) {
    s.ranges != [] ==> Enabled(c, FrameNum)
  }

  lemma Outcome(c: Config, s: State, p: Packet, t: Test)
    ensures RunTests(c, s, p)(t) <==> (t.FrameNum? || Enabled(c, t)) && Holds(c, s, p, t)
  {
  }

  /** The mask word stands for its tests. In AND mode a packet is accepted exactly when every
      enabled test holds, the index has no bit that belongs to no test, and no frame range takes
      part uninvited; in OR mode exactly when some enabled test or a frame range does. */
  lemma AndMeaning(c: Config, s: State, p: Packet)
    requires c.mode.And?
    ensures Core(c, s, p) <==>
      c.index < 0x1_0000 && AllHold(c, s, p) && (Holds(c, s, p, FrameNum) ==> Enabled(c, FrameNum))
  {
    var h := (t: Test) => Holds(c, s, p, t);
    OutcomesGated(c, s, p, h);
    RepeatsIndex(RunTests(c, s, p), c.index, h);
  }

  lemma OutcomesGated(c: Config, s: State, p: Packet, h: Test -> bool)
    requires forall t: Test :: h(t) == Holds(c, s, p, t)
    ensures forall t: Test :: RunTests(c, s, p)(t) <==> (t.FrameNum? || Has(c.index, t)) && h(t)
  {
    forall t: Test ensures RunTests(c, s, p)(t) <==> (t.FrameNum? || Has(c.index, t)) && h(t) {
      Outcome(c, s, p, t);
    }
  }

  lemma OrMeaning(c: Config, s: State, p: Packet)
    requires c.mode.Or?
    ensures Core(c, s, p) <==> SomeHolds(c, s, p) || Holds(c, s, p, FrameNum)
  {
    var o := RunTests(c, s, p);
    WordCompared(o, c.index);
    forall t: Test ensures o(t) <==> (t.FrameNum? || Enabled(c, t)) && Holds(c, s, p, t) {
      Outcome(c, s, p, t);
    }
  }

  /** With ranges given only where their test is enabled, the two modes are "all" and "any" of the
      enabled tests. */
  lemma CoreMeaning(c: Config, s: State, p: Packet)
    requires c.mode != Unknown && RangesDeclared(c, s)
    ensures c.mode.And? ==> (Core(c, s, p) <==> c.index < 0x1_0000 && AllHold(c, s, p))
    ensures c.mode.Or? ==> (Core(c, s, p) <==> SomeHolds(c, s, p))
  {
    if c.mode.And? {
      AndMeaning(c, s, p);
    } else {
      OrMeaning(c, s, p);
    }
  }

  /** A packet and the verdict of the filter's BPF program on it, true if it has none. */
  datatype Arrival = Arrival(packet: Packet, bpf: bool)

  predicate Usable(c: Config) {
    c.index == 0 || c.mode != Unknown
  }

  /** The state the tests see: the first packet sets the reference for inter-arrival times. */
  function Seen(s: State, p: Packet): State {
    if s.first then s.(first := false, lastTs := p.ts) else s
  }

  predicate Verdict(c: Config, s: State, a: Arrival)
    requires Usable(c)
  {
    (c.index == 0 || Core(c, Seen(s, a.packet), a.packet)) && a.bpf
  }

  function Next(c: Config, s: State, a: Arrival): State
    requires Usable(c)
  {
    var t := Seen(s, a.packet);
    State(false, t.counter + 1, if Verdict(c, s, a) then a.packet.ts else t.lastTs, Prune(t.ranges, t.counter))
  }

  function After(c: Config, s: State, run: seq<Arrival>): State
    requires Usable(c)
    decreases run
  {
    if run == [] then s else After(c, Next(c, s, run[0]), run[1..])
  }

  function Verdicts(c: Config, s: State, run: seq<Arrival>): (vs: seq<bool>)
    requires Usable(c)
    ensures |vs| == |run|
    decreases run
  {
    if run == [] then [] else [Verdict(c, s, run[0])] + Verdicts(c, Next(c, s, run[0]), run[1..])
  }

  class FilterObject {
    const config: Config
    var first: bool
    var frameCounter: int
    var frameLastTs: TimePico
    var frameNum: seq<Range>

    ghost function Snapshot(): State
      reads this
    {
      State(first, frameCounter, frameLastTs, frameNum)
    }

    /** filter_init, with the configuration and ranges the setters add. */
    constructor (config: Config, ranges: seq<Range>)
      ensures this.config == config && Snapshot() == Fresh(ranges)
    {
      this.config := config;
      first, frameCounter, frameLastTs, frameNum := true, 1, TimePico(0, 0), ranges;
    }

    /** filter_match. */
    method Match(p: Packet, bpf: bool) returns (yes: bool)
      requires Usable(config)
      modifies this
      ensures yes == Verdict(config, old(Snapshot()), Arrival(p, bpf))
      ensures Snapshot() == Next(config, old(Snapshot()), Arrival(p, bpf))
    {
      if first {
        frameLastTs := p.ts;
        first := false;
      }
      var state := State(first, frameCounter, frameLastTs, frameNum);
      assert state == Seen(old(Snapshot()), p);
      yes := (config.index == 0 || Core(config, state, p)) && bpf;
      assert yes == Verdict(config, old(Snapshot()), Arrival(p, bpf));
      if frameNum != [] && frameNum[0].upper > 0 && frameCounter > frameNum[0].upper {
        frameNum := frameNum[1..];
      }
      frameCounter := frameCounter + 1;
      if yes {
        frameLastTs := p.ts;
      }
    }
  }

  /** The state of an initialised filter with the given ranges. */
  function Fresh(ranges: seq<Range>): State {
    State(true, 1, TimePico(0, 0), ranges)
  }

  /** Over every run a filter without tests passes on exactly what its BPF program accepts: the ranges,
      times and counters it carries never matter. */
  lemma {:induction false} EmptyFilterAccepts(c: Config, s: State, run: seq<Arrival>)
    requires c.index == 0
    ensures Usable(c) && forall i :: 0 <= i < |run| ==> Verdicts(c, s, run)[i] == run[i].bpf
    decreases run
  {
    if run != [] {
      EmptyFilterAccepts(c, Next(c, s, run[0]), run[1..]);
    }
  }

  /** Over every run the k-th packet is judged as frame k, against the list pruned k-1 times. */
  lemma {:induction false} FrameNumbers(c: Config, rs: seq<Range>, run: seq<Arrival>)
    requires Usable(c)
    ensures var s := After(c, Fresh(rs), run); s.counter == |run| + 1 && s.ranges == ListAt(rs, |run| + 1)
    decreases |run|
  {
    if run != [] {
      var front, last := run[..|run| - 1], run[|run| - 1];
      FrameNumbers(c, rs, front);
      AfterSnoc(c, Fresh(rs), front, last);
      assert run == front + [last];
    }
  }

  lemma {:induction false} AfterSnoc(c: Config, s: State, run: seq<Arrival>, a: Arrival)
    requires Usable(c)
    ensures After(c, s, run + [a]) == Next(c, After(c, s, run), a)
    decreases run
  {
    if run == [] {
      assert ([] + [a])[1..] == [];
    } else {
      assert (run + [a])[1..] == run[1..] + [a];
      AfterSnoc(c, Next(c, s, run[0]), run[1..], a);
    }
  }

  /** The frame-number test of the packet after any run. */
  lemma {:induction false} FrameTest(c: Config, rs: seq<Range>, run: seq<Arrival>, p: Packet)
    requires Usable(c)
    ensures Holds(c, Seen(After(c, Fresh(rs), run), p), p, FrameNum) <==> Accepts(rs, |run| + 1)
  {
    FrameNumbers(c, rs, run);
  }

  lemma {:induction false} NoRangesStay(c: Config, s: State, run: seq<Arrival>)
    requires Usable(c) && s.ranges == []
    ensures After(c, s, run).ranges == []
    decreases run
  {
    if run != [] {
      NoRangesStay(c, Next(c, s, run[0]), run[1..]);
    }
  }

  /** A filter with a single test accepts exactly the packets for which that test holds. */
  lemma OnlyTest(c: Config, s: State, p: Packet, t: Test)
    requires c.mode.And? && c.index == Mask(t) && s.ranges == []
    ensures Core(c, s, p) <==> Holds(c, s, p, t)
  {
    AndMeaning(c, s, p);
    MaskLow(t);
    OneEnabled(c, t);
    OneHolds(c, s, p, t);
  }

  lemma OneHolds(c: Config, s: State, p: Packet, t: Test)
    requires s.ranges == [] && forall u: Test :: Enabled(c, u) <==> u == t
    ensures (AllHold(c, s, p) <==> Holds(c, s, p, t)) && !Holds(c, s, p, FrameNum)
  {
    assert Enabled(c, t);
  }

  lemma OneEnabled(c: Config, t: Test)
    requires c.index == Mask(t)
    ensures forall u: Test :: Enabled(c, u) <==> u == t
  {
    forall u: Test ensures Enabled(c, u) <==> u == t {
      MaskHas(t, u);
    }
  }
}
