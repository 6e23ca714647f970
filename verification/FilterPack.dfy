/** Filters on the wire: filter_pack and filter_unpack convert byte order field by field, and leave
    some fields behind. */
module FilterPack {
  import opened Optional
  import opened Bytes
  import opened PicoTime
  import opened FilterBits
  import opened Filter

  /** Values in network byte order: the constructors are htons and htonl, the destructors ntohs
      and ntohl. */
  datatype Net16 = Htons(host: u16)
  datatype Net32 = Htonl(host: u32)

  /** The transmitted fields that matching depends on, in network byte order. The ASCII copies of
      the addresses are the values they are printed from. */
  datatype Packed = Packed(
    index: Net32, version: Net32, mode: byte, iface: string,
    vlanTci: Net16, vlanTciMask: Net16, ethType: Net16, ethTypeMask: Net16,
    ethSrc: EtherAddr, ethSrcMask: EtherAddr, ethDst: EtherAddr, ethDstMask: EtherAddr,
    ipProto: byte, ipSrc: u32, ipSrcMask: u32, ipDst: u32, ipDstMask: u32,
    asciiSrc: u32, asciiSrcMask: u32, asciiDst: u32, asciiDstMask: u32,
    srcPort: Net16, srcPortMask: Net16, dstPort: Net16, dstPortMask: Net16, port: Net16, portMask: Net16)

  function ModeByte(m: Mode): byte {
    match m case Unknown => 0 case And => 1 case Or => 2
  }

  function ByteMode(b: byte): Mode {
    if b == 1 then And else if b == 2 then Or else Unknown
  }

  function Pack(c: Config): Packed {
    Packed(
      Htonl(c.index), Htonl(2), ModeByte(c.mode), c.iface,
      Htons(c.vlanTci), Htons(c.vlanTciMask), Htons(c.ethType), Htons(c.ethTypeMask),
      c.ethSrc, c.ethSrcMask, c.ethDst, c.ethDstMask,
      c.ipProto, c.ipSrc, c.ipSrcMask, c.ipDst, c.ipDstMask,
      c.ipSrc, c.ipSrcMask, c.ipDst, c.ipDstMask,
      Htons(c.srcPort), Htons(c.srcPortMask), Htons(c.dstPort), Htons(c.dstPortMask),
      Htons(c.port), Htons(c.portMask))
  }

  function Unpack(p: Packed, dst: Config): Config {
    var version := p.version.host;
    dst.(
      index := p.index.host,
      mode := if version >= 2 then ByteMode(p.mode) else And,
      iface := p.iface,
      vlanTci := p.vlanTci.host, vlanTciMask := p.vlanTciMask.host,
      ethType := p.ethType.host, ethTypeMask := p.ethTypeMask.host,
      ethSrc := p.ethSrc, ethSrcMask := p.ethSrcMask, ethDst := p.ethDst, ethDstMask := p.ethDstMask,
      ipProto := p.ipProto,
      ipSrc := if version == 0 then p.asciiSrc else p.ipSrc,
      ipSrcMask := if version == 0 then p.asciiSrcMask else p.ipSrcMask,
      ipDst := if version == 0 then p.asciiDst else p.ipDst,
      ipDstMask := if version == 0 then p.asciiDstMask else p.ipDstMask,
      srcPort := p.srcPort.host, srcPortMask := p.srcPortMask.host,
      dstPort := p.dstPort.host, dstPortMask := p.dstPortMask.host)
  }

  const ZERO := TimePico(0, 0)
  const NO_ADDR: EtherAddr := [0, 0, 0, 0, 0, 0]

  /** filter_init. */
  const INITIAL := Config(
    0, And, ZERO, ZERO, "", "", 0, 0, 0, 0, NO_ADDR, NO_ADDR, NO_ADDR, NO_ADDR,
    0, 0, 0, 0, 0, 0, 0, 0, 0, 0, 0, ZERO)

  /** A filter without what transmission leaves behind: the times, the id, the either-way port and
      the inter-arrival limit. */
  function Stripped(c: Config): Config {
    c.(starttime := ZERO, endtime := ZERO, mampid := "", port := 0, portMask := 0, frameMaxDt := ZERO)
  }

  /** A whole filter: what it is configured to, and the state that matching changes. */
  datatype Whole = Whole(config: Config, state: State)

  /** Sent with filter_pack and received with filter_unpack into an initialised filter; the list of frame
      ranges is not sent, and the receiver's is cleared. */
  function Transmitted(f: Whole): Whole {
    var init := Whole(INITIAL, Fresh([]));
    Whole(Unpack(Pack(f.config), init.config), init.state.(ranges := []))
  }

  /** What arrives when a filter is sent is exactly the filter without those, and without its frame ranges. */
  lemma Arrives(f: Whole)
    ensures Transmitted(f) == Whole(Stripped(f.config), Fresh([]))
  {
  }

  /** Filters marked as of version 0, whose addresses are sent as text, or 1 arrive the same, but always as AND
      filters: the mode is taken from the message only from version 2 on. */
  lemma LegacyArrives(c: Config, version: u32)
    ensures version < 2 ==> Unpack(Pack(c).(version := Htonl(version)), INITIAL) == Stripped(c).(mode := And)
    ensures version >= 2 ==> Unpack(Pack(c).(version := Htonl(version)), INITIAL) == Stripped(c)
  {
  }

  /** The ten tests of the first filter version. */
  predicate Original(t: Test) {
    match t
    case MampId => false
    case EndTime => false
    case StartTime => false
    case Port => false
    case FrameMaxDt => false
    case FrameNum => false
    case _ => true
  }

  ghost predicate OnlyOriginal(c: Config) {
    forall t: Test :: Enabled(c, t) ==> Original(t)
  }

  lemma SameHolds(c: Config, s: State, u: State, p: Packet, t: Test)
    requires Original(t)
    ensures Holds(c, s, p, t) == Holds(Stripped(c), u, p, t)
  {
    match t
    case DstPort => case SrcPort => case IpDst => case IpSrc => case IpProto =>
    case EthDst => case EthSrc => case EthType => case Vlan => case Iface =>
  }

  lemma SamePassed(c: Config, s: State, u: State, p: Packet, t: Test)
    requires s.ranges == [] && u.ranges == [] && (Enabled(c, t) ==> Original(t))
    ensures Passed(c, s, p, t) == Passed(Stripped(c), u, p, t)
  {
    if Original(t) {
      SameHolds(c, s, u, p, t);
    }
  }

  lemma SameCore(c: Config, s: State, u: State, p: Packet)
    requires s.ranges == [] && u.ranges == [] && OnlyOriginal(c) && c.mode != Unknown
    ensures Core(c, s, p) == Core(Stripped(c), u, p)
  {
    var o, q := RunTests(c, s, p), RunTests(Stripped(c), u, p);
    forall t: Test ensures o(t) == q(t) {
      SamePassed(c, s, u, p, t);
      Outcome(c, s, p, t);
      Outcome(Stripped(c), u, p, t);
    }
    SameOutcomes(o, q);
  }

  lemma {:induction false} StrippedVerdicts(c: Config, s: State, u: State, run: seq<Arrival>)
    requires Usable(c) && OnlyOriginal(c) && s.ranges == [] && u.ranges == []
    ensures Verdicts(Stripped(c), u, run) == Verdicts(c, s, run)
    decreases run
  {
    if run != [] {
      var a := run[0];
      if c.index != 0 {
        SameCore(c, Seen(s, a.packet), Seen(u, a.packet), a.packet);
      }
      StrippedVerdicts(c, Next(c, s, a), Next(Stripped(c), u, a), run[1..]);
    }
  }

  /** A filter that uses only the original tests gives, after transmission, the same verdict on
      every packet of every run. */
  lemma {:induction false} RoundTrip(f: Whole, run: seq<Arrival>)
    requires Usable(f.config) && OnlyOriginal(f.config) && f.state.ranges == []
    ensures var g := Transmitted(f);
      Usable(g.config) && Verdicts(g.config, g.state, run) == Verdicts(f.config, f.state, run)
  {
    Arrives(f);
    StrippedVerdicts(f.config, f.state, Fresh([]), run);
  }

  lemma {:induction false} NoRangesReject(c: Config, s: State, run: seq<Arrival>)
    requires Usable(c) && c.mode.And? && Enabled(c, FrameNum) && s.ranges == []
    ensures forall i :: 0 <= i < |run| ==> !Verdicts(c, s, run)[i]
    decreases run
  {
    if run != [] {
      var a := run[0];
      ZeroHasNone(FrameNum);
      AndMeaning(c, Seen(s, a.packet), a.packet);
      assert !Holds(c, Seen(s, a.packet), a.packet, FrameNum);
      NoRangesReject(c, Next(c, s, a), run[1..]);
    }
  }

  /** The bit of the frame ranges arrives without the ranges: in AND mode the filter then rejects every packet
      of every run. */
  lemma {:induction false} RangesAreLost(f: Whole, run: seq<Arrival>)
    requires Usable(f.config) && Enabled(f.config, FrameNum) && f.config.mode.And?
    ensures var g := Transmitted(f); Usable(g.config) && forall i :: 0 <= i < |run| ==>
      !Verdicts(g.config, g.state, run)[i]
  {
    Arrives(f);
    NoRangesReject(Stripped(f.config), Fresh([]), run);
  }

  /** In either mode the frame test holds of no packet of any run any more. */
  lemma {:induction false} FrameTestIsLost(f: Whole, run: seq<Arrival>, p: Packet)
    requires Usable(f.config)
    ensures var g := Transmitted(f); Usable(g.config) && !Holds(g.config, After(g.config, g.state, run), p, FrameNum)
  {
    Arrives(f);
    NoRangesStay(Stripped(f.config), Fresh([]), run);
  }

  /** The test means the same after transmission. */
  ghost predicate Survives(c: Config, t: Test) {
    forall s: State, p: Packet :: Holds(c, s, p, t) == Holds(Stripped(c), s, p, t)
  }

  /** A packet of which only the ports and the timestamp matter. */
  function Probe(port: u16, ts: TimePico): Packet {
    Packet("", "", ts, NO_ADDR, NO_ADDR, 0, 0, 0, None, port, port)
  }

  /** The extensions do not survive: the either-way port test comes out holding of every packet, so
      it keeps its meaning if and only if it held of every packet before. */
  lemma PortIsLost(c: Config)
    ensures Survives(c, Port) <==> c.port == 0 && c.portMask == 0
  {
    if Survives(c, Port) {
      var low, high := Probe(0, ZERO), Probe(0xFFFF, ZERO);
      assert Holds(c, Fresh([]), low, Port) == Holds(Stripped(c), Fresh([]), low, Port);
      assert Holds(c, Fresh([]), high, Port) == Holds(Stripped(c), Fresh([]), high, Port);
      Ones16();
      BitAndOnes(16, c.portMask);
    }
  }

  /** A start time comes out as the beginning of time and an end time likewise: the first then
      holds of every packet and the second of none. */
  lemma TimesAreLost(c: Config)
    ensures Survives(c, StartTime) <==> c.starttime == ZERO
    ensures Survives(c, EndTime) <==> c.endtime == ZERO
  {
    var zero := Probe(0, ZERO);
    if Survives(c, StartTime) {
      assert Holds(c, Fresh([]), zero, StartTime) == Holds(Stripped(c), Fresh([]), zero, StartTime);
    }
    if Survives(c, EndTime) {
      assert Holds(c, Fresh([]), zero, EndTime) == Holds(Stripped(c), Fresh([]), zero, EndTime);
    }
  }

  /** The test of the measurement point's id comes out holding only of an empty id, and the inter-arrival
      test of packets that do not come later than the reference time. */
  lemma IdAndLimitAreLost(c: Config)
    ensures Survives(c, MampId) <==> c.mampid == ""
    ensures Survives(c, FrameMaxDt) <==> c.frameMaxDt == ZERO
  {
    var own := Probe(0, ZERO).(mampid := c.mampid);
    if Survives(c, MampId) {
      assert Holds(c, Fresh([]), own, MampId) == Holds(Stripped(c), Fresh([]), own, MampId);
    }
    var soon := Probe(0, TimePico(0, 1));
    if Survives(c, FrameMaxDt) {
      assert Holds(c, Fresh([]), soon, FrameMaxDt) == Holds(Stripped(c), Fresh([]), soon, FrameMaxDt);
      SubFields(soon.ts, ZERO);
    }
  }
}
