/** What a filter means: the verdict on every packet of every run, in terms of the packets and of what the filter
    was set to, with networks and port ranges given as prefixes. The masks, the flags and the changing state of
    the filter do not appear. */
module FilterMeaning {
  import opened Bytes
  import opened PicoTime
  import opened FrameRanges
  import opened FilterBits
  import opened Filter
  import opened FilterLatch
  import opened FilterPack

  // -- Masks of leading ones --

  /** `n` one bits, then `k` zero bits. */
  function Leading(n: nat, k: nat): nat {
    if k == 0 then Ones(n) else 2 * Leading(n, k - 1)
  }

  /** The numbers agree on all but their last `k` bits, and of `want` these are zero. */
  predicate SamePrefix(x: nat, want: nat, k: nat)
    decreases k
  {
    if k == 0 then x == want else want % 2 == 0 && SamePrefix(x / 2, want / 2, k - 1)
  }

  /** The same by division. */
  lemma {:induction false} PrefixDivides(x: nat, want: nat, k: nat)
    ensures SamePrefix(x, want, k) <==> x / Shifted(k) == want / Shifted(k) && want % Shifted(k) == 0
    decreases k
  {
    if k > 0 {
      var d := Shifted(k - 1);
      PrefixDivides(x / 2, want / 2, k - 1);
      HalfOf(x, d);
      HalfOf(want, d);
    }
  }

  lemma HalfOf(x: nat, d: nat)
    requires d > 0
    ensures x / (2 * d) == x / 2 / d && x % (2 * d) == 2 * (x / 2 % d) + x % 2
  {
    var q, r := x / 2 / d, x / 2 % d;
    assert x == q * (2 * d) + (2 * r + x % 2) && 0 <= 2 * r + x % 2 < 2 * d;
    Quotient(x, 2 * d, q, 2 * r + x % 2);
  }

  lemma Quotient(x: nat, d: nat, q: nat, r: nat)
    requires d > 0 && x == q * d + r && r < d
    ensures x / d == q && x % d == r
  {
    var e := x / d - q;
    assert x == x / d * d + x % d;
    assert e * d == r - x % d;
  }

  lemma {:induction false} BitAndAll(x: nat, n: nat)
    requires x < Shifted(n)
    ensures BitAnd(x, Ones(n)) == x
  {
    if n > 0 && x > 0 {
      assert Ones(n) / 2 == Ones(n - 1) && Ones(n) % 2 == 1;
      BitAndAll(x / 2, n - 1);
    }
  }

  lemma {:induction false} BitAndDouble(x: nat, y: nat)
    ensures BitAnd(x, 2 * y) == 2 * BitAnd(x / 2, y)
  {
    if x != 0 && y != 0 {
      assert 2 * y / 2 == y && 2 * y % 2 == 0;
    }
  }

  /** A masked comparison is one of prefixes. */
  lemma {:induction false} MaskedCompares(x: nat, want: nat, n: nat, k: nat)
    requires x < Shifted(n + k)
    ensures BitAnd(x, Leading(n, k)) == want <==> SamePrefix(x, want, k)
    decreases k
  {
    if k == 0 {
      BitAndAll(x, n);
    } else {
      MaskedCompares(x / 2, want / 2, n, k - 1);
      BitAndDouble(x, Leading(n, k - 1));
    }
  }

  lemma Widths()
    ensures Shifted(8) == 0x100 && Shifted(16) == 0x1_0000 && Shifted(32) == 0x1_0000_0000
  {
    assert Shifted(4) == 0x10 && Shifted(8) == 0x100 && Shifted(12) == 0x1000 && Shifted(16) == 0x1_0000;
    assert Shifted(20) == 0x10_0000 && Shifted(24) == 0x100_0000 && Shifted(28) == 0x1000_0000;
  }

  // -- The tests --

  /** How many bits each masked test compares; for Ethernet addresses, of each byte. */
  datatype Prefixes = Prefixes(
    dstPort: nat, srcPort: nat, port: nat, ethType: nat, vlan: nat, ipDst: nat, ipSrc: nat,
    ethDst: seq<nat>, ethSrc: seq<nat>)

  /** The bits after the first `n`. */
  function Rest(n: nat, width: nat): nat {
    if n <= width then width - n else 0
  }

  ghost predicate PrefixMask(mask: nat, n: nat, width: nat) {
    n <= width && mask == Leading(n, width - n)
  }

  ghost predicate AddressMask(mask: EtherAddr, ns: seq<nat>) {
    |ns| == 6 && forall i :: 0 <= i < 6 ==> PrefixMask(mask[i], ns[i], 8)
  }

  /** The masks of the filter are those of the prefixes. */
  ghost predicate MasksAre(c: Config, n: Prefixes) {
    && PrefixMask(c.dstPortMask, n.dstPort, 16) && PrefixMask(c.srcPortMask, n.srcPort, 16)
    && PrefixMask(c.portMask, n.port, 16) && PrefixMask(c.ethTypeMask, n.ethType, 16)
    && PrefixMask(c.vlanTciMask, n.vlan, 16)
    && PrefixMask(c.ipDstMask, n.ipDst, 32) && PrefixMask(c.ipSrcMask, n.ipSrc, 32)
    && AddressMask(c.ethDstMask, n.ethDst) && AddressMask(c.ethSrcMask, n.ethSrc)
  }

  lemma {:induction false} NoLeading(k: nat)
    ensures Leading(0, k) == 0
  {
    if k > 0 {
      NoLeading(k - 1);
    }
  }

  /** An initialised filter compares no bits; a port given without a mask is compared whole, and a network of
      24 bits by its first three bytes. */
  lemma {:induction false} CommonMasks()
    ensures MasksAre(INITIAL, Prefixes(0, 0, 0, 0, 0, 0, 0, [0, 0, 0, 0, 0, 0], [0, 0, 0, 0, 0, 0]))
    ensures PrefixMask(0xFFFF, 16, 16) && PrefixMask(0xFFFF_FF00, 24, 32)
  {
    NoLeading(8);
    NoLeading(16);
    NoLeading(32);
    Ones16();
    assert Ones(20) == 0xF_FFFF;
    assert Ones(24) == 0xFF_FFFF;
    assert Leading(24, 4) == 0xFFF_FFF0;
  }

  ghost predicate TimesNormal(c: Config) {
    c.starttime.Normal() && c.endtime.Normal() && c.frameMaxDt.Normal()
  }

  /** The identification strings fit their fields of eight characters. */
  predicate IdsFit(c: Config, p: Packet) {
    |c.mampid| <= 8 && |p.mampid| <= 8
  }

  ghost predicate SameAddress(x: EtherAddr, want: EtherAddr, ns: seq<nat>) {
    |ns| == 6 && forall i :: 0 <= i < 6 ==> SamePrefix(x[i], want[i], Rest(ns[i], 8))
  }

  ghost predicate Within(whole: string, part: string) {
    exists before: string, after: string :: whole == before + part + after
  }

  /** What a test asks of the packet with number `k`, the last accepted one (or the first) having come at `last`. */
  ghost predicate Meets(c: Config, n: Prefixes, rs: seq<Range>, k: nat, last: TimePico, p: Packet, t: Test)
    requires k >= 1
  {
    match t
    case DstPort => SamePrefix(p.dport, c.dstPort, Rest(n.dstPort, 16))
    case SrcPort => SamePrefix(p.sport, c.srcPort, Rest(n.srcPort, 16))
    case IpDst => p.ip.Some? && SamePrefix(p.ip.value.dst, c.ipDst, Rest(n.ipDst, 32))
    case IpSrc => p.ip.Some? && SamePrefix(p.ip.value.src, c.ipSrc, Rest(n.ipSrc, 32))
    case IpProto => p.ip.Some? && p.ip.value.proto == c.ipProto
    case EthDst => SameAddress(p.ethDst, c.ethDst, n.ethDst)
    case EthSrc => SameAddress(p.ethSrc, c.ethSrc, n.ethSrc)
    case EthType => SamePrefix(if p.ethProto == 0x8100 then p.inner else p.ethProto, c.ethType, Rest(n.ethType, 16))
    case Vlan => p.ethProto == 0x8100 && SamePrefix(p.tci, c.vlanTci, Rest(n.vlan, 16))
    case Iface => Within(p.nic, c.iface)
    case MampId => p.mampid == c.mampid
    case EndTime => p.ts.Value() < c.endtime.Value()
    case StartTime => c.starttime.Value() <= p.ts.Value()
    case Port => SamePrefix(p.sport, c.port, Rest(n.port, 16)) || SamePrefix(p.dport, c.port, Rest(n.port, 16))
    case FrameMaxDt => p.ts.Value() - last.Value() <= c.frameMaxDt.Value()
    case FrameNum => Accepts(rs, k)
  }

  lemma {:induction false} Compares8(x: byte, want: byte, mask: byte, n: nat)
    requires PrefixMask(mask, n, 8)
    ensures BitAnd(x, mask) == want <==> SamePrefix(x, want, Rest(n, 8))
  {
    Widths();
    MaskedCompares(x, want, n, 8 - n);
  }

  lemma {:induction false} Compares16(x: u16, want: u16, mask: u16, n: nat)
    requires PrefixMask(mask, n, 16)
    ensures BitAnd(x, mask) == want <==> SamePrefix(x, want, Rest(n, 16))
  {
    Widths();
    MaskedCompares(x, want, n, 16 - n);
  }

  lemma {:induction false} Compares32(x: u32, want: u32, mask: u32, n: nat)
    requires PrefixMask(mask, n, 32)
    ensures BitAnd(x, mask) == want <==> SamePrefix(x, want, Rest(n, 32))
  {
    Widths();
    MaskedCompares(x, want, n, 32 - n);
  }

  lemma ComparesAddress(x: EtherAddr, want: EtherAddr, mask: EtherAddr, ns: seq<nat>)
    requires AddressMask(mask, ns)
    ensures MatchEth(want, mask, x) <==> SameAddress(x, want, ns)
  {
    forall i | 0 <= i < 6 ensures BitAnd(x[i], mask[i]) == want[i] <==>
      SamePrefix(x[i], want[i], Rest(ns[i], 8))
    {
      assert PrefixMask(mask[i], ns[i], 8);
      Compares8(x[i], want[i], mask[i], ns[i]);
    }
  }

  lemma OccursWithin(part: string, whole: string)
    ensures Occurs(part, whole) <==> Within(whole, part)
  {
    if Occurs(part, whole) {
      var i :| 0 <= i <= |whole| && OccursAt(part, whole, i);
      assert whole == whole[..i] + part + whole[i + |part|..];
    }
    if Within(whole, part) {
      var before, after: string :| whole == before + part + after;
      assert whole[|before|..] == part + after;
      assert OccursAt(part, whole, |before|);
    }
  }

  /** The tests on the Ethernet header. */
  lemma LinkMeets(c: Config, n: Prefixes, rs: seq<Range>, k: nat, s: State, p: Packet)
    requires k >= 1 && AddressMask(c.ethDstMask, n.ethDst) && AddressMask(c.ethSrcMask, n.ethSrc)
    ensures Holds(c, s, p, EthDst) <==> Meets(c, n, rs, k, s.lastTs, p, EthDst)
    ensures Holds(c, s, p, EthSrc) <==> Meets(c, n, rs, k, s.lastTs, p, EthSrc)
  {
    ComparesAddress(p.ethDst, c.ethDst, c.ethDstMask, n.ethDst);
    ComparesAddress(p.ethSrc, c.ethSrc, c.ethSrcMask, n.ethSrc);
  }

  lemma TypeMeets(c: Config, n: Prefixes, rs: seq<Range>, k: nat, s: State, p: Packet)
    requires k >= 1 && PrefixMask(c.ethTypeMask, n.ethType, 16) && PrefixMask(c.vlanTciMask, n.vlan, 16)
    ensures Holds(c, s, p, EthType) <==> Meets(c, n, rs, k, s.lastTs, p, EthType)
    ensures Holds(c, s, p, Vlan) <==> Meets(c, n, rs, k, s.lastTs, p, Vlan)
  {
    Compares16(Proto(p), c.ethType, c.ethTypeMask, n.ethType);
    Compares16(p.tci, c.vlanTci, c.vlanTciMask, n.vlan);
  }

  /** The tests on addresses and ports. */
  lemma AddressMeets(c: Config, n: Prefixes, rs: seq<Range>, k: nat, s: State, p: Packet)
    requires k >= 1 && PrefixMask(c.ipDstMask, n.ipDst, 32) && PrefixMask(c.ipSrcMask, n.ipSrc, 32)
    ensures Holds(c, s, p, IpDst) <==> Meets(c, n, rs, k, s.lastTs, p, IpDst)
    ensures Holds(c, s, p, IpSrc) <==> Meets(c, n, rs, k, s.lastTs, p, IpSrc)
  {
    if p.ip.Some? {
      Compares32(p.ip.value.dst, c.ipDst, c.ipDstMask, n.ipDst);
      Compares32(p.ip.value.src, c.ipSrc, c.ipSrcMask, n.ipSrc);
    }
  }

  lemma PortMeets(c: Config, n: Prefixes, rs: seq<Range>, k: nat, s: State, p: Packet)
    requires k >= 1 && PrefixMask(c.dstPortMask, n.dstPort, 16) && PrefixMask(c.srcPortMask, n.srcPort, 16)
    ensures Holds(c, s, p, DstPort) <==> Meets(c, n, rs, k, s.lastTs, p, DstPort)
    ensures Holds(c, s, p, SrcPort) <==> Meets(c, n, rs, k, s.lastTs, p, SrcPort)
  {
    Compares16(p.dport, c.dstPort, c.dstPortMask, n.dstPort);
    Compares16(p.sport, c.srcPort, c.srcPortMask, n.srcPort);
  }

  lemma EitherPortMeets(c: Config, n: Prefixes, rs: seq<Range>, k: nat, s: State, p: Packet)
    requires k >= 1 && PrefixMask(c.portMask, n.port, 16)
    ensures Holds(c, s, p, Port) <==> Meets(c, n, rs, k, s.lastTs, p, Port)
  {
    Compares16(p.sport, c.port, c.portMask, n.port);
    Compares16(p.dport, c.port, c.portMask, n.port);
  }

  /** The tests on the capture header. */
  lemma CaptureMeets(c: Config, n: Prefixes, rs: seq<Range>, k: nat, s: State, p: Packet, t: Test)
    requires k >= 1 && t in {Iface, MampId, EndTime, StartTime, FrameMaxDt}
    requires TimesNormal(c) && IdsFit(c, p) && p.ts.Normal() && s.lastTs.Normal()
    ensures Holds(c, s, p, t) <==> Meets(c, n, rs, k, s.lastTs, p, t)
  {
    match t
    case Iface => OccursWithin(c.iface, p.nic);
    case MampId => assert c.mampid[..|c.mampid|] == c.mampid && p.mampid[..|p.mampid|] == p.mampid;
    case EndTime => TimeCmpOrders(p.ts, c.endtime, p.ts);
    case StartTime =>
      TimeCmpOrders(c.starttime, p.ts, p.ts);
    case FrameMaxDt => LateMeans(c, s.lastTs, p.ts);
  }

  /** Each test means what it asks. */
  lemma {:induction false} TestMeets(c: Config, n: Prefixes, rs: seq<Range>, k: nat, s: State, p: Packet, t: Test)
    requires MasksAre(c, n) && k >= 1 && TimesNormal(c) && IdsFit(c, p) && p.ts.Normal() && s.lastTs.Normal()
    requires s.counter == k && s.ranges == ListAt(rs, k)
    ensures Holds(c, s, p, t) <==> Meets(c, n, rs, k, s.lastTs, p, t)
  {
    LinkMeets(c, n, rs, k, s, p);
    TypeMeets(c, n, rs, k, s, p);
    AddressMeets(c, n, rs, k, s, p);
    PortMeets(c, n, rs, k, s, p);
    EitherPortMeets(c, n, rs, k, s, p);
    if t in {Iface, MampId, EndTime, StartTime, FrameMaxDt} {
      CaptureMeets(c, n, rs, k, s, p, t);
    }
  }

  // -- The flags --

  /** The flags by which the tests are switched on. */
  function Flag(t: Test): nat {
    match t
    case DstPort => 0x1
    case SrcPort => 0x2
    case IpDst => 0x4
    case IpSrc => 0x8
    case IpProto => 0x10
    case EthDst => 0x20
    case EthSrc => 0x40
    case EthType => 0x80
    case Vlan => 0x100
    case Iface => 0x200
    case MampId => 0x400
    case EndTime => 0x800
    case StartTime => 0x1000
    case Port => 0x2000
    case FrameMaxDt => 0x4000
    case FrameNum => 0x8000
  }

  predicate On(c: Config, t: Test) {
    c.index / Flag(t) % 2 == 1
  }

  lemma {:induction false} BitQuotient(w: nat, k: nat)
    ensures BitAt(w, k) <==> w / Shifted(k) % 2 == 1
    decreases k
  {
    if k > 0 {
      BitQuotient(w / 2, k - 1);
      HalfOf(w, Shifted(k - 1));
    }
  }

  lemma FlagMeans(c: Config, t: Test)
    ensures On(c, t) <==> Enabled(c, t)
  {
    MaskValues();
    BitQuotient(c.index, Offset(t));
    assert Shifted(Offset(t)) == Mask(t) == Flag(t);
  }

  // -- The verdict --

  /** A run whose timestamps and names are as the program makes them. */
  ghost predicate Regular(c: Config, run: seq<Arrival>) {
    TimesNormal(c) && AllNormal(run) && forall i :: 0 <= i < |run| ==> IdsFit(c, run[i].packet)
  }

  /** The packet is to be selected: everything asked for is met, or in OR mode something is. */
  ghost predicate Selected(c: Config, n: Prefixes, rs: seq<Range>, k: nat, last: TimePico, a: Arrival)
    requires k >= 1
  {
    a.bpf &&
      if c.index == 0 then true
      else if c.mode.Or? then exists t: Test :: On(c, t) && Meets(c, n, rs, k, last, a.packet, t)
      else forall t: Test :: On(c, t) ==> Meets(c, n, rs, k, last, a.packet, t)
  }

  lemma {:induction false} StateMeans(c: Config, n: Prefixes, rs: seq<Range>, k: nat, s: State, a: Arrival)
    requires MasksAre(c, n) && k >= 1 && c.index < 0x1_0000 && Usable(c) && (rs != [] ==> On(c, FrameNum))
    requires TimesNormal(c) && IdsFit(c, a.packet) && a.packet.ts.Normal() && s.lastTs.Normal() && !s.first
    requires s.counter == k && s.ranges == ListAt(rs, k) && (rs == [] ==> s.ranges == [])
    ensures Verdict(c, s, a) <==> Selected(c, n, rs, k, s.lastTs, a)
  {
    forall t: Test ensures On(c, t) <==> Enabled(c, t) {
      FlagMeans(c, t);
    }
    forall t: Test ensures Holds(c, s, a.packet, t) <==> Meets(c, n, rs, k, s.lastTs, a.packet, t) {
      TestMeets(c, n, rs, k, s, a.packet, t);
    }
    if c.index != 0 {
      CoreMeaning(c, s, a.packet);
      Combine(c, n, rs, k, s, a.packet);
    }
  }

  lemma Combine(c: Config, n: Prefixes, rs: seq<Range>, k: nat, s: State, p: Packet)
    requires k >= 1
    requires forall t: Test :: On(c, t) <==> Enabled(c, t)
    requires forall t: Test :: Holds(c, s, p, t) <==> Meets(c, n, rs, k, s.lastTs, p, t)
    ensures AllHold(c, s, p) <==> forall t: Test :: On(c, t) ==> Meets(c, n, rs, k, s.lastTs, p, t)
    ensures SomeHolds(c, s, p) <==> exists t: Test :: On(c, t) && Meets(c, n, rs, k, s.lastTs, p, t)
  {
  }

  /** The first packet is measured from itself, every other from the last one accepted, or from the first. */
  ghost predicate Measured(run: seq<Arrival>, vs: seq<bool>, i: nat, last: TimePico)
    requires |vs| == |run| && i < |run|
  {
    if i == 0 then last == run[0].packet.ts else Refers(run[..i], vs[..i], run[0].packet.ts, last)
  }

  /** The verdict on every packet of every run: it is accepted if and only if it is to be selected. */
  lemma {:induction false} RunMeans(c: Config, n: Prefixes, rs: seq<Range>, run: seq<Arrival>, i: nat, last: TimePico)
    requires Usable(c) && c.index < 0x1_0000 && MasksAre(c, n) && (rs != [] ==> On(c, FrameNum))
    requires Regular(c, run) && i < |run| && Measured(run, Verdicts(c, Fresh(rs), run), i, last)
    ensures Verdicts(c, Fresh(rs), run)[i] <==> Selected(c, n, rs, i + 1, last, run[i])
  {
    var s := After(c, Fresh(rs), run[..i]);
    var seen := Seen(s, run[i].packet);
    VerdictAt(c, Fresh(rs), run, i);
    FrameNumbers(c, rs, run[..i]);
    ReferenceNormal(c, Fresh(rs), run[..i]);
    if rs == [] {
      NoRangesStay(c, Fresh(rs), run[..i]);
    }
    if i > 0 {
      ReferenceTime(c, rs, run[..i]);
      RefersOnce(run[..i], Verdicts(c, Fresh(rs), run[..i]), run[0].packet.ts, s.lastTs, last);
    }
    StateMeans(c, n, rs, i + 1, seen, run[i]);
  }
}
