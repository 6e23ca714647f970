/** What the header walk is for: a packet whose headers are stacked as the protocols prescribe is taken
    apart into exactly those headers, unless one of them is of a kind the decoder misreads. The format of
    each header is stated here from its standard, apart from the decoders. */
module HeaderStack {
  import opened Optional
  import opened Bytes
  import opened Decoders
  import opened HeaderWalk
  import opened Ipv6Chains

  /** A header of `size` bytes. */
  datatype Layer = Layer(proto: Protocol, size: nat)

  /** Ethernet types and IP protocol numbers as they are assigned; spanning tree frames go by the length
      that stands in place of their type. */
  function EtherTypeOf(p: Protocol): Option<u16> {
    match p
    case Arp => Some(0x0806)
    case Vlan => Some(0x8100)
    case Ipv4 => Some(0x0800)
    case Ipv6 => Some(0x86dd)
    case Mpls => Some(0x8847)
    case Stp => Some(0x0026)
    case Ptpv2 => Some(0x88F7)
    case _ => None
  }

  function IpNumberOf(p: Protocol): Option<byte> {
    match p
    case Icmp => Some(1)
    case Igmp => Some(2)
    case Ipv4 => Some(4)
    case Tcp => Some(6)
    case Udp => Some(17)
    case Ipv6 => Some(41)
    case Gre => Some(47)
    case Ospf => Some(89)
    case Sctp => Some(132)
    case _ => None
  }

  /** The decoders' tables are the inverses of the registered numbers; all else is data. */
  lemma TablesInvert(t: u16, b: byte, p: Protocol)
    ensures EtherTypeNext(t) == p && p != Data <==> EtherTypeOf(p) == Some(t)
    ensures IpProtoNext(b) == p && p != Data <==> IpNumberOf(p) == Some(b)
  {
  }

  /** The type, or the number, is that of the protocol; data has one that no protocol has. */
  ghost predicate Typed(t: u16, p: Protocol) {
    EtherTypeOf(p) == Some(t) || (p.Data? && forall q :: EtherTypeOf(q) != Some(t))
  }

  ghost predicate Numbered(b: byte, p: Protocol) {
    IpNumberOf(p) == Some(b) || (p.Data? && forall q :: IpNumberOf(q) != Some(b))
  }

  lemma TableTyped(t: u16, p: Protocol)
    ensures Typed(t, p) <==> EtherTypeNext(t) == p
  {
    TablesInvert(t, 0, p);
    TablesInvert(t, 0, EtherTypeNext(t));
  }

  lemma TableNumbered(b: byte, p: Protocol)
    ensures Numbered(b, p) <==> IpProtoNext(b) == p
  {
    TablesInvert(0, b, p);
    TablesInvert(0, b, IpProtoNext(b));
  }

  /** What follows the bottom of an MPLS stack: the nibble tells IPv4 from IPv6 and from a pseudowire, and all
      of them from anything else, such as an Ethernet frame without a control word. */
  ghost predicate Announces(b: byte, p: Protocol) {
    match p
    case Ipv4 => b / 16 == 4
    case Ipv6 => b / 16 == 6
    case Pw => b / 16 == 0
    case Data => b / 16 !in {0, 4, 6}
    case _ => false
  }

  /** What a GTP user packet holds. */
  ghost predicate HoldsUser(b: byte, p: Protocol) {
    if b / 16 in {4, 6} then Announces(b, p) else p.Data?
  }

  ghost predicate UdpCarries(sport: u16, dport: u16, p: Protocol) {
    match p
    case Dns => sport == 53 || dport == 53
    case Gtp => sport != 53 && dport in {2123, 2152}
    case Ptpv2 => sport != 53 && dport == 319
    case Data => sport != 53 && dport !in {53, 319, 2123, 2152}
    case _ => false
  }

  /** DNS messages over TCP come after a length field of two bytes, which counts as part of the header. */
  ghost predicate TcpCarries(sport: u16, dport: u16, extra: nat, p: Protocol) {
    match p
    case Dns => (sport == 53 || dport == 53) && extra == 2
    case Data => sport != 53 && dport != 53 && extra == 0
    case _ => false
  }

  /** GRE header without routing: checksum, key and sequence number are present as their bits say. With
      routing, section "Packet header" of RFC 1701 adds a list of entries that ends with one of four bytes. */
  ghost predicate GreSize(flags: byte, size: nat) {
    var fixed := 4 + 4 * ((if flags >= 64 then 1 else 0) + flags / 32 % 2 + flags / 16 % 2);
    if Routed(flags) then size >= fixed + 4 else size == fixed
  }

  predicate Routed(flags: byte) {
    flags / 64 % 2 == 1
  }

  /** GTP version 1 (section 6 of 3GPP TS 29.060): eight bytes, or twelve with a sequence or N-PDU number. User
      packets have type 255; other messages hold information elements. */
  ghost predicate Gtp1Carries(m: Memory, at: nat, size: nat, next: Protocol) {
    && size == (if m(at) % 4 == 0 then 8 else 12)
    && if m(at + 1) == 255 then HoldsUser(m(at + size), next) else next.Data?
  }

  /** GTP version 2 (section 5 of 3GPP TS 29.274): with or without a tunnel identifier the header ends with the
      sequence number and a spare byte. Piggybacking puts a second message behind the first, whose length field
      counts the bytes after the first four. */
  function Gtp2Header(flags: byte): nat {
    if flags / 8 % 2 == 1 then 12 else 8
  }

  predicate Piggybacks(flags: byte) {
    flags / 16 % 2 == 1
  }

  ghost predicate Gtp2Carries(m: Memory, at: nat, size: nat, next: Protocol) {
    if Piggybacks(m(at)) then next.Gtp? && size == 4 + Be16(m, at + 2) >= Gtp2Header(m(at))
    else next.Data? && size == Gtp2Header(m(at))
  }

  /** GTP' (section 6 of 3GPP TS 32.295) has no user packets. */
  ghost predicate GtpCarries(m: Memory, at: nat, size: nat, next: Protocol) {
    match m(at) / 16
    case 2 => size == 6 && m(at + 1) != 255 && next.Data?
    case 3 => m(at) / 4 % 2 == 0 && Gtp1Carries(m, at, size, next)
    case _ => OfVersion2(m(at)) && Gtp2Carries(m, at, size, next)
  }

  predicate OfVersion2(flags: byte) {
    flags / 32 == 2
  }

  function TcpSize(m: Memory, at: nat): nat {
    4 * (m(at + 12) / 16)
  }

  /** The payload length an IP header states, for the headers inside it. */
  function Stated(m: Memory, at: nat, l: Layer, before: int): int {
    match l.proto
    case Ipv4 => Be16(m, at + 2) - l.size
    case Ipv6 => Be16(m, at + 4) + IPV6_HEADER - l.size
    case _ => before
  }

  /** The header at `at` is of layer `l` and announces `next` behind it; `stated` is the payload length
      stated by the IP header around it. */
  ghost predicate Carries(m: Memory, caplen: nat, at: nat, l: Layer, next: Protocol, stated: int) {
    match l.proto
    case Ethernet => l.size == 14 && Typed(Be16(m, at + 12), next)
    case Vlan => l.size == 4 && Typed(Be16(m, at + 2), next)
    case Mpls => l.size == 4 && if m(at + 2) % 2 == 0 then next.Mpls? else Announces(m(at + 4), next)
    case Pw => l.size == 4 && next.Ethernet?
    case Gre => GreSize(m(at), l.size) && Typed(Be16(m, at + 2), next)
    case Ipv4 => l.size == 4 * (m(at) % 16) >= 20 && Numbered(m(at + 9), next)
    case Ipv6 =>
      var payload := Payload8200(m, caplen, at);
      payload.Some? && payload.value.0 == at + l.size && Numbered(payload.value.1, next)
    case Udp => l.size == 8 && UdpCarries(Be16(m, at), Be16(m, at + 2), next)
    case Tcp =>
      && 20 <= TcpSize(m, at) <= l.size && TcpSize(m, at) < stated
      && TcpCarries(Be16(m, at), Be16(m, at + 2), l.size - TcpSize(m, at), next)
    case Gtp => GtpCarries(m, at, l.size, next)
    case _ => false
  }

  /** A protocol that carries no other. */
  ghost predicate Innermost(p: Protocol) {
    p !in {Ethernet, Vlan, Mpls, Pw, Gre, Ipv4, Ipv6, Udp, Tcp, Gtp}
  }

  /** The layers lie in the packet one inside the other from `at`; all but the last are captured in
      full. */
  ghost predicate Stacked(m: Memory, caplen: nat, at: nat, ls: seq<Layer>, stated: int)
    decreases |ls|
  {
    && ls != [] && at <= caplen && (ls[0].proto.Gtp? ==> GtpSupported(m, at))
    && (|ls| > 1 ==>
      && at + ls[0].size <= caplen && Carries(m, caplen, at, ls[0], ls[1].proto, stated)
      && Stacked(m, caplen, at + ls[0].size, ls[1..], Stated(m, at, ls[0], stated)))
  }

  /** The headers of the layers, each behind the one before. */
  ghost function Places(at: nat, ls: seq<Layer>): seq<Header>
    decreases |ls|
  {
    if ls == [] then [] else [Header(ls[0].proto, at)] + Places(at + ls[0].size, ls[1..])
  }

  // -- What the decoders misread --

  /** The payload length the decoders note; that of IPv6 is read in the wrong byte order. */
  function Noted(m: Memory, at: nat, l: Layer, before: u64): u64 {
    match l.proto
    case Ipv4 => (Be16(m, at + 2) - l.size) % U64
    case Ipv6 => (m(at + 4) + 0x100 * m(at + 5) + IPV6_HEADER - l.size) % U64
    case _ => before
  }

  /** Both lead to the same place and name the same protocol, or numbers that no protocol has. */
  ghost predicate SameEnd(a: Option<(nat, byte)>, b: Option<(nat, byte)>) {
    && a.Some? && b.Some? && a.value.0 == b.value.0
    && forall p :: IpNumberOf(p) == Some(a.value.1) <==> IpNumberOf(p) == Some(b.value.1)
  }

  /** The header is misread: GRE with routing, IPv6 with options whose lengths, as the decoder reads them, do not
      lead to their end, TCP when the length noted happens to leave nothing after its header, and GTP version 2. */
  ghost predicate Misread(m: Memory, caplen: nat, at: nat, l: Layer, noted: u64) {
    match l.proto
    case Gre => Routed(m(at))
    case Ipv6 =>
      var options := at + IPV6_HEADER;
      m(at + 6) == 0 && !SameEnd(Ipv6Extensions(m, caplen, options), ChainEnd(m, caplen, options))
    case Tcp => noted == TcpSize(m, at)
    case Gtp => OfVersion2(m(at))
    case _ => false
  }

  ghost predicate NoneMisread(m: Memory, caplen: nat, at: nat, ls: seq<Layer>, noted: u64)
    decreases |ls|
  {
    |ls| > 1 ==>
      && !Misread(m, caplen, at, ls[0], noted)
      && NoneMisread(m, caplen, at + ls[0].size, ls[1..], Noted(m, at, ls[0], noted))
  }

  /** TCP inside IPv4 is never misread: the length noted is the one stated. */
  lemma TcpInIpv4(m: Memory, caplen: nat, at: nat, ip: Layer, tcp: Layer, next: Protocol, stated: int, noted: u64)
    requires ip.proto.Ipv4? && tcp.proto.Tcp? && Carries(m, caplen, at + ip.size, tcp, next, Stated(m, at, ip, stated))
    ensures !Misread(m, caplen, at + ip.size, tcp, Noted(m, at, ip, noted))
  {
  }

  /** Inside IPv6 it can be: 5120 bytes stated read as 20, the size of the header alone. */
  lemma TcpInIpv6Misread(caplen: nat)
    requires caplen >= 60
    ensures var m: Memory := i => if i == 4 then 20 else if i == 6 then 6 else if i == 52 then 80 else 0;
      var ip, tcp := Layer(Ipv6, 40), Layer(Tcp, 20);
      && Stacked(m, caplen, 0, [ip, tcp, Layer(Data, 0)], 0) && Stated(m, 0, ip, 0) == 5120
      && Misread(m, caplen, 40, tcp, Noted(m, 0, ip, 0))
  {
    var m: Memory := i => if i == 4 then 20 else if i == 6 then 6 else if i == 52 then 80 else 0;
    var ls := [Layer(Ipv6, 40), Layer(Tcp, 20), Layer(Data, 0)];
    assert Stacked(m, caplen, 60, ls[2..], 5120);
    assert ls[1..][1..] == ls[2..];
    assert Stacked(m, caplen, 40, ls[1..], 5120);
  }

  // -- Decoders --

  /** The decoder finds what the header announces. */
  ghost predicate Finds(m: Memory, caplen: nat, at: nat, l: Layer, next: Protocol, noted: u64) {
    && HasNext(l.proto) && SizeKnown(l.proto, m, at) && Size(l.proto, m, at) <= l.size
    && Next(l.proto, m, caplen, at, noted) == Decoded(next, Some(at + l.size), Noted(m, at, l, noted))
    && !next.Unknown? && !next.Done?
  }

  /** IPv6 options of eight bytes each are not misread; longer ones are, unless they could run to 2056 bytes. */
  lemma {:induction false} OptionsMisread(
    m: Memory, caplen: nat, at: nat, l: Layer, next: Protocol, stated: int, noted: u64)
    requires l.proto.Ipv6? && Carries(m, caplen, at, l, next, stated) && m(at + 6) == 0
    ensures ZeroLengths(m, caplen, at + IPV6_HEADER) ==> !Misread(m, caplen, at, l, noted)
    ensures caplen < at + IPV6_HEADER + LONG && !ZeroLengths(m, caplen, at + IPV6_HEADER) ==>
      Misread(m, caplen, at, l, noted)
  {
    ChainsCompared(m, caplen, at + IPV6_HEADER);
  }

  /** The decoder runs and finds nothing, or something else or elsewhere. */
  ghost predicate Strays(m: Memory, caplen: nat, at: nat, l: Layer, next: Protocol, noted: u64) {
    && HasNext(l.proto) && SizeKnown(l.proto, m, at) && Size(l.proto, m, at) <= l.size
    && var d := Next(l.proto, m, caplen, at, noted);
    d.proto.Done? || d.out != Some(at + l.size) || d.proto != next
  }

  lemma LinkFinds(m: Memory, caplen: nat, at: nat, l: Layer, next: Protocol, stated: int, noted: u64)
    requires Carries(m, caplen, at, l, next, stated) && l.proto in {Ethernet, Vlan, Mpls, Pw}
    ensures Finds(m, caplen, at, l, next, noted)
  {
    TableTyped(Be16(m, at + if l.proto.Ethernet? then 12 else 2), next);
  }

  lemma GreFinds(m: Memory, caplen: nat, at: nat, l: Layer, next: Protocol, stated: int, noted: u64)
    requires Carries(m, caplen, at, l, next, stated) && l.proto.Gre?
    ensures if Routed(m(at)) then Strays(m, caplen, at, l, next, noted) else Finds(m, caplen, at, l, next, noted)
  {
    TableTyped(Be16(m, at + 2), next);
    GreBits(m(at));
  }

  lemma GreBits(b: byte)
    ensures (Bit(b, 128) || Bit(b, 64) <==> b >= 64) && (Bit(b, 32) <==> b / 32 % 2 == 1) && (Bit(b, 16) <==>
      b / 16 % 2 == 1)
  {
  }

  lemma Ipv4Finds(m: Memory, caplen: nat, at: nat, l: Layer, next: Protocol, stated: int, noted: u64)
    requires Carries(m, caplen, at, l, next, stated) && l.proto.Ipv4?
    ensures Finds(m, caplen, at, l, next, noted)
  {
    TableNumbered(m(at + 9), next);
  }

  lemma Ipv6Finds(m: Memory, caplen: nat, at: nat, l: Layer, next: Protocol, stated: int, noted: u64)
    requires Carries(m, caplen, at, l, next, stated) && l.proto.Ipv6?
    ensures if Misread(m, caplen, at, l, noted) then Strays(m, caplen, at, l, next, noted)
      else Finds(m, caplen, at, l, next, noted)
  {
    var found, payload := Ipv6Payload(m, caplen, at), Payload8200(m, caplen, at);
    TableNumbered(payload.value.1, next);
    if found.Some? {
      SameNumbers(found.value.1, payload.value.1);
    }
  }

  lemma SameNumbers(a: byte, b: byte)
    ensures IpProtoNext(a) == IpProtoNext(b) <==> forall p :: IpNumberOf(p) == Some(a) <==> IpNumberOf(p) == Some(b)
  {
    forall p ensures IpNumberOf(p) == Some(a) <==> IpProtoNext(a) == p != Data {
      TablesInvert(0, a, p);
    }
    forall p ensures IpNumberOf(p) == Some(b) <==> IpProtoNext(b) == p != Data {
      TablesInvert(0, b, p);
    }
    TablesInvert(0, a, IpProtoNext(a));
    TablesInvert(0, b, IpProtoNext(b));
  }

  lemma TransportFinds(m: Memory, caplen: nat, at: nat, l: Layer, next: Protocol, stated: int, noted: u64)
    requires Carries(m, caplen, at, l, next, stated) && l.proto in {Udp, Tcp}
    ensures if Misread(m, caplen, at, l, noted) then Strays(m, caplen, at, l, next, noted)
      else Finds(m, caplen, at, l, next, noted)
  {
  }

  lemma GtpFinds(m: Memory, caplen: nat, at: nat, l: Layer, next: Protocol, stated: int, noted: u64)
    requires Carries(m, caplen, at, l, next, stated) && l.proto.Gtp?
    ensures if Misread(m, caplen, at, l, noted) then Strays(m, caplen, at, l, next, noted)
      else Finds(m, caplen, at, l, next, noted)
  {
    if OfVersion2(m(at)) {
      Gtp2Continues(m, caplen, at, l, next, stated, noted);
    } else {
      GtpBits(m(at));
    }
  }

  lemma GtpBits(b: byte)
    requires b / 16 == 2 || (b / 16 == 3 && b / 4 % 2 == 0)
    ensures b / 32 == 1 && (Bit(b, 16) <==> b / 16 == 3) && (b / 16 == 3 ==> !Bit(b, 4))
    ensures Bit(b, 2) || Bit(b, 1) <==> b % 4 != 0
  {
  }

  /** After every header of version 2 the decoder continues at its sequence number, four bytes before its end;
      a piggybacked message is looked for there as well. */
  lemma Gtp2Continues(m: Memory, caplen: nat, at: nat, l: Layer, next: Protocol, stated: int, noted: u64)
    requires Carries(m, caplen, at, l, next, stated) && l.proto.Gtp? && OfVersion2(m(at))
    ensures GtpSupported(m, at) && Strays(m, caplen, at, l, next, noted)
    ensures var d := Next(Gtp, m, caplen, at, noted);
      && d.out == Some(at + Gtp2Header(m(at)) - 4)
      && (Piggybacks(m(at)) ==> d.proto.Gtp?) && (!Piggybacks(m(at)) && m(at + 1) != 255 ==> d.proto.Data?)
  {
  }

  /** The flags of the GTP headers the decoder handles: GTP', version 1 without extension headers, version 2. */
  lemma GtpKinds(m: Memory, at: nat)
    ensures GtpSupported(m, at) <==>
      var b := m(at); 0x20 <= b <= 0x33 || 0x38 <= b <= 0x3b || 0x40 <= b <= 0x5f
  {
  }

  /** Each decoder finds what its header announces if the header is not misread, and otherwise nothing, or
      something else or elsewhere. */
  lemma DecoderFinds(m: Memory, caplen: nat, at: nat, l: Layer, next: Protocol, stated: int, noted: u64)
    requires Carries(m, caplen, at, l, next, stated)
    ensures if Misread(m, caplen, at, l, noted) then Strays(m, caplen, at, l, next, noted)
      else Finds(m, caplen, at, l, next, noted)
  {
    match l.proto
    case Gre => GreFinds(m, caplen, at, l, next, stated, noted);
    case Ipv4 => Ipv4Finds(m, caplen, at, l, next, stated, noted);
    case Ipv6 => Ipv6Finds(m, caplen, at, l, next, stated, noted);
    case Udp => TransportFinds(m, caplen, at, l, next, stated, noted);
    case Tcp => TransportFinds(m, caplen, at, l, next, stated, noted);
    case Gtp => GtpFinds(m, caplen, at, l, next, stated, noted);
    case _ => LinkFinds(m, caplen, at, l, next, stated, noted);
  }

  // -- The walk --

  /** The walk stands at the first of the layers, `hs` being the headers it will meet after it. */
  ghost predicate OnStack(m: Memory, caplen: nat, h: Chunk, ls: seq<Layer>, at: nat, stated: int, hs: seq<Header>) {
    match h case Chunk(protocol, ptr, _, _) =>
      && Sound(m, caplen, h) && MarkedExactly(m, caplen, h) && hs == Headers(m, caplen, h)
      && ptr == Some(at) && Stacked(m, caplen, at, ls, stated) && protocol == ls[0].proto
  }

  lemma StackStep(m: Memory, caplen: nat, h: Chunk, l: Layer, next: Protocol)
    requires Sound(m, caplen, h) && MarkedExactly(m, caplen, h) && h.ptr.Some? && h.protocol == l.proto
    requires Finds(m, caplen, h.ptr.value, l, next, h.plen) && h.ptr.value + l.size <= caplen
    requires next.Gtp? ==> GtpSupported(m, h.ptr.value + l.size)
    ensures var (n, o) := Walk(m, caplen, h);
      && o.More? && n.protocol == next && n.ptr == Some(h.ptr.value + l.size) && MarkedExactly(m, caplen, n)
      && n.plen == Noted(m, h.ptr.value, l, h.plen)
  {
  }

  lemma StrayStep(m: Memory, caplen: nat, h: Chunk, l: Layer, next: Protocol)
    requires Sound(m, caplen, h) && MarkedExactly(m, caplen, h) && h.ptr.Some? && h.protocol == l.proto
    requires Strays(m, caplen, h.ptr.value, l, next, h.plen) && h.ptr.value + l.size <= caplen
    ensures var (n, o) := Walk(m, caplen, h);
      o.More? ==> n.ptr.Some? && Header(n.protocol, n.ptr.value) != Header(next, h.ptr.value + l.size)
  {
  }

  /** One step goes to the next layer. */
  lemma Unwrap(m: Memory, caplen: nat, h: Chunk, ls: seq<Layer>, at: nat, stated: int, hs: seq<Header>)
    returns (n: Chunk, rest: seq<Header>)
    requires OnStack(m, caplen, h, ls, at, stated, hs) && |ls| > 1 && !Misread(m, caplen, at, ls[0], h.plen)
    ensures OnStack(m, caplen, n, ls[1..], at + ls[0].size, Stated(m, at, ls[0], stated), rest)
    ensures n.plen == Noted(m, at, ls[0], h.plen) && hs == [Header(ls[1].proto, at + ls[0].size)] + rest
  {
    assert Stacked(m, caplen, at + ls[0].size, ls[1..], Stated(m, at, ls[0], stated));
    DecoderFinds(m, caplen, at, ls[0], ls[1].proto, stated, h.plen);
    StackStep(m, caplen, h, ls[0], ls[1].proto);
    HeadersUnfold(m, caplen, h, []);
    n := Walk(m, caplen, h).0;
    rest := Headers(m, caplen, n);
  }

  /** A step from a misread header does not. */
  lemma Stray(m: Memory, caplen: nat, h: Chunk, ls: seq<Layer>, at: nat, stated: int, hs: seq<Header>)
    requires OnStack(m, caplen, h, ls, at, stated, hs) && |ls| > 1 && Misread(m, caplen, at, ls[0], h.plen)
    ensures hs == [] || hs[0] != Header(ls[1].proto, at + ls[0].size)
  {
    DecoderFinds(m, caplen, at, ls[0], ls[1].proto, stated, h.plen);
    StrayStep(m, caplen, h, ls[0], ls[1].proto);
    HeadersUnfold(m, caplen, h, []);
  }

  /** Where the walk is, on what layers, and what it will meet. */
  type Stage = (seq<Layer>, nat, seq<Header>) -> bool

  /** The next header met is that of the next layer. */
  ghost predicate MeetsNext(ls: seq<Layer>, at: nat, hs: seq<Header>) {
    |ls| > 1 && hs != [] && hs[0] == Header(ls[1].proto, at + ls[0].size)
  }

  /** The walk goes from layer to layer. */
  ghost predicate Descends(p: Stage) {
    forall ls: seq<Layer>, at: nat, hs: seq<Header> :: p(ls, at, hs) && |ls| > 1 ==>
      MeetsNext(ls, at, hs) && p(ls[1..], at + ls[0].size, hs[1..])
  }

  /** The walk goes from layer to layer at most, and always has further to go. */
  ghost predicate Departs(p: Stage) {
    forall ls: seq<Layer>, at: nat, hs: seq<Header> :: p(ls, at, hs) ==>
      |ls| > 1 && (MeetsNext(ls, at, hs) ==> p(ls[1..], at + ls[0].size, hs[1..]))
  }

  lemma {:induction false} DescendsPlaces(p: Stage, ls: seq<Layer>, at: nat, hs: seq<Header>)
    requires Descends(p) && p(ls, at, hs) && ls != []
    ensures Places(at + ls[0].size, ls[1..]) <= hs
    decreases |ls|
  {
    if |ls| > 1 {
      DescendsPlaces(p, ls[1..], at + ls[0].size, hs[1..]);
      PlacesPrefix(at + ls[0].size, ls[1..], hs[1..]);
      assert hs == [hs[0]] + hs[1..];
    }
  }

  /** After an innermost layer the walk meets nothing. */
  ghost predicate Ends(p: Stage) {
    forall ls: seq<Layer>, at: nat, hs: seq<Header> :: p(ls, at, hs) && |ls| == 1 && Innermost(ls[0].proto) ==> hs == []
  }

  lemma {:induction false} DescendsExactly(p: Stage, ls: seq<Layer>, at: nat, hs: seq<Header>)
    requires Descends(p) && Ends(p) && p(ls, at, hs) && ls != [] && Innermost(ls[|ls| - 1].proto)
    ensures hs == Places(at + ls[0].size, ls[1..])
    decreases |ls|
  {
    if |ls| > 1 {
      DescendsExactly(p, ls[1..], at + ls[0].size, hs[1..]);
      assert hs == [hs[0]] + hs[1..];
    }
  }

  lemma {:induction false} DepartsPlaces(p: Stage, ls: seq<Layer>, at: nat, hs: seq<Header>)
    requires Departs(p) && p(ls, at, hs) && ls != []
    ensures !(Places(at + ls[0].size, ls[1..]) <= hs)
    decreases |ls|
  {
    var places := Places(at + ls[0].size, ls[1..]);
    assert places[0] == Header(ls[1].proto, at + ls[0].size);
    if MeetsNext(ls, at, hs) {
      DepartsPlaces(p, ls[1..], at + ls[0].size, hs[1..]);
      PlacesPrefix(at + ls[0].size, ls[1..], hs[1..]);
      assert hs == [hs[0]] + hs[1..];
    }
  }

  /** On the stack, with no header to be misread, or with one. */
  ghost predicate OnCourse(m: Memory, caplen: nat, clean: bool, ls: seq<Layer>, at: nat, hs: seq<Header>) {
    exists h: Chunk, stated: int ::
      OnStack(m, caplen, h, ls, at, stated, hs) && (clean <==> NoneMisread(m, caplen, at, ls, h.plen))
  }

  lemma OnCourseStep(m: Memory, caplen: nat, clean: bool, ls: seq<Layer>, at: nat, hs: seq<Header>)
    requires OnCourse(m, caplen, clean, ls, at, hs)
    ensures !clean ==> |ls| > 1
    ensures |ls| > 1 && clean ==> MeetsNext(ls, at, hs)
    ensures MeetsNext(ls, at, hs) ==> OnCourse(m, caplen, clean, ls[1..], at + ls[0].size, hs[1..])
  {
    var h, stated :| OnStack(m, caplen, h, ls, at, stated, hs) && (clean <==> NoneMisread(m, caplen, at, ls, h.plen));
    if |ls| > 1 {
      if Misread(m, caplen, at, ls[0], h.plen) {
        Stray(m, caplen, h, ls, at, stated, hs);
      } else {
        var n, rest := Unwrap(m, caplen, h, ls, at, stated, hs);
        assert hs[1..] == rest;
      }
    }
  }

  ghost function Course(m: Memory, caplen: nat, clean: bool): Stage {
    (ls: seq<Layer>, at: nat, hs: seq<Header>) => OnCourse(m, caplen, clean, ls, at, hs)
  }

  lemma CourseDescends(m: Memory, caplen: nat)
    ensures Descends(Course(m, caplen, true))
  {
    var p := Course(m, caplen, true);
    forall ls: seq<Layer>, at: nat, hs: seq<Header> | p(ls, at, hs) && |ls| > 1
      ensures MeetsNext(ls, at, hs) && p(ls[1..], at + ls[0].size, hs[1..])
    {
      OnCourseStep(m, caplen, true, ls, at, hs);
    }
  }

  lemma CourseEndsInside(m: Memory, caplen: nat)
    ensures Ends(Course(m, caplen, true))
  {
    var p := Course(m, caplen, true);
    forall ls: seq<Layer>, at: nat, hs: seq<Header> | p(ls, at, hs) && |ls| == 1 && Innermost(ls[0].proto)
      ensures hs == []
    {
      var h, stated :| OnStack(m, caplen, h, ls, at, stated, hs);
      InnermostStops(m, caplen, h);
    }
  }

  lemma {:induction false} InnermostStops(m: Memory, caplen: nat, h: Chunk)
    requires Sound(m, caplen, h) && h.ptr.Some? && Innermost(h.protocol)
    ensures Headers(m, caplen, h) == []
  {
    WalkStep(m, caplen, h);
  }

  lemma CourseDeparts(m: Memory, caplen: nat)
    ensures Departs(Course(m, caplen, false))
  {
    var p := Course(m, caplen, false);
    forall ls: seq<Layer>, at: nat, hs: seq<Header> | p(ls, at, hs)
      ensures |ls| > 1 && (MeetsNext(ls, at, hs) ==> p(ls[1..], at + ls[0].size, hs[1..]))
    {
      OnCourseStep(m, caplen, false, ls, at, hs);
    }
  }

  lemma PlacesPrefix(at: nat, ls: seq<Layer>, hs: seq<Header>)
    requires ls != []
    ensures Places(at, ls) <= [Header(ls[0].proto, at)] + hs <==> Places(at + ls[0].size, ls[1..]) <= hs
  {
    var x, rest := Header(ls[0].proto, at), Places(at + ls[0].size, ls[1..]);
    assert ([x] + rest)[1..] == rest && ([x] + hs)[1..] == hs;
    if [x] + rest <= [x] + hs {
      assert forall i :: 0 <= i < |rest| ==> rest[i] == ([x] + rest)[i + 1] == ([x] + hs)[i + 1];
    }
  }

  /** For every stack of layers that starts with Ethernet, however deep, and every capture: the walk meets exactly
      the headers of the layers, in order and at their places, before anything else, if and only if no header
      is misread. If the last layer is one that carries no other, they are all it meets. */
  lemma {:induction false} StackRecovered(m: Memory, caplen: nat, ls: seq<Layer>)
    requires Stacked(m, caplen, 0, ls, 0) && ls[0].proto.Ethernet?
    ensures Places(0, ls) <= Headers(m, caplen, INIT) <==> NoneMisread(m, caplen, 0, ls, 0)
    ensures Innermost(ls[|ls| - 1].proto) ==>
      (Headers(m, caplen, INIT) == Places(0, ls) <==> NoneMisread(m, caplen, 0, ls, 0))
  {
    var clean, hs := WalkBegins(m, caplen, ls);
    WalkCourse(m, caplen, clean, ls, hs);
  }

  lemma {:induction false} WalkCourse(m: Memory, caplen: nat, clean: bool, ls: seq<Layer>, hs: seq<Header>)
    requires ls != [] && OnCourse(m, caplen, clean, ls, 0, hs)
    ensures var met := [Header(ls[0].proto, 0)] + hs;
      && (clean <==> Places(0, ls) <= met)
      && (Innermost(ls[|ls| - 1].proto) ==> (met == Places(0, ls) <==> clean))
  {
    CourseEnds(m, caplen, clean, ls, 0, hs);
    PlacesPrefix(0, ls, hs);
  }

  lemma {:induction false} CourseEnds(m: Memory, caplen: nat, clean: bool, ls: seq<Layer>, at: nat, hs: seq<Header>)
    requires ls != [] && OnCourse(m, caplen, clean, ls, at, hs)
    ensures clean <==> Places(at + ls[0].size, ls[1..]) <= hs
    ensures clean && Innermost(ls[|ls| - 1].proto) ==> hs == Places(at + ls[0].size, ls[1..])
  {
    if clean {
      CourseDescends(m, caplen);
      CourseEndsInside(m, caplen);
      if Innermost(ls[|ls| - 1].proto) {
        DescendsExactly(Course(m, caplen, true), ls, at, hs);
      }
      DescendsPlaces(Course(m, caplen, true), ls, at, hs);
    } else {
      CourseDeparts(m, caplen);
      DepartsPlaces(Course(m, caplen, false), ls, at, hs);
    }
  }

  lemma WalkBegins(m: Memory, caplen: nat, ls: seq<Layer>) returns (clean: bool, hs: seq<Header>)
    requires Stacked(m, caplen, 0, ls, 0) && ls[0].proto.Ethernet?
    ensures clean == NoneMisread(m, caplen, 0, ls, 0) && OnCourse(m, caplen, clean, ls, 0, hs)
    ensures Headers(m, caplen, INIT) == [Header(ls[0].proto, 0)] + hs
  {
    HeadersUnfold(m, caplen, INIT, []);
    var n := Walk(m, caplen, INIT).0;
    clean, hs := NoneMisread(m, caplen, 0, ls, 0), Headers(m, caplen, n);
    assert OnStack(m, caplen, n, ls, 0, 0, hs);
  }
}
