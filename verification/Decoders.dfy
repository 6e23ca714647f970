/** The protocol decoders: for each header its declared size and its `next_payload` callback, which
    names the next protocol and where it starts. Decoders read memory without regard to how much
    of it was captured. */
module Decoders {
  import opened Optional
  import opened Bytes

  datatype Protocol =
    | Unknown | Done | Data | Arp | Cdp | Dns | Ethernet | Gre | Gtp | Icmp | Igmp | Ipv4 | Ipv6 | Mpls
    | Ospf | Ptpv2 | Pw | Sctp | Stp | Tcp | Udp | Vlan

  /** protocol_init enters a descriptor for every type but the first. */
  predicate Registered(p: Protocol) { !p.Unknown? }

  /** What a callback returns: the next type and position (none for NULL), and the payload length
      noted by network headers. */
  datatype Decoded = Decoded(proto: Protocol, out: Option<nat>, plen: u64)

  /** limited_caplen for a position inside or after the packet. */
  predicate Limited(caplen: nat, ptr: nat, bytes: nat) {
    ptr + bytes > caplen
  }

  predicate Bit(b: byte, weight: nat)
    requires weight > 0
  {
    (b / weight) % 2 == 1
  }

  function EtherTypeNext(t: u16): Protocol {
    if t == 0x0806 then Arp
    else if t == 0x8100 then Vlan
    else if t == 0x0800 then Ipv4
    else if t == 0x86dd then Ipv6
    else if t == 0x8847 then Mpls
    else if t == 0x0026 then Stp
    else if t == 0x88F7 then Ptpv2
    else Data
  }

  function IpProtoNext(p: byte): Protocol {
    if p == 47 then Gre
    else if p == 1 then Icmp
    else if p == 2 then Igmp
    else if p == 4 then Ipv4
    else if p == 41 then Ipv6
    else if p == 89 then Ospf
    else if p == 6 then Tcp
    else if p == 17 then Udp
    else if p == 132 then Sctp
    else Data
  }

  /** The protocol announced by the first nibble of a payload. */
  function ByNibble(b: byte, zero: Protocol): Protocol {
    if b / 16 == 0 then zero else if b / 16 == 4 then Ipv4 else if b / 16 == 6 then Ipv6 else Data
  }

  datatype GtpVersion = V1 | V2 | Prime

  /** gtp_version and gtp_header_size abort on other versions and on extension headers. */
  predicate GtpSupported(m: Memory, ptr: nat) {
    var b := m(ptr);
    b / 32 == 2 || (b / 32 == 1 && !(Bit(b, 16) && Bit(b, 4)))
  }

  function GtpVersionOf(m: Memory, ptr: nat): GtpVersion
    requires GtpSupported(m, ptr)
  {
    if m(ptr) / 32 == 2 then V2 else if Bit(m(ptr), 16) then V1 else Prime
  }

  function GtpSize(m: Memory, ptr: nat): nat
    requires GtpSupported(m, ptr)
  {
    match GtpVersionOf(m, ptr)
    case V1 => if Bit(m(ptr), 2) || Bit(m(ptr), 1) then 12 else 8
    case V2 => if Bit(m(ptr), 8) then 8 else 4
    case Prime => 6
  }

  function GtpNext(m: Memory, ptr: nat, plen: u64): Decoded
    requires GtpSupported(m, ptr)
  {
    var payload := ptr + GtpSize(m, ptr);
    var proto :=
      if GtpVersionOf(m, ptr).V2? && Bit(m(ptr), 16) then Gtp
      else if m(ptr + 1) != 255 then Data
      else ByNibble(m(payload), Data);
    Decoded(proto, Some(payload), plen)
  }

  /** The extension headers of an IPv6 packet from `ptr` on: where the payload starts and its
      protocol, or nothing if the capture ends before. The one-byte length goes through ntohs. */
  function Ipv6Extensions(m: Memory, caplen: nat, ptr: nat): (r: Option<(nat, byte)>)
    ensures r.Some? ==> ptr + 8 <= r.value.0 <= caplen
    decreases caplen - ptr
  {
    var size := m(ptr + 1) * 0x100 * 8 + 8;
    if Limited(caplen, ptr, 2) || Limited(caplen, ptr, size) then None
    else if m(ptr) == 0 then Ipv6Extensions(m, caplen, ptr + size)
    else Some((ptr + size, m(ptr)))
  }

  const IPV6_HEADER := 40

  /** What ipv6_total_header_size finds; its length check is made from the start of the packet. */
  function Ipv6Payload(m: Memory, caplen: nat, ptr: nat): (r: Option<(nat, byte)>)
    ensures r.Some? ==> ptr + IPV6_HEADER <= r.value.0
  {
    if Limited(caplen, 0, IPV6_HEADER) then None
    else if m(ptr + 6) != 0 then Some((ptr + IPV6_HEADER, m(ptr + 6)))
    else Ipv6Extensions(m, caplen, ptr + IPV6_HEADER)
  }

  function Ipv6Next(m: Memory, caplen: nat, ptr: nat, plen: u64): Decoded {
    match Ipv6Payload(m, caplen, ptr)
    case None => Decoded(Done, None, plen)
    case Some((payload, proto)) =>
      var size := payload - ptr;
      Decoded(IpProtoNext(proto), Some(payload), (m(ptr + 4) + 0x100 * m(ptr + 5) + IPV6_HEADER - size) % U64)
  }

  function Ipv4Next(m: Memory, ptr: nat, plen: u64): Decoded {
    var hl := m(ptr) % 16;
    if hl < 5 then Decoded(Done, None, plen)
    else Decoded(IpProtoNext(m(ptr + 9)), Some(ptr + 4 * hl), (Be16(m, ptr + 2) - 4 * hl) % U64)
  }

  function GreNext(m: Memory, ptr: nat, plen: u64): Decoded {
    var b := m(ptr);
    var payload := ptr + 4
      + (if Bit(b, 128) || Bit(b, 64) then 4 else 0) + (if Bit(b, 32) then 4 else 0) + (if Bit(b, 16) then 4 else 0);
    Decoded(EtherTypeNext(Be16(m, ptr + 2)), Some(payload), plen)
  }

  function MplsNext(m: Memory, ptr: nat, plen: u64): Decoded {
    Decoded(if !Bit(m(ptr + 2), 1) then Mpls else ByNibble(m(ptr + 4), Pw), Some(ptr + 4), plen)
  }

  function UdpNext(m: Memory, ptr: nat, plen: u64): Decoded {
    var sport, dport := Be16(m, ptr), Be16(m, ptr + 2);
    var proto :=
      if sport == 53 || dport == 53 then Dns
      else if dport == 2152 || dport == 2123 then Gtp
      else if dport == 319 then Ptpv2
      else Data;
    Decoded(proto, Some(ptr + 8), plen)
  }

  function TcpNext(m: Memory, ptr: nat, plen: u64): Decoded {
    var size := 4 * (m(ptr + 12) / 16);
    if plen == size then Decoded(Done, Some(ptr + size), plen)
    else if Be16(m, ptr) == 53 || Be16(m, ptr + 2) == 53 then Decoded(Dns, Some(ptr + size + 2), plen)
    else Decoded(Data, Some(ptr + size), plen)
  }

  predicate HasNext(p: Protocol) {
    !(p.Unknown? || p.Done? || p.Data? || p.Dns?)
  }

  /** The next_payload callback of a protocol that has one. */
  function Next(p: Protocol, m: Memory, caplen: nat, ptr: nat, plen: u64): Decoded
    requires HasNext(p) && (p.Gtp? ==> GtpSupported(m, ptr))
  {
    match p
    case Ethernet => Decoded(EtherTypeNext(Be16(m, ptr + 12)), Some(ptr + 14), plen)
    case Vlan => Decoded(EtherTypeNext(Be16(m, ptr + 2)), Some(ptr + 4), plen)
    case Mpls => MplsNext(m, ptr, plen)
    case Pw => Decoded(Ethernet, Some(ptr + 4), plen)
    case Gre => GreNext(m, ptr, plen)
    case Ipv4 => Ipv4Next(m, ptr, plen)
    case Ipv6 => Ipv6Next(m, caplen, ptr, plen)
    case Udp => UdpNext(m, ptr, plen)
    case Tcp => TcpNext(m, ptr, plen)
    case Gtp => GtpNext(m, ptr, plen)
    case _ => Decoded(Done, Some(ptr), plen)
  }

  /** header_size. */
  function Size(p: Protocol, m: Memory, ptr: nat): nat
    requires p.Gtp? ==> GtpSupported(m, ptr)
  {
    match p
    case Ethernet => 14
    case Vlan => 4
    case Mpls => 4
    case Pw => 4
    case Gre => 4
    case Ipv4 => 20
    case Ipv6 => 20
    case Udp => 8
    case Tcp => 20
    case Gtp => GtpSize(m, ptr)
    case Dns => 12
    case Icmp => 8
    case Ptpv2 => 30
    case Sctp => 12
    case _ => 0
  }

  /** A header after which the walk never continues with another one. */
  predicate Last(p: Protocol) {
    !HasNext(p) || p.Arp? || p.Cdp? || p.Icmp? || p.Igmp? || p.Ospf? || p.Ptpv2? || p.Sctp? || p.Stp?
  }

  /** Every decoder moves on by at least four bytes, except TCP, after which the walk is over, and
      names a registered protocol. */
  lemma NextAdvances(p: Protocol, m: Memory, caplen: nat, ptr: nat, plen: u64)
    requires HasNext(p) && (p.Gtp? ==> GtpSupported(m, ptr))
    ensures var d := Next(p, m, caplen, ptr, plen);
      && Registered(d.proto)
      && (d.out.None? ==> d.proto.Done?)
      && (d.out.Some? ==> d.out.value >= ptr)
      && (!Last(d.proto) ==> d.out.Some? && d.out.value >= ptr + 4)
      && (Last(p) ==> d.proto.Done?)
  {
  }
}
