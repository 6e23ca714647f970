/** IPv6 packets with hop-by-hop options: where section 4.3 of RFC 8200 puts the payload, and when the
    decoder finds it there. The standard counts a length in units of eight bytes after the first eight; the
    decoder converts the one-byte length as if it were two bytes in network order. */
module Ipv6Chains {
  import opened Optional
  import opened Bytes
  import opened Decoders

  /** The end of the chain of options headers from `ptr` on, and the protocol after it. */
  function ChainEnd(m: Memory, caplen: nat, ptr: nat): (r: Option<(nat, byte)>)
    ensures r.Some? ==> ptr + 8 <= r.value.0 <= caplen
    decreases caplen - ptr
  {
    var size := 8 * (m(ptr + 1) + 1);
    if ptr + 2 > caplen || ptr + size > caplen then None
    else if m(ptr) == 0 then ChainEnd(m, caplen, ptr + size)
    else Some((ptr + size, m(ptr)))
  }

  /** The payload of the packet at `ptr` and its protocol, if the headers were captured. */
  function Payload8200(m: Memory, caplen: nat, ptr: nat): (r: Option<(nat, byte)>)
    ensures r.Some? ==> ptr + IPV6_HEADER <= r.value.0 <= caplen
  {
    if ptr + IPV6_HEADER > caplen then None
    else if m(ptr + 6) != 0 then Some((ptr + IPV6_HEADER, m(ptr + 6)))
    else ChainEnd(m, caplen, ptr + IPV6_HEADER)
  }

  /** All options headers of the chain that were captured are eight bytes long. */
  predicate ZeroLengths(m: Memory, caplen: nat, ptr: nat)
    decreases caplen - ptr
  {
    ptr + 8 <= caplen ==> m(ptr + 1) == 0 && (m(ptr) == 0 ==> ZeroLengths(m, caplen, ptr + 8))
  }

  lemma {:induction false} ZeroLengthsAgree(m: Memory, caplen: nat, ptr: nat)
    requires ZeroLengths(m, caplen, ptr)
    ensures Ipv6Extensions(m, caplen, ptr) == ChainEnd(m, caplen, ptr)
    decreases caplen - ptr
  {
    if ptr + 8 <= caplen && m(ptr) == 0 {
      ZeroLengthsAgree(m, caplen, ptr + 8);
    }
  }

  /** The least size the decoder gives a longer header. */
  const LONG := 2056

  lemma {:induction false} LongerIsLost(m: Memory, caplen: nat, ptr: nat)
    requires !ZeroLengths(m, caplen, ptr) && caplen < ptr + LONG
    ensures Ipv6Extensions(m, caplen, ptr) == None
    decreases caplen - ptr
  {
    if m(ptr + 1) == 0 {
      LongerIsLost(m, caplen, ptr + 8);
    }
  }

  /** The decoder agrees with the standard, for every packet: without options exactly if the header was captured,
      or if fewer than 40 bytes were; with options if all of their lengths are zero or they are cut off before
      a longer one, and, unless they could run to 2056 bytes, only then. */
  lemma {:induction false} PayloadIff(m: Memory, caplen: nat, ptr: nat)
    ensures var agree := Ipv6Payload(m, caplen, ptr) == Payload8200(m, caplen, ptr); var ext := ptr + IPV6_HEADER;
      && (m(ptr + 6) != 0 ==> (agree <==> caplen < IPV6_HEADER || ext <= caplen))
      && (m(ptr + 6) == 0 && ZeroLengths(m, caplen, ext) ==> agree)
      && (m(ptr + 6) == 0 && caplen < ext + LONG ==>
            (agree <==> Payload8200(m, caplen, ptr).None? || ZeroLengths(m, caplen, ext)))
  {
    ChainsCompared(m, caplen, ptr + IPV6_HEADER);
  }

  lemma {:induction false} ChainsCompared(m: Memory, caplen: nat, ext: nat)
    ensures ZeroLengths(m, caplen, ext) ==> Ipv6Extensions(m, caplen, ext) == ChainEnd(m, caplen, ext)
    ensures !ZeroLengths(m, caplen, ext) && caplen < ext + LONG ==> Ipv6Extensions(m, caplen, ext) == None
  {
    if ZeroLengths(m, caplen, ext) {
      ZeroLengthsAgree(m, caplen, ext);
    } else if caplen < ext + LONG {
      LongerIsLost(m, caplen, ext);
    }
  }

  /** ipv6_total_header_size: what it finds, and when that is what the standard says. */
  method Ipv6TotalHeaderSize(m: Memory, caplen: nat, ptr: nat) returns (size: nat, payload: Option<nat>, proto: byte)
    ensures Ipv6Payload(m, caplen, ptr) == if payload.None? then None else Some((payload.value, proto))
    ensures payload.Some? ==> payload.value == ptr + size
    ensures m(ptr + 6) == 0 && ZeroLengths(m, caplen, ptr + IPV6_HEADER) && ptr + IPV6_HEADER <= caplen ==>
      Payload8200(m, caplen, ptr) == if payload.None? then None else Some((payload.value, proto))
    ensures m(ptr + 6) == 0 && !ZeroLengths(m, caplen, ptr + IPV6_HEADER) && caplen < ptr + IPV6_HEADER + LONG ==>
      payload.None?
  {
    ChainsCompared(m, caplen, ptr + IPV6_HEADER);
    payload, proto, size := None, 0, IPV6_HEADER;
    if Limited(caplen, 0, IPV6_HEADER) {
      return 0, None, 0;
    }
    if m(ptr + 6) != 0 {
      return size, Some(ptr + IPV6_HEADER), m(ptr + 6);
    }
    var cur, next := ptr + IPV6_HEADER, 0;
    while next == 0
      invariant cur == ptr + size
      invariant Ipv6Payload(m, caplen, ptr) == if next == 0 then Ipv6Extensions(m, caplen, cur) else Some((cur, next))
      decreases next == 0, caplen - cur
    {
      if Limited(caplen, cur, 2) {
        return;
      }
      var step := m(cur + 1) * 0x100 * 8 + 8;
      if Limited(caplen, cur, step) {
        return;
      }
      next := m(cur);
      size, cur := size + step, cur + step;
    }
    payload, proto := Some(cur), next;
  }

  /** With a single options header this is so for packets of any length. */
  lemma SingleOptionIff(m: Memory, caplen: nat, ptr: nat)
    requires ptr + IPV6_HEADER <= caplen && m(ptr + 6) == 0 && m(ptr + 40) != 0
    ensures Ipv6Payload(m, caplen, ptr) == Payload8200(m, caplen, ptr) <==>
      Payload8200(m, caplen, ptr).None? || m(ptr + 41) == 0
  {
  }

  /** A packet with an options header of sixteen bytes, captured whole. */
  lemma LengthMisread()
    ensures var m: Memory := i => if i == 40 then 17 else if i == 41 then 1 else 0;
      Payload8200(m, 100, 0) == Some((56, 17)) && Ipv6Payload(m, 100, 0) == None
  {
  }

  /** In longer packets two wrong lengths can make up for each other: sixteen and 2040 bytes end where the
      decoder ends the first header. */
  lemma LongCoincidence()
    ensures var m: Memory := i => if i == 41 then 1 else if i == 57 then 254 else if i == 2096 then 17 else 0;
      && !ZeroLengths(m, 2104, IPV6_HEADER)
      && Payload8200(m, 2104, 0) == Some((2104, 17)) && Ipv6Payload(m, 2104, 0) == Payload8200(m, 2104, 0)
  {
    var m: Memory := i => if i == 41 then 1 else if i == 57 then 254 else if i == 2096 then 17 else 0;
    assert ChainEnd(m, 2104, 2096) == Some((2104, 17)) && Ipv6Extensions(m, 2104, 2096) == Some((2104, 17));
    assert ChainEnd(m, 2104, 56) == ChainEnd(m, 2104, 2096);
  }
}
