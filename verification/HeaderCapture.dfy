/** Whether the header walk depends on memory behind the capture. Three decoders look at the first byte of
    what follows their header, and when the capture ends there that byte is not part of it. */
module HeaderCapture {
  import opened Optional
  import opened Bytes
  import opened Decoders
  import opened HeaderWalk

  /** The header was captured in full and can be followed. */
  predicate Followed(m: Memory, caplen: nat, h: Header) {
    HasNext(h.protocol) && SizeKnown(h.protocol, m, h.at) && !Limited(caplen, h.at, Size(h.protocol, m, h.at))
  }

  /** The next header starts where the capture ends. */
  predicate AtEdge(m: Memory, caplen: nat, h: Header)
    requires Followed(m, caplen, h)
  {
    Next(h.protocol, m, caplen, h.at, 0).out == Some(caplen)
  }

  /** The bottom of an MPLS stack and a GTP user packet tell their payload by its first byte. */
  predicate Guesses(m: Memory, h: Header)
    requires h.protocol.Gtp? ==> GtpSupported(m, h.at)
  {
    || (h.protocol.Mpls? && Bit(m(h.at + 2), 1))
    || (h.protocol.Gtp? && !(GtpVersionOf(m, h.at).V2? && Bit(m(h.at), 16)) && m(h.at + 1) == 255)
  }

  /** The byte behind the capture makes no difference after the header: none is looked at, or in both
      memories it means the same. */
  predicate Harmless(m: Memory, k: Memory, caplen: nat, h: Header) {
    Followed(m, caplen, h) && AtEdge(m, caplen, h) ==>
      if Guesses(m, h) then
        var zero := if h.protocol.Mpls? then Pw else Data;
        ByNibble(m(caplen), zero) == ByNibble(k(caplen), zero)
      else Next(h.protocol, m, caplen, h.at, 0).proto.Gtp? ==> (GtpSupported(m, caplen) <==> GtpSupported(k, caplen))
  }

  /** The state of a walk that can be continued in either memory. */
  predicate Shared(m: Memory, k: Memory, caplen: nat, h: Chunk) {
    && Sound(m, caplen, h) && Sound(k, caplen, h) && MarkedExactly(m, caplen, h) && MarkedExactly(k, caplen, h)
    && h.ptr.Some?
  }

  lemma {:induction false} SameExtensions(m: Memory, k: Memory, caplen: nat, ptr: nat)
    requires Agree(m, k, caplen)
    ensures Ipv6Extensions(m, caplen, ptr) == Ipv6Extensions(k, caplen, ptr)
    decreases caplen - ptr
  {
    if ptr + 2 <= caplen {
      assert m(ptr) == k(ptr) && m(ptr + 1) == k(ptr + 1);
      var size := m(ptr + 1) * 0x100 * 8 + 8;
      if ptr + size <= caplen && m(ptr) == 0 {
        SameExtensions(m, k, caplen, ptr + size);
      }
    }
  }

  /** Decoders agree on where they go, and unless they guess, on what is there. */
  ghost predicate Alike(m: Memory, k: Memory, caplen: nat, h: Header, plen: u64)
    requires Followed(m, caplen, h) && Followed(k, caplen, h)
  {
    var d, e := Next(h.protocol, m, caplen, h.at, plen), Next(h.protocol, k, caplen, h.at, plen);
    && d.out == e.out && d.plen == e.plen
    && (!Guesses(m, h) || (d.out.Some? && d.out.value < caplen) ==> d.proto == e.proto)
    && (Guesses(m, h) && d.out == Some(caplen) ==>
          var zero := if h.protocol.Mpls? then Pw else Data;
          d.proto == ByNibble(m(caplen), zero) && e.proto == ByNibble(k(caplen), zero))
  }

  lemma SameGtp(m: Memory, k: Memory, caplen: nat, h: Header, plen: u64)
    requires Agree(m, k, caplen) && Followed(m, caplen, h) && Followed(k, caplen, h) && h.protocol.Gtp?
    ensures Alike(m, k, caplen, h, plen)
  {
    assert m(h.at) == k(h.at) && m(h.at + 1) == k(h.at + 1);
    var out := h.at + GtpSize(m, h.at);
    assert out < caplen ==> m(out) == k(out);
  }

  lemma SameLink(m: Memory, k: Memory, caplen: nat, h: Header, plen: u64)
    requires Agree(m, k, caplen) && Followed(m, caplen, h) && Followed(k, caplen, h)
    requires h.protocol in {Ethernet, Vlan, Mpls, Pw, Gre}
    ensures Alike(m, k, caplen, h, plen)
  {
  }

  lemma SameIp(m: Memory, k: Memory, caplen: nat, h: Header, plen: u64)
    requires Agree(m, k, caplen) && Followed(m, caplen, h) && Followed(k, caplen, h) && h.protocol in {Ipv4, Ipv6}
    ensures Alike(m, k, caplen, h, plen)
  {
    SameExtensions(m, k, caplen, h.at + IPV6_HEADER);
  }

  lemma SameTransport(m: Memory, k: Memory, caplen: nat, h: Header, plen: u64)
    requires Agree(m, k, caplen) && Followed(m, caplen, h) && Followed(k, caplen, h) && h.protocol in {Udp, Tcp}
    ensures Alike(m, k, caplen, h, plen)
  {
  }

  lemma SameNext(m: Memory, k: Memory, caplen: nat, h: Header, plen: u64)
    requires Agree(m, k, caplen) && Followed(m, caplen, h) && Followed(k, caplen, h)
    ensures Alike(m, k, caplen, h, plen)
  {
    if h.protocol.Gtp? {
      SameGtp(m, k, caplen, h, plen);
    } else if h.protocol in {Ipv4, Ipv6} {
      SameIp(m, k, caplen, h, plen);
    } else if h.protocol in {Udp, Tcp} {
      SameTransport(m, k, caplen, h, plen);
    } else if h.protocol in {Ethernet, Vlan, Mpls, Pw, Gre} {
      SameLink(m, k, caplen, h, plen);
    }
  }

  /** A harmless step is the same in both memories. */
  lemma SameWalk(m: Memory, k: Memory, caplen: nat, h: Chunk)
    requires Agree(m, k, caplen) && Shared(m, k, caplen, h) && Harmless(m, k, caplen, Header(h.protocol, h.ptr.value))
    ensures Walk(m, caplen, h) == Walk(k, caplen, h)
    ensures var (n, o) := Walk(m, caplen, h); o.More? ==> Shared(m, k, caplen, n)
  {
    EqualWalk(m, k, caplen, h);
    WalkStep(m, caplen, h);
    WalkStep(k, caplen, h);
    GtpStep(m, caplen, h);
    GtpStep(k, caplen, h);
  }

  lemma EqualWalk(m: Memory, k: Memory, caplen: nat, h: Chunk)
    requires Agree(m, k, caplen) && Shared(m, k, caplen, h) && Harmless(m, k, caplen, Header(h.protocol, h.ptr.value))
    ensures Walk(m, caplen, h) == Walk(k, caplen, h)
  {
    var x := Header(h.protocol, h.ptr.value);
    if Followed(m, caplen, x) {
      SameNext(m, k, caplen, x, h.plen);
      OutIgnoresLength(h.protocol, m, caplen, h.ptr.value, h.plen);
      var d, e := Next(h.protocol, m, caplen, h.ptr.value, h.plen), Next(h.protocol, k, caplen, h.ptr.value, h.plen);
      if d.out.Some? && d.out.value <= caplen {
        assert d.proto == e.proto;
        SameSize(m, k, caplen, d.proto, d.out.value);
      }
    }
  }

  lemma SameSize(m: Memory, k: Memory, caplen: nat, p: Protocol, at: nat)
    requires Agree(m, k, caplen) && at <= caplen
    requires p.Gtp? && at == caplen ==> (GtpSupported(m, at) <==> GtpSupported(k, at))
    ensures SizeKnown(p, m, at) <==> SizeKnown(p, k, at)
    ensures SizeKnown(p, m, at) ==> (Limited(caplen, at, Size(p, m, at)) <==> Limited(caplen, at, Size(p, k, at)))
  {
    assert at < caplen ==> m(at) == k(at);
  }

  lemma OutIgnoresLength(p: Protocol, m: Memory, caplen: nat, ptr: nat, plen: u64)
    requires HasNext(p) && SizeKnown(p, m, ptr)
    ensures var d, e := Next(p, m, caplen, ptr, plen), Next(p, m, caplen, ptr, 0);
      (!p.Tcp? ==> d.out == e.out && d.proto == e.proto) && (p.Tcp? ==> !d.proto.Gtp? && !e.proto.Gtp?)
  {
  }

  /** Two protocols told apart by the byte behind the capture are both met there. */
  lemma {:induction false} MetAtEdge(m: Memory, caplen: nat, h: Chunk, proto: Protocol)
    requires Sound(m, caplen, h) && h.ptr.Some? && !h.truncated && HasNext(h.protocol)
    requires Next(h.protocol, m, caplen, h.ptr.value, h.plen).out == Some(caplen)
    requires Next(h.protocol, m, caplen, h.ptr.value, h.plen).proto == proto && !proto.Done? && !proto.Unknown?
    ensures var hs := Headers(m, caplen, h);
      if SizeKnown(proto, m, caplen) then hs != [] && hs[0] == Header(proto, caplen) else hs == []
  {
    HeadersUnfold(m, caplen, h, []);
  }

  /** A step that is not leads to different headers. */
  lemma {:induction false} OtherHeaders(m: Memory, k: Memory, caplen: nat, h: Chunk)
    requires Agree(m, k, caplen) && Shared(m, k, caplen, h) && !Harmless(m, k, caplen, Header(h.protocol, h.ptr.value))
    ensures Headers(m, caplen, h) != Headers(k, caplen, h)
  {
    var x := Header(h.protocol, h.ptr.value);
    SameNext(m, k, caplen, x, h.plen);
    OutIgnoresLength(h.protocol, m, caplen, h.ptr.value, h.plen);
    MetAtEdge(m, caplen, h, Next(h.protocol, m, caplen, h.ptr.value, h.plen).proto);
    MetAtEdge(k, caplen, h, Next(h.protocol, k, caplen, h.ptr.value, h.plen).proto);
  }

  ghost predicate AllHarmless(m: Memory, k: Memory, caplen: nat, hs: seq<Header>) {
    forall i :: 0 <= i < |hs| ==> Harmless(m, k, caplen, hs[i])
  }

  lemma {:induction false} SameFrom(m: Memory, k: Memory, caplen: nat, h: Chunk)
    requires Agree(m, k, caplen) && Shared(m, k, caplen, h)
    ensures Headers(m, caplen, h) == Headers(k, caplen, h) <==>
      AllHarmless(m, k, caplen, [Header(h.protocol, h.ptr.value)] + Headers(m, caplen, h))
    decreases Budget(caplen, h)
  {
    var x, hs := Header(h.protocol, h.ptr.value), Headers(m, caplen, h);
    HarmlessCons(m, k, caplen, x, hs);
    if Harmless(m, k, caplen, x) {
      SameWalk(m, k, caplen, h);
      HeadersUnfold(m, caplen, h, []);
      HeadersUnfold(k, caplen, h, []);
      var (n, o) := Walk(m, caplen, h);
      if o.More? {
        BudgetShrinks(m, caplen, h);
        SameFrom(m, k, caplen, n);
        Peel(Header(n.protocol, n.ptr.value), Headers(m, caplen, n), Headers(k, caplen, n));
      }
    } else {
      OtherHeaders(m, k, caplen, h);
    }
  }

  lemma HarmlessCons(m: Memory, k: Memory, caplen: nat, x: Header, hs: seq<Header>)
    ensures AllHarmless(m, k, caplen, [x] + hs) <==> Harmless(m, k, caplen, x) && AllHarmless(m, k, caplen, hs)
  {
    assert ([x] + hs)[0] == x && forall i :: 0 <= i < |hs| ==> ([x] + hs)[i + 1] == hs[i];
  }

  lemma Peel(x: Header, a: seq<Header>, b: seq<Header>)
    ensures [x] + a == [x] + b <==> a == b
  {
    assert ([x] + a)[1..] == a && ([x] + b)[1..] == b;
  }

  /** Two memories that agree on the capture give the same headers if and only if, after every header met,
      the byte behind the capture is not looked at or means the same in both. */
  lemma {:induction false} CaptureDecides(m: Memory, k: Memory, caplen: nat)
    requires Agree(m, k, caplen)
    ensures Headers(m, caplen, INIT) == Headers(k, caplen, INIT) <==>
      AllHarmless(m, k, caplen, Headers(m, caplen, INIT))
  {
    HeadersUnfold(m, caplen, INIT, []);
    HeadersUnfold(k, caplen, INIT, []);
    var n := Walk(m, caplen, INIT).0;
    SameFrom(m, k, caplen, n);
    Peel(Header(Ethernet, 0), Headers(m, caplen, n), Headers(k, caplen, n));
  }
}
