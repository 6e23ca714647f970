/** The header walk of src/packet.c: from the Ethernet header on, each decoder names the next header
    until one has no successor or the capture ends. */
module HeaderWalk {
  import opened Optional
  import opened Bytes
  import opened Decoders

  /** The aborts of the walk: an unregistered protocol, a pointer outside the packet, and a GTP
      header of a kind the decoder does not handle. */
  datatype Abort = Unregistered | BadPointer | BadGtp

  datatype Outcome = More | Stop | Aborted(why: Abort)

  /** The part of struct header_chunk that changes; `ptr` is none for NULL. */
  datatype Chunk = Chunk(protocol: Protocol, ptr: Option<nat>, truncated: bool, plen: u64)

  /** header_init. */
  const INIT := Chunk(Unknown, None, false, 0)

  predicate SizeKnown(p: Protocol, m: Memory, ptr: nat) {
    p.Gtp? ==> GtpSupported(m, ptr)
  }

  /** The current header lies inside the packet, and unless it is marked as truncated, so does
      everything its decoder declares to need. */
  predicate Sound(m: Memory, caplen: nat, h: Chunk) {
    h.ptr.Some? ==>
      && h.ptr.value <= caplen && Registered(h.protocol) && SizeKnown(h.protocol, m, h.ptr.value)
      && (h.truncated || !Limited(caplen, h.ptr.value, Size(h.protocol, m, h.ptr.value)))
  }

  /** next_payload and header_walk. */
  function Advance(m: Memory, caplen: nat, h: Chunk): (r: (Chunk, Outcome))
    requires h.ptr.Some? && SizeKnown(h.protocol, m, h.ptr.value)
  {
    if !HasNext(h.protocol) || h.truncated then (h, Stop) else
      var d := Next(h.protocol, m, caplen, h.ptr.value, h.plen);
      if !Registered(d.proto) then (h, Aborted(Unregistered))
      else if d.out.None? || Limited(caplen, d.out.value, 0) then (Chunk(d.proto, None, true, d.plen), Stop)
      else if d.out.value > caplen then (h, Aborted(BadPointer))
      else if !SizeKnown(d.proto, m, d.out.value) then (h, Aborted(BadGtp))
      else
        var cut := Limited(caplen, d.out.value, Size(d.proto, m, d.out.value));
        (Chunk(d.proto, d.out, cut, d.plen), if d.proto.Unknown? || d.proto.Done? then Stop else More)
  }

  function Walk(m: Memory, caplen: nat, h: Chunk): (r: (Chunk, Outcome))
    requires Sound(m, caplen, h)
  {
    if h.ptr.None? then (Chunk(Ethernet, Some(0), h.truncated || Limited(caplen, 0, 14), h.plen), More)
    else Advance(m, caplen, h)
  }

  /** Every step of the walk keeps the current header inside the packet, never reaches the pointer
      and registration aborts, and between headers that can be followed moves on by four bytes at
      least; a decoder's callback only runs on a header that was captured in full. */
  lemma WalkStep(m: Memory, caplen: nat, h: Chunk)
    requires Sound(m, caplen, h)
    ensures var (n, o) := Walk(m, caplen, h);
      && Sound(m, caplen, n)
      && o != Aborted(Unregistered) && o != Aborted(BadPointer)
      && (o.More? ==> n.ptr.Some?)
      && (o.More? && h.ptr.Some? ==>
            && !Last(h.protocol) && !Limited(caplen, h.ptr.value, Size(h.protocol, m, h.ptr.value))
            && n.ptr.value >= h.ptr.value + (if Last(n.protocol) then 0 else 4))
  {
    if h.ptr.Some? && HasNext(h.protocol) {
      NextAdvances(h.protocol, m, caplen, h.ptr.value, h.plen);
    }
  }

  class HeaderChunk {
    const packet: Memory
    const caplen: nat
    var protocol: Protocol
    var ptr: Option<nat>
    var truncated: bool
    var plen: u64

    ghost function State(): Chunk
      reads this
    {
      Chunk(protocol, ptr, truncated, plen)
    }

    ghost predicate Valid()
      reads this
    {
      Sound(packet, caplen, State())
    }

    constructor (packet: Memory, caplen: nat)
      ensures this.packet == packet && this.caplen == caplen && State() == INIT && Valid()
    {
      this.packet, this.caplen := packet, caplen;
      protocol, ptr, truncated, plen := Unknown, None, false, 0;
    }

    /** header_walk. */
    method HeaderWalk() returns (o: Outcome)
      requires Valid()
      modifies this
      ensures Valid() && (State(), o) == Walk(packet, caplen, old(State()))
    {
      WalkStep(packet, caplen, State());
      if ptr.None? {
        protocol, ptr := Ethernet, Some(0);
        if Limited(caplen, 0, 14) {
          truncated := true;
        }
        return More;
      }
      o := NextPayload();
    }

    /** next_payload. */
    method NextPayload() returns (o: Outcome)
      requires Valid() && ptr.Some?
      modifies this
      ensures (State(), o) == Advance(packet, caplen, old(State()))
    {
      if !HasNext(protocol) || truncated {
        return Stop;
      }
      var d := Next(protocol, packet, caplen, ptr.value, plen);
      if !Registered(d.proto) {
        return Aborted(Unregistered);
      }
      if d.out.None? || Limited(caplen, d.out.value, 0) {
        protocol, ptr, truncated, plen := d.proto, None, true, d.plen;
        return Stop;
      }
      if !SizeKnown(d.proto, packet, d.out.value) {
        return Aborted(BadGtp);
      }
      protocol, ptr, plen := d.proto, d.out, d.plen;
      if Limited(caplen, d.out.value, Size(protocol, packet, d.out.value)) {
        truncated := true;
      }
      return if protocol.Unknown? || protocol.Done? then Stop else More;
    }
  }

  /** A header the walk stopped at. */
  datatype Header = Header(protocol: Protocol, at: nat)

  /** Steps that can still follow. */
  function Budget(caplen: nat, h: Chunk): nat {
    if h.ptr.None? then caplen / 4 + 2
    else if Last(h.protocol) || h.ptr.value > caplen then 0
    else (caplen - h.ptr.value) / 4 + 1
  }

  lemma BudgetShrinks(m: Memory, caplen: nat, h: Chunk)
    requires Sound(m, caplen, h) && Walk(m, caplen, h).1.More?
    ensures Sound(m, caplen, Walk(m, caplen, h).0) && Budget(caplen, Walk(m, caplen, h).0) < Budget(caplen, h)
  {
    WalkStep(m, caplen, h);
  }

  /** The headers of a packet, in the order `while ( header_walk(&header) )` meets them. */
  function Headers(m: Memory, caplen: nat, h: Chunk): (hs: seq<Header>)
    requires Sound(m, caplen, h)
    ensures |hs| <= Budget(caplen, h)
    decreases Budget(caplen, h)
  {
    var (n, o) := Walk(m, caplen, h);
    if !o.More? then [] else
      WalkStep(m, caplen, h);
      BudgetShrinks(m, caplen, h);
      [Header(n.protocol, n.ptr.value)] + Headers(m, caplen, n)
  }

  /** The whole walk: it stops after at most a quarter of the captured bytes and two headers; all
      headers start inside the packet; every one that is followed was captured in full and is left
      behind by four bytes or, for the last header, not backwards. */
  lemma {:induction false} HeadersSound(m: Memory, caplen: nat, h: Chunk)
    requires Sound(m, caplen, h)
    ensures var hs := Headers(m, caplen, h);
      && |hs| <= caplen / 4 + 2
      && (forall i :: 0 <= i < |hs| ==> hs[i].at <= caplen && Registered(hs[i].protocol))
      && (forall i :: 0 < i < |hs| ==> Follows(m, caplen, hs[i - 1], hs[i]))
      && (hs != [] && h.ptr.Some? ==> Follows(m, caplen, Header(h.protocol, h.ptr.value), hs[0]))
    decreases Budget(caplen, h)
  {
    var (n, o) := Walk(m, caplen, h);
    if o.More? {
      WalkStep(m, caplen, h);
      BudgetShrinks(m, caplen, h);
      HeadersSound(m, caplen, n);
      var hs := Headers(m, caplen, h);
      assert hs[1..] == Headers(m, caplen, n);
      assert forall i :: 0 <= i < |hs| - 1 ==> hs[1..][i] == hs[i + 1];
    }
  }

  predicate Follows(m: Memory, caplen: nat, a: Header, b: Header) {
    && SizeKnown(a.protocol, m, a.at) && !Limited(caplen, a.at, Size(a.protocol, m, a.at))
    && !Last(a.protocol) && b.at >= a.at + (if Last(b.protocol) then 0 else 4)
  }

  /** The header, captured in full, is followed by a GTP header of a version or with an extension the
      decoder does not know. */
  predicate LeadsToBadGtp(m: Memory, caplen: nat, h: Header) {
    && HasNext(h.protocol) && SizeKnown(h.protocol, m, h.at) && !Limited(caplen, h.at, Size(h.protocol, m, h.at))
    && var d := Next(h.protocol, m, caplen, h.at, 0);
    && d.proto.Gtp? && d.out.Some? && d.out.value <= caplen && !GtpSupported(m, d.out.value)
  }

  /** The mark says exactly whether the current header was cut off. */
  predicate MarkedExactly(m: Memory, caplen: nat, h: Chunk) {
    match h.ptr
    case None => !h.truncated
    case Some(at) => SizeKnown(h.protocol, m, at) && (h.truncated <==> Limited(caplen, at, Size(h.protocol, m, at)))
  }

  /** Whether GTP follows does not depend on the payload length noted. */
  lemma GtpIgnoresLength(p: Protocol, m: Memory, caplen: nat, ptr: nat, plen: u64)
    requires HasNext(p) && SizeKnown(p, m, ptr)
    ensures var d, e := Next(p, m, caplen, ptr, plen), Next(p, m, caplen, ptr, 0);
      (d.proto.Gtp? <==> e.proto.Gtp?) && (d.proto.Gtp? ==> d.out == e.out)
  {
  }

  lemma GtpStep(m: Memory, caplen: nat, h: Chunk)
    requires Sound(m, caplen, h) && MarkedExactly(m, caplen, h)
    ensures var (n, o) := Walk(m, caplen, h);
      && (o.More? ==> MarkedExactly(m, caplen, n))
      && (o == Aborted(BadGtp) <==> h.ptr.Some? && LeadsToBadGtp(m, caplen, Header(h.protocol, h.ptr.value)))
  {
    if h.ptr.Some? && HasNext(h.protocol) {
      NextAdvances(h.protocol, m, caplen, h.ptr.value, h.plen);
      GtpIgnoresLength(h.protocol, m, caplen, h.ptr.value, h.plen);
    }
  }

  /** The state after a last header, if any, has been met. */
  ghost predicate At(h: Chunk, hs: seq<Header>) {
    if hs == [] then h.ptr.None? else h.ptr.Some? && hs[|hs| - 1] == Header(h.protocol, h.ptr.value)
  }

  ghost predicate NoBadGtp(m: Memory, caplen: nat, hs: seq<Header>) {
    forall i :: 0 <= i < |hs| ==> !LeadsToBadGtp(m, caplen, hs[i])
  }

  /** The walk of a packet so far: the headers met, and the verdict on them once it is over. */
  ghost predicate Progress(m: Memory, caplen: nat, h: Chunk, hs: seq<Header>, last: Outcome)
    requires Sound(m, caplen, h)
  {
    match last
    case More =>
      && MarkedExactly(m, caplen, h) && At(h, hs) && (hs != [] ==> NoBadGtp(m, caplen, hs[..|hs| - 1]))
      && Headers(m, caplen, INIT) == hs + Headers(m, caplen, h)
    case Stop => NoBadGtp(m, caplen, hs) && Headers(m, caplen, INIT) == hs
    case Aborted(why) => why == BadGtp && !NoBadGtp(m, caplen, hs) && Headers(m, caplen, INIT) == hs
  }

  /** The headers met after a step. */
  function Met(hs: seq<Header>, n: Chunk, o: Outcome): seq<Header> {
    if o.More? && n.ptr.Some? then hs + [Header(n.protocol, n.ptr.value)] else hs
  }

  lemma ProgressStep(m: Memory, caplen: nat, h: Chunk, hs: seq<Header>)
    requires Sound(m, caplen, h) && Progress(m, caplen, h, hs, More)
    ensures var (n, o) := Walk(m, caplen, h);
      Sound(m, caplen, n) && Progress(m, caplen, n, Met(hs, n, o), o) && (o.More? ==> n.ptr.Some?)
  {
    WalkStep(m, caplen, h);
    GtpVerdict(m, caplen, h, hs);
    HeadersUnfold(m, caplen, h, hs);
    var (n, o) := Walk(m, caplen, h);
    assert o.More? ==> Met(hs, n, o)[..|hs|] == hs;
  }

  /** A step decides on the last header met. */
  lemma GtpVerdict(m: Memory, caplen: nat, h: Chunk, hs: seq<Header>)
    requires Sound(m, caplen, h) && MarkedExactly(m, caplen, h) && At(h, hs)
    requires hs != [] ==> NoBadGtp(m, caplen, hs[..|hs| - 1])
    ensures var (n, o) := Walk(m, caplen, h);
      (o.More? ==> MarkedExactly(m, caplen, n)) && (o == Aborted(BadGtp) <==> !NoBadGtp(m, caplen, hs))
  {
    GtpStep(m, caplen, h);
    if hs != [] {
      var before, last := hs[..|hs| - 1], hs[|hs| - 1];
      assert hs == before + [last];
      BadGtpSnoc(m, caplen, before, last);
    }
  }

  lemma {:induction false} HeadersUnfold(m: Memory, caplen: nat, h: Chunk, hs: seq<Header>)
    requires Sound(m, caplen, h)
    ensures var (n, o) := Walk(m, caplen, h);
      && Sound(m, caplen, n)
      && hs + Headers(m, caplen, h) == Met(hs, n, o) + (if o.More? then Headers(m, caplen, n) else [])
  {
    WalkStep(m, caplen, h);
    var (n, o) := Walk(m, caplen, h);
    if o.More? {
      BudgetShrinks(m, caplen, h);
      assert Headers(m, caplen, h) == [Header(n.protocol, n.ptr.value)] + Headers(m, caplen, n);
    } else {
      assert Headers(m, caplen, h) == [];
    }
  }

  lemma BadGtpSnoc(m: Memory, caplen: nat, hs: seq<Header>, h: Header)
    ensures NoBadGtp(m, caplen, hs + [h]) <==> NoBadGtp(m, caplen, hs) && !LeadsToBadGtp(m, caplen, h)
  {
    assert (hs + [h])[|hs|] == h;
    assert forall i :: 0 <= i < |hs| ==> (hs + [h])[i] == hs[i];
  }

  /** `while ( header_walk(&header) )` terminates on every packet. Its only abort is the GTP
      decoder's, and it happens exactly when one of the headers met leads to a GTP header of a kind
      the decoder does not know. */
  method WalkPacket(packet: Memory, caplen: nat) returns (hs: seq<Header>, last: Outcome)
    ensures hs == Headers(packet, caplen, INIT)
    ensures last == Stop || last == Aborted(BadGtp)
    ensures last == Stop <==> NoBadGtp(packet, caplen, hs)
  {
    var header := new HeaderChunk(packet, caplen);
    hs, last := [], More;
    while last.More?
      invariant header.packet == packet && header.caplen == caplen && fresh(header) && header.Valid()
      invariant Progress(packet, caplen, header.State(), hs, last)
      decreases last.More?, Budget(caplen, header.State())
    {
      ghost var h := header.State();
      ProgressStep(packet, caplen, h, hs);
      last := header.HeaderWalk();
      if last.More? {
        BudgetShrinks(packet, caplen, h);
        hs := hs + [Header(header.protocol, header.ptr.value)];
      }
    }
  }
}
