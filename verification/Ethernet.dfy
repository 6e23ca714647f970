/** Receiving measurement frames from a socket (src/stream_ethernet.c): the receive loop, address matching,
    packet accounting and sequence numbers, updated in place. */
module Ethernet {
  import opened Bytes
  import opened Frames
  import opened Reception

  datatype Attempt = Arrived | Nothing | Aborted

  /** How a round of the receive loop ends. */
  datatype Round = Continue | Return(attempt: Attempt)

  /** match_ma_pkt: the first address the frame is sent to. */
  method MatchAddress(m: Memory, addresses: seq<Address>) returns (index: int)
    ensures -1 <= index < |addresses|
    ensures index == -1 <==> Be16(m, 12) != ETHERTYPE_MP || forall a :: a in addresses ==> !Addressed(m, a)
    ensures index >= 0 ==> Matches(m, addresses, index) && index == FirstMatch(m, addresses, 0)
    ensures index == -1 <==> Be16(m, 12) != ETHERTYPE_MP || FirstMatch(m, addresses, 0) == |addresses|
  {
    if Be16(m, 12) != ETHERTYPE_MP {
      return -1;
    }
    index := 0;
    while index < |addresses|
      invariant 0 <= index <= |addresses|
      invariant forall i :: 0 <= i < index ==> !Addressed(m, addresses[i])
    {
      if Addressed(m, addresses[index]) {
        return;
      }
      index := index + 1;
    }
    index := -1;
  }

  class Receiver {
    const setup: Setup
    var seqnum: seq<nat>
    var recv: nat
    var flushed: bool

    /** The outside world: what the socket does next; nothing once the script has run out. */
    var socket: seq<SocketEvent>

    /** The events used up, and what they amount to. */
    ghost var consumed: seq<SocketEvent>
    ghost var heard: Line

    /** All events, used up or not. */
    ghost function Script(): seq<SocketEvent>
      reads this`consumed, this`socket
    {
      consumed + socket
    }

    ghost predicate Tracks()
      reads this`consumed, this`heard
    {
      heard == HearAll(setup, Silence(setup), consumed)
    }

    /** The events of the script that were used up have been heard. */
    ghost predicate Plays(script: seq<SocketEvent>)
      reads this`consumed, this`heard, this`socket
    {
      Tracks() && Script() == script
    }

    /** The counters are those of what was heard. */
    ghost predicate Current()
      reads this`heard, this`seqnum, this`recv
    {
      && !heard.aborted && |seqnum| == |setup.addresses| && seqnum == heard.seqnum
      && recv == Total(heard.accepted) + heard.refused
    }

    ghost predicate Valid()
      reads this`consumed, this`heard, this`seqnum, this`recv
    {
      Tracks() && Current()
    }

    constructor (setup: Setup, socket: seq<SocketEvent>)
      ensures Valid() && consumed == [] && heard == Silence(setup) && this.socket == socket && this.setup == setup
      ensures recv == 0 && !flushed
    {
      this.setup, this.socket := setup, socket;
      seqnum, recv, flushed := seq(|setup.addresses|, _ => 0), 0, false;
      consumed, heard := [], Silence(setup);
    }

    /** match_inc_seqnr: false where the C code aborts. */
    method AdvanceSequence(a: nat, got: u32) returns (ok: bool)
      requires a < |seqnum|
      modifies this`seqnum
      ensures ok <==> InTurn(old(seqnum[a]), got, setup.loopback)
      ensures seqnum == if ok then old(seqnum)[a := NextNumber(old(seqnum[a]), got, setup.loopback)] else old(seqnum)
    {
      var expected := if seqnum[a] == 0 then got else seqnum[a];
      if setup.loopback && expected == got + 1 {
        return true;
      }
      if expected != got {
        return false;
      }
      var next := expected + 1;
      seqnum := seqnum[a := if next >= 0xFFFF then 0 else next];
      return true;
    }

    /** What stream_ethernet_read_frame does with a frame that is addressed to us and well sized. */
    method Admit(d: Frame, a: nat, h: SendHead) returns (res: Attempt)
      requires Current() && a < |seqnum| && h.packets == Count(d)
      modifies this`seqnum, this`recv, this`flushed, this`heard
      ensures heard == HearFrame(setup.loopback, old(heard), d, a, h)
      ensures res.Aborted? <==> heard.aborted
      ensures !res.Aborted? ==> Current() && recv == old(recv) + h.packets
      ensures heard.accepted == if res.Arrived? then old(heard.accepted) + [d] else old(heard.accepted)
      ensures flushed == (old(flushed) || (res.Arrived? && h.flush))
    {
      TotalSnoc(heard.accepted, d);
      heard := HearFrame(setup.loopback, heard, d, a, h);
      recv := recv + h.packets;
      if seqnum[a] == 0 && !h.supported {
        return Nothing;
      }
      var ok := AdvanceSequence(a, h.sequence);
      if !ok {
        return Aborted;
      }
      if h.flush {
        flushed := true;
      }
      return Arrived;
    }

    /** One round of the receive loop with event `e`. */
    method Handle(slot: Frame, e: SocketEvent) returns (next: Round, content: Frame)
      requires Current()
      modifies this`seqnum, this`recv, this`flushed, this`heard
      ensures heard == Hear(setup, old(heard), e)
      ensures next.Continue? <==> Ignored(setup, e)
      ensures next.Continue? ==> heard == old(heard)
      ensures if next == Return(Aborted) then heard.aborted else Current()
      ensures next == Return(Arrived) ==> heard.accepted == old(heard.accepted) + [content] && setup.Admissible(content)
      ensures next != Return(Arrived) ==> heard.accepted == old(heard.accepted)
    {
      if e.Quiet? || setup.Received(e.bytes) == [] {
        return Return(Nothing), slot;
      }
      content := setup.Received(e.bytes);
      var a := MatchAddress(At(content), setup.addresses);
      if a < 0 || !ValidSize(At(content), |content|) {
        return Continue, content;
      }
      var res := Admit(content, a, HeadOf(content));
      return Return(res), content;
    }

    /** stream_ethernet_read_frame: fill the slot with the next frame for us. Datagrams that are
        not are received into the slot all the same, so its content changes even on failure. */
    method ReadFrame(slot: Frame) returns (res: Attempt, content: Frame)
      requires Valid()
      modifies this
      ensures Tracks() && Listened(setup, old(consumed), old(socket), consumed, socket)
      ensures Plays(old(Script())) && |socket| <= |old(socket)| && (|socket| == |old(socket)| ==> socket == [])
      ensures if res.Aborted? then heard.aborted else Valid()
      ensures res.Arrived? ==> heard.accepted == old(heard.accepted) + [content] && setup.Admissible(content)
      ensures !res.Arrived? ==> heard.accepted == old(heard.accepted)
      ensures res.Arrived? ==> |socket| < |old(socket)|
    {
      content := slot;
      ghost var was, had := consumed, socket;
      while socket != []
        invariant Valid() && heard == old(heard) && Waiting(setup, was, had, consumed, socket)
        decreases |socket|
      {
        WaitingStep(setup, was, had, consumed, socket);
        HearOne(setup, consumed, socket[0]);
        var e := socket[0];
        socket, consumed := socket[1..], consumed + [e];
        var next;
        next, content := Handle(content, e);
        if next.Return? {
          ListenedScript(setup, was, had, consumed, socket);
          return next.attempt, content;
        }
      }
      ListenedScript(setup, was, had, consumed, socket);
      return Nothing, content;
    }
  }

  lemma {:induction false} HearOne(c: Setup, es: seq<SocketEvent>, e: SocketEvent)
    ensures HearAll(c, Silence(c), es + [e]) == Hear(c, HearAll(c, Silence(c), es), e)
  {
    assert (es + [e])[..|es|] == es;
  }

  /** A datagram that is dropped without any effect. */
  predicate Ignored(c: Setup, e: SocketEvent) {
    match e
    case Quiet => false
    case Datagram(bytes) => c.Received(bytes) != [] && !c.Admissible(c.Received(bytes))
  }

  type Events = seq<SocketEvent>

  /** Events move from the script to those used up, in order. */
  ghost predicate Used(was: Events, had: Events, consumed: Events, left: Events) {
    |left| <= |had| && left == had[|had| - |left|..] && consumed == was + had[..|had| - |left|]
  }

  /** The first `n` events are ignored. */
  ghost predicate AllIgnored(c: Setup, es: Events, n: nat) {
    n <= |es| && forall i :: 0 <= i < n ==> Ignored(c, es[i])
  }

  /** Nothing but ignored datagrams has been used up so far. */
  ghost predicate Waiting(c: Setup, was: Events, had: Events, consumed: Events, left: Events) {
    Used(was, had, consumed, left) && AllIgnored(c, had, |had| - |left|)
  }

  /** Events were used up until the first that is not to be ignored, or to the end of the script if all are:
      no admissible frame was passed over, and the script is left alone once one is found. */
  ghost predicate Listened(c: Setup, was: Events, had: Events, consumed: Events, left: Events) {
    && Used(was, had, consumed, left)
    && var n := |had| - |left|;
      if n > 0 && !Ignored(c, had[n - 1]) then AllIgnored(c, had, n - 1) else AllIgnored(c, had, n) && left == []
  }

  lemma ListenedScript(c: Setup, was: Events, had: Events, consumed: Events, left: Events)
    requires Listened(c, was, had, consumed, left)
    ensures consumed + left == was + had && |left| <= |had| && (|left| == |had| ==> left == [])
  {
    assert had == had[..|had| - |left|] + left;
  }

  lemma WaitingStep(c: Setup, was: Events, had: Events, consumed: Events, left: Events)
    requires Waiting(c, was, had, consumed, left) && left != []
    ensures var more, rest := consumed + [left[0]], left[1..];
      if Ignored(c, left[0]) then Waiting(c, was, had, more, rest) else Listened(c, was, had, more, rest)
  {
    var n := |had| - |left|;
    assert had[..n + 1] == had[..n] + [left[0]] && had[n] == left[0];
  }
}
