/** Reading measurement frames until the socket has nothing more: from its events to the packets that come
    out, whatever the number of slots in the ring. */
module FrameRun {
  import opened Records
  import opened Selection
  import opened Frames
  import opened Reception
  import opened FrameRing
  import opened Ethernet
  import opened FrameBuffer

  /** Reading until an attempt finds nothing on a used-up script; empty attempts before that are repeated. */
  method ReadAll<F>(ring: Ring, step: Step<F>, f: F)
    returns (out: seq<Record>, last: Outcome, g: F, ghost news: seq<Record>)
    requires ring.Valid()
    modifies ring, ring.frame, ring.rx
    ensures ring.Leaves(last, old(ring.rx.Script()))
    ensures !last.Ok? && (last.Again? ==> ring.rx.socket == [])
    ensures ring.delivered == old(ring.delivered) + news
    ensures out == Select(news, step, f) && g == Final(news, step, f)
    decreases |ring.rx.socket|, ring.Pending()
  {
    var slot, at, record;
    last, slot, at, record, g, news := ring.Read(step, f);
    out := if last.Ok? then [record] else [];
    if last.Ok? || (last.Again? && ring.rx.socket != []) {
      var h, more := g, out;
      ghost var seen, later := news, news;
      more, last, g, later := ReadAll(ring, step, h);
      SelectAppend(seen, later, step, f);
      Append3(old(ring.delivered), seen, later);
      out, news := out + more, seen + later;
    }
  }

  /** The frames of a script that count. */
  ghost function FramesOf(c: Setup, script: seq<SocketEvent>): seq<Frame> {
    Heeded(c, Admissibles(c, script))
  }

  /** No frame of the script makes the C code abort or read past it: on every address the numbers follow each
      other, and every frame announces at least one packet and no more than a C int counts. */
  ghost predicate Unproblematic(c: Setup, script: seq<SocketEvent>) {
    InSequence(c, FramesOf(c, script)) && forall d :: d in FramesOf(c, script) ==> Countable(d)
  }

  lemma {:induction false} UnproblematicLine(c: Setup, script: seq<SocketEvent>)
    ensures var line := HearAll(c, Silence(c), script);
      && (Unproblematic(c, script) <==> !line.aborted && forall d :: d in line.accepted ==> Countable(d))
      && (!line.aborted ==> line.accepted == FramesOf(c, script))
  {
    AbortedIff(c, script);
  }

  /** What was heard of the beginning of a script is part of what is heard of all of it. */
  lemma {:induction false} HeardSoFar(c: Setup, consumed: seq<SocketEvent>, left: seq<SocketEvent>)
    ensures var now, all := HearAll(c, Silence(c), consumed), HearAll(c, Silence(c), consumed + left);
      (now.aborted ==> all.aborted) && now.accepted <= all.accepted
  {
    HearAppend(c, Silence(c), consumed, left);
    HearGrows(c, HearAll(c, Silence(c), consumed), left);
  }

  /** A run that stops before the end of the script has met a frame that is not in order. */
  lemma StopsOnlyAtEnd(ring: Ring, script: seq<SocketEvent>, last: Outcome)
    requires ring.Leaves(last, script) && !last.Ok? && !last.Again?
    ensures !Unproblematic(ring.rx.setup, script)
  {
    UnproblematicLine(ring.rx.setup, script);
    HeardSoFar(ring.rx.setup, ring.rx.consumed, ring.rx.socket);
    if !last.BadSequence? {
      assert ring.queue[0] in ring.queue && ring.queue[0] in ring.rx.heard.accepted;
      assert !Countable(ring.queue[0]);
    }
  }

  /** From the events of a socket to the packets: for every script, number of slots and stateful filter, reading
      to the end delivers exactly the packets of its frames that the filter selects, in order. The end is
      reached if and only if no frame is out of turn, empty or overlong. */
  method ReceiveAll<F>(c: Setup, script: seq<SocketEvent>, frames: nat, step: Step<F>, f: F)
    returns (out: seq<Record>, last: Outcome)
    requires frames > 0
    ensures last.Again? <==> Unproblematic(c, script)
    ensures last.Again? ==> out == Select(AllPackets(FramesOf(c, script)), step, f)
  {
    var rx := new Receiver(c, script);
    assert rx.Script() == script;
    var ring := new Ring(frames, rx);
    var g;
    ghost var news;
    out, last, g, news := ReadAll(ring, step, f);
    UnproblematicLine(c, script);
    if last.Again? {
      Conservation(ring);
      assert rx.consumed == rx.consumed + rx.socket == script;
      assert ring.delivered == [] + news == news;
    } else {
      StopsOnlyAtEnd(ring, script, last);
    }
  }
}
