/** The frame ring as the C code keeps it: slots overwritten in place, positions and a read pointer
    advanced by each read. Its state as a value is `FrameRing.State`. */
module FrameBuffer {
  import opened Records
  import opened Selection
  import opened Frames
  import opened Reception
  import opened Ethernet
  import opened FrameRing

  /** `EmptyFrame` and `BadSequence` are the two aborts of the C code; `Wild` is a read past the
      received frame, which the size check lets through for packet counts of 2^31 and more. */
  datatype Outcome = Ok | Again | BadSequence | EmptyFrame | Wild

  class Ring {
    const frame: array<Frame>
    const rx: Receiver
    var readPos: nat
    var writePos: nat
    var readPtr: Pointer
    var numPackets: nat
    var read: nat
    var matched: nat
    ghost var queue: seq<Frame>
    ghost var rest: seq<Record>
    ghost var delivered: seq<Record>

    ghost function Snapshot(): State
      reads this`readPos, this`writePos, this`readPtr, this`numPackets, this`read
      reads this`queue, this`rest, this`delivered, frame
    {
      State(frame[..], readPos, writePos, readPtr, numPackets, read, queue, rest, delivered)
    }

    /** Packets announced for the frames in the ring and not taken yet. */
    ghost function Pending(): nat
      reads this`numPackets, this`queue
    {
      numPackets + Total(if queue == [] then [] else queue[1..])
    }

    ghost predicate Valid()
      reads this`readPos, this`writePos, this`readPtr, this`numPackets, this`read
      reads this`queue, this`rest, this`delivered, frame, rx
    {
      Consistent(Snapshot(), rx.heard.accepted) && rx.Valid()
    }

    /** stream_frame_init. */
    constructor (frames: nat, rx: Receiver)
      requires frames > 0 && rx.Valid() && rx.heard.accepted == []
      ensures Valid() && this.rx == rx && frame.Length == frames && fresh(frame)
      ensures delivered == [] && queue == [] && read == 0 && matched == 0
    {
      frame := new Frame[frames](_ => []);
      this.rx := rx;
      readPos, writePos, readPtr, numPackets, read, matched := 0, 0, Null, 0, 0, 0;
      queue, rest, delivered := [], [], [];
    }

    /** The callback writes into the slot at the write position whether or not it succeeds. */
    method Receive() returns (res: Attempt)
      requires writePos < frame.Length && rx.Valid()
      modifies frame, rx
      ensures rx.Plays(old(rx.Script())) && |rx.socket| <= |old(rx.socket)|
      ensures frame[..] == old(frame[..])[writePos := frame[writePos]]
      ensures if res.Aborted? then rx.heard.aborted else rx.Valid()
      ensures res.Nothing? ==> rx.heard.accepted == old(rx.heard.accepted)
      ensures res.Arrived? ==> rx.heard.accepted == old(rx.heard.accepted) + [frame[writePos]] && Sized(frame[writePos])
      ensures |rx.socket| == |old(rx.socket)| ==> rx.socket == [] && !res.Arrived?
    {
      var content;
      res, content := rx.ReadFrame(frame[writePos]);
      frame[writePos] := content;
    }

    /** Queue the frame at the write position, opening it if there is no other. */
    method Append()
      requires readPos < frame.Length && writePos < frame.Length
      requires readPtr.Null? <==> queue == []
      requires queue == [] ==> readPos == writePos
      modifies this`writePos, this`queue, this`rest, this`readPtr, this`numPackets
      ensures Snapshot() == Arrive(old(Snapshot()), frame[old(writePos)])
    {
      if readPtr.Null? {
        readPtr, numPackets := Offset(FRAME_HEADER), Count(frame[readPos]);
        rest := Packets(frame[readPos]);
      }
      queue := queue + [frame[writePos]];
      WrapOne(writePos, frame.Length);
      writePos := (writePos + 1) % frame.Length;
    }

    /** read_frame: receive into the slot at the write position, which must not be in use. */
    method Pull() returns (res: Attempt)
      requires Valid() && |queue| < frame.Length
      modifies this`writePos, this`queue, this`rest, this`readPtr, this`numPackets, frame, rx
      ensures rx.Plays(old(rx.Script())) && (res.Aborted? ==> rx.heard.aborted)
      ensures |rx.socket| <= |old(rx.socket)| && (|rx.socket| == |old(rx.socket)| ==> rx.socket == [])
      ensures res.Nothing? ==> Valid() && queue == old(queue)
      ensures res.Nothing? ==> readPtr == old(readPtr) && numPackets == old(numPackets)
      ensures res.Arrived? ==> Valid() && |rx.socket| < |old(rx.socket)| && old(queue) < queue
    {
      ghost var s, before := Snapshot(), rx.heard.accepted;
      res := Receive();
      ArriveConsistent(s, frame[writePos], before);
      assert Snapshot() == s.(slots := s.slots[s.writePos := frame[writePos]]);
      if res.Arrived? {
        ArriveStored(s, frame[writePos]);
        Append();
      }
    }

    /** Step over the packet at the read pointer when it is not the last of its frame. */
    method StepWithin(size: nat)
      requires numPackets > 1 && readPtr.Offset? && rest != [] && size == |rest[0]|
      modifies this`readPtr, this`numPackets, this`read, this`rest, this`delivered
      ensures Snapshot() == TakenWithin(old(Snapshot()))
    {
      numPackets := numPackets - 1;
      readPtr := Offset(readPtr.at + size);
      read := read + 1;
      delivered, rest := delivered + [rest[0]], rest[1..];
    }

    /** Step over the last packet of a frame, to the next frame if there is one. */
    method StepAcross()
      requires readPos < frame.Length && queue != [] && rest != []
      requires Wrap(readPos, 1, frame.Length) == writePos <==> |queue| == 1
      requires |queue| > 1 ==> frame[Wrap(readPos, 1, frame.Length)] == queue[1]
      modifies this`readPos, this`readPtr, this`numPackets, this`read, this`queue, this`rest, this`delivered
      ensures Snapshot() == TakenAcross(old(Snapshot()))
    {
      WrapOne(readPos, frame.Length);
      readPos := (readPos + 1) % frame.Length;
      delivered, rest, queue := delivered + [rest[0]], [], queue[1..];
      if readPos == writePos {
        readPtr, numPackets := Null, 0;
      } else {
        readPtr, numPackets := Offset(FRAME_HEADER), Count(frame[readPos]);
        rest := Packets(frame[readPos]);
      }
      read := read + 1;
    }

    /** The packet at the read pointer. */
    method Current() returns (record: Record)
      requires Valid() && queue != [] && Countable(queue[0])
      ensures rest != [] && record == rest[0]
      ensures readPos < frame.Length && readPtr.Offset? && readPtr.at <= |frame[readPos]|
      ensures record <= frame[readPos][readPtr.at..]
    {
      PlacedByDelivery(frame[..], readPos, writePos, queue);
      HeadLaid(queue[0], readPtr.at, rest);
      var d, at := frame[readPos], readPtr.at;
      record := d[at..at + Size(d[at..])];
    }

    /** Move the read pointer over the packet it points at. */
    method Step(size: nat)
      requires Valid() && queue != [] && Countable(queue[0]) && rest != [] && size == |rest[0]|
      modifies this`readPos, this`readPtr, this`numPackets, this`read, this`queue, this`rest, this`delivered
      ensures Valid() && delivered == old(delivered) + [old(rest)[0]] && read == old(read) + 1
      ensures Pending() < old(Pending())
    {
      if numPackets > 1 {
        TakenWithinConsistent(Snapshot(), rx.heard.accepted);
        StepWithin(size);
      } else {
        TakenAcrossConsistent(Snapshot(), rx.heard.accepted);
        StepAcross();
      }
    }

    /** The head of stream_frame_buffer_read: wait for a frame if there is none, and receive one
        more without waiting if there is room for it. */
    method TopUp() returns (out: Outcome)
      requires Valid()
      modifies this`writePos, this`queue, this`rest, this`readPtr, this`numPackets, frame, rx
      ensures Leaves(out, old(rx.Script())) && out in {Ok, Again, BadSequence} && delivered == old(delivered)
      ensures out.Ok? ==> queue != []
      ensures Advanced(out, |old(rx.socket)|, old(Pending()) + 1)
    {
      var res := Nothing;
      if readPtr.Null? {
        res := Pull();
        if !res.Arrived? {
          return if res.Aborted? then BadSequence else Again;
        }
      }
      PlacedByDelivery(frame[..], readPos, writePos, queue);
      if writePos != readPos {
        res := Pull();
        if res.Aborted? {
          return BadSequence;
        }
      }
      return Ok;
    }

    /** The packet a successful call returns is, intact, where the pointer to it points. */
    ghost predicate InSlot(out: Outcome, slot: nat, at: nat, record: Record)
      reads frame
    {
      match out
      case Ok => slot < frame.Length && at <= |frame[slot]| && record <= frame[slot][at..]
      case _ => true
    }

    /** The state a call leaves: after a number out of turn the C code has aborted. Why no packet was delivered:
        the ring is empty, or the frame at its head announces no packets, or more than a C int can count. */
    ghost predicate Leaves(out: Outcome, script: seq<SocketEvent>)
      reads this`readPos, this`writePos, this`readPtr, this`numPackets, this`read
      reads this`queue, this`rest, this`delivered, frame, rx
    {
      rx.Plays(script) &&
      match out
      case Ok => Valid()
      case Again => Valid() && queue == []
      case BadSequence => rx.heard.aborted
      case EmptyFrame => Valid() && queue != [] && Count(queue[0]) == 0
      case Wild => Valid() && queue != [] && Count(queue[0]) >= 0x8000_0000
    }

    /** Every call uses up events of the script or packets of the ring; only at the end of the script it may
        find nothing. */
    ghost predicate Advanced(out: Outcome, had: nat, pending: nat)
      reads this`numPackets, this`queue, rx
    {
      match out
      case Ok => |rx.socket| < had || (|rx.socket| == had && Pending() < pending)
      case Again => |rx.socket| < had || (|rx.socket| == had && rx.socket == [])
      case _ => |rx.socket| <= had
    }

    /** Take the packet at the read pointer. */
    method Deliver() returns (out: Outcome, slot: nat, at: nat, record: Record)
      requires Valid() && queue != []
      modifies this`readPos, this`readPtr, this`numPackets, this`read, this`queue, this`rest, this`delivered
      requires rx.Tracks()
      ensures Leaves(out, rx.Script()) && !out.Again? && !out.BadSequence?
      ensures delivered == if out.Ok? then old(delivered) + [record] else old(delivered)
      ensures InSlot(out, slot, at, record) && (out.Ok? ==> Pending() < old(Pending()))
    {
      PlacedByDelivery(frame[..], readPos, writePos, queue);
      HeadStatus(queue[0], readPtr.at, numPackets, rest);
      slot, at, record := readPos, readPtr.at, [];
      if numPackets == 0 {
        return EmptyFrame, slot, at, record;
      }
      if !Whole(frame[slot][at..]) {
        return Wild, slot, at, record;
      }
      record := Current();
      Step(|record|);
      return Ok, slot, at, record;
    }

    /** One round of stream_frame_buffer_read: take the next packet, accepted or not. */
    method Fetch() returns (out: Outcome, slot: nat, at: nat, record: Record)
      requires Valid()
      modifies this`readPos, this`writePos, this`readPtr, this`numPackets, this`read
      modifies this`queue, this`rest, this`delivered, frame, rx
      ensures Leaves(out, old(rx.Script())) && Advanced(out, |old(rx.socket)|, old(Pending()))
      ensures delivered == if out.Ok? then old(delivered) + [record] else old(delivered)
      ensures InSlot(out, slot, at, record)
    {
      slot, at, record := 0, 0, [];
      out := TopUp();
      if out.Ok? {
        out, slot, at, record := Deliver();
      }
    }

    method CountMatch(ghost script: seq<SocketEvent>)
      requires Leaves(Ok, script)
      modifies this`matched
      ensures Leaves(Ok, script) && matched == old(matched) + 1
    {
      matched := matched + 1;
    }

    /** Take the next packet and ask the filter about it. */
    method Try<F>(step: Step<F>, f: F) returns (out: Outcome, slot: nat, at: nat, record: Record, g: F, yes: bool)
      requires Valid()
      modifies this, frame, rx
      ensures Leaves(out, old(rx.Script())) && Advanced(out, |old(rx.socket)|, old(Pending()))
      ensures delivered == if out.Ok? then old(delivered) + [record] else old(delivered)
      ensures (g, yes) == if out.Ok? then step(f, record) else (f, false)
      ensures InSlot(out, slot, at, record)
      ensures matched == old(matched) + (if yes then 1 else 0)
    {
      ghost var script := rx.Script();
      out, slot, at, record := Fetch();
      g, yes := f, false;
      if out.Ok? {
        var (h, verdict) := step(f, record);
        g, yes := h, verdict;
        if yes {
          CountMatch(script);
        }
      }
    }

    /** stream_frame_buffer_read: the next packet the filter accepts. Everything taken from the
        ring on the way is delivered in order; only the last of it may be accepted. */
    method Read<F>(step: Step<F>, f: F)
      returns (out: Outcome, slot: nat, at: nat, record: Record, g: F, ghost news: seq<Record>)
      requires Valid()
      modifies this, frame, rx
      ensures Leaves(out, old(rx.Script())) && Advanced(out, |old(rx.socket)|, old(Pending()))
      ensures delivered == old(delivered) + news
      ensures Judged(out, step, f, news, g, record)
      ensures InSlot(out, slot, at, record)
      ensures matched == old(matched) + (if out.Ok? then 1 else 0)
      decreases |rx.socket|, Pending()
    {
      var yes;
      out, slot, at, record, g, yes := Try(step, f);
      JudgedFirst(out, step, f, record);
      news := if out.Ok? then [record] else [];
      if out.Ok? && !yes {
        var first, h := record, g;
        ghost var more;
        out, slot, at, record, g, more := Read(step, h);
        JudgedMore(out, step, f, first, h, more, g, record);
        Append3(old(delivered), [first], more);
        news := [first] + more;
      }
    }
  }

  /** The filter's verdicts on the packets a call has taken: the last accepted, or none. */
  ghost predicate Judged<F>(out: Outcome, step: Step<F>, f: F, news: seq<Record>, g: F, record: Record) {
    match out
    case Ok => LastAccepted(step, f, news, g) && news[|news| - 1] == record
    case _ => Rejected(step, f, news, g)
  }

  /** The verdict on the first packet, and those on the ones after it. */
  lemma JudgedFirst<F>(out: Outcome, step: Step<F>, f: F, record: Record)
    ensures !out.Ok? ==> Judged(out, step, f, [], f, record)
    ensures var (h, yes) := step(f, record); yes && out.Ok? ==> Judged(out, step, f, [record], h, record)
  {
    FirstVerdict(step, f, record);
  }

  lemma JudgedMore<F>(out: Outcome, step: Step<F>, f: F, first: Record, h: F, more: seq<Record>, g: F, record: Record)
    requires step(f, first) == (h, false) && Judged(out, step, h, more, g, record)
    ensures Judged(out, step, f, [first] + more, g, record)
  {
    FirstVerdict(step, f, first);
    VerdictsJoin(step, f, [first], h, more, g);
  }

  /** What the invariant of a ring means to its user, after any run of reads: packets come out in
      the order they were accepted and none is lost, doubled or overwritten before it is read; and
      the receive counter exceeds the read counter by the packets still in the ring and those of
      frames refused for their version. */
  lemma Conservation(r: Ring)
    requires r.Valid()
    ensures r.delivered + (r.rest + AllPackets(r.Snapshot().Behind())) == AllPackets(r.rx.heard.accepted)
    ensures r.rx.recv == r.read + r.Pending() + r.rx.heard.refused
    ensures r.readPtr.Null? <==> r.queue == []
    ensures r.queue == [] ==> r.delivered == AllPackets(r.rx.heard.accepted) && r.rx.recv == r.read + r.rx.heard.refused
  {
    assert Account(r.delivered, r.read, r.rest, r.numPackets, r.Snapshot().Behind()).packets ==
      Accepted(r.rx.heard.accepted).packets;
    if r.queue == [] {
      assert AllPackets([]) == [];
    }
  }
}
