/** The frame ring of src/stream_buffer.c as a value: `num_frames` slots, each holding one
    measurement frame, read packet by packet. Equal read and write positions mean a full ring or
    an empty one, and the read pointer tells which. */
module FrameRing {
  import opened Records
  import opened Frames
  import opened Reception

  datatype Pointer = Null | Offset(at: nat)

  /** The slot `i` places after `p` in a ring of `n`. */
  function Wrap(p: nat, i: nat, n: nat): (s: nat)
    requires p < n && i <= n
    ensures s < n
  {
    if p + i < n then p + i else p + i - n
  }

  lemma WrapOne(p: nat, n: nat)
    requires p < n
    ensures (p + 1) % n == Wrap(p, 1, n)
  {
    if p + 1 < n { assert (p + 1) % n == p + 1; }
  }

  predicate Sized(d: Frame) {
    |d| > 0 && ValidSize(At(d), |d|)
  }

  /** The packets of a frame; a frame that is not countable has none that can be delivered. */
  ghost function Packets(d: Frame): seq<Record> {
    if Countable(d) && Chain(d, FRAME_HEADER, Count(d)) then PacketsFrom(d, FRAME_HEADER, Count(d)) else []
  }

  ghost function AllPackets(ds: seq<Frame>): seq<Record> {
    if ds == [] then [] else Packets(ds[0]) + AllPackets(ds[1..])
  }

  lemma {:induction false} AllPacketsSnoc(ds: seq<Frame>, d: Frame)
    ensures AllPackets(ds + [d]) == AllPackets(ds) + Packets(d)
  {
    if ds == [] {
      assert [d][1..] == [];
    } else {
      assert (ds + [d])[1..] == ds[1..] + [d];
      AllPacketsSnoc(ds[1..], d);
    }
  }

  lemma {:induction false} TotalCons(ds: seq<Frame>)
    requires ds != []
    ensures Total(ds) == Count(ds[0]) + Total(ds[1..])
  {
    if |ds| > 1 {
      var front, last := ds[..|ds| - 1], ds[|ds| - 1];
      TotalCons(front);
      TotalSnoc(front[1..], last);
      assert ds[1..] == front[1..] + [last] && front[0] == ds[0];
      assert Total(ds) == Total(front) + Count(last);
    }
  }

  /** A frame being read at offset `at` with `n` packets left: of a countable frame the bytes from
      there on are exactly the packets `rest`; any other frame is still at its first packet. */
  ghost predicate Reading(d: Frame, at: nat, n: nat, rest: seq<Record>) {
    Sized(d) &&
    if Countable(d) then n >= 1 && n == |rest| && Laid(d, at, rest)
    else at == FRAME_HEADER && n == Count(d) && rest == []
  }

  ghost predicate Laid(d: Frame, at: nat, rest: seq<Record>) {
    at <= |d| && Flatten(rest) == d[at..] && forall i :: 0 <= i < |rest| ==> WellFormed(rest[i])
  }

  lemma OpenFrame(d: Frame)
    requires Sized(d)
    ensures Reading(d, FRAME_HEADER, Count(d), Packets(d))
  {
    if Countable(d) {
      AcceptedFrameIsConsumed(d);
    }
  }

  /** The bytes at the read pointer are the next packet, and the rest follows it. */
  lemma HeadLaid(d: Frame, at: nat, rest: seq<Record>)
    requires Laid(d, at, rest) && rest != []
    ensures Whole(d[at..]) && Size(d[at..]) == |rest[0]| && rest[0] == d[at..at + |rest[0]|]
    ensures Laid(d, at + |rest[0]|, rest[1..])
  {
    var b, r := d[at..], rest[0];
    assert b == r + Flatten(rest[1..]);
    assert WellFormed(r);
    assert forall i :: 0 <= i < HEADER ==> b[i] == r[i];
    assert b[|r|..] == d[at + |r|..];
    assert b[..|r|] == d[at..at + |r|];
  }

  /** What the frame at the head of the ring can look like to the reader. */
  lemma HeadStatus(d: Frame, at: nat, n: nat, rest: seq<Record>)
    requires Reading(d, at, n, rest)
    ensures at <= |d|
    ensures n == 0 <==> Count(d) == 0
    ensures !Whole(d[at..]) && n > 0 <==> Count(d) >= 0x8000_0000
  {
    if Countable(d) {
      HeadLaid(d, at, rest);
    }
  }

  /** Packets in delivery order and the number announced for them. */
  datatype Ledger = Ledger(packets: seq<Record>, count: nat)

  ghost function Accepted(ds: seq<Frame>): Ledger {
    Ledger(AllPackets(ds), Total(ds))
  }

  /** What was delivered followed by what still waits: the rest of the frame being read, of which
      `n` packets are left, and the frames queued behind it. */
  ghost function Account(delivered: seq<Record>, read: nat, rest: seq<Record>, n: nat, behind: seq<Frame>): Ledger {
    Ledger(delivered + (rest + AllPackets(behind)), read + (n + Total(behind)))
  }

  lemma AccountArrival(delivered: seq<Record>, read: nat, rest: seq<Record>, n: nat, behind: seq<Frame>,
                       accepted: seq<Frame>, d: Frame)
    requires Account(delivered, read, rest, n, behind) == Accepted(accepted)
    ensures Account(delivered, read, rest, n, behind + [d]) == Accepted(accepted + [d])
    ensures behind == rest == [] && n == 0 ==>
      Account(delivered, read, Packets(d), Count(d), []) == Accepted(accepted + [d])
  {
    AllPacketsSnoc(accepted, d);
    TotalSnoc(accepted, d);
    AllPacketsSnoc(behind, d);
    TotalSnoc(behind, d);
    Regroup(delivered, rest, AllPackets(behind), Packets(d));
  }

  lemma Append3<T>(a: seq<T>, b: seq<T>, c: seq<T>)
    ensures (a + b) + c == a + (b + c)
  {
  }

  lemma Regroup<T>(a: seq<T>, b: seq<T>, c: seq<T>, d: seq<T>)
    ensures a + (b + (c + d)) == (a + (b + c)) + d
    ensures b == c == [] ==> a + (d + []) == (a + (b + c)) + d
  {
  }

  lemma AccountDelivery(delivered: seq<Record>, read: nat, rest: seq<Record>, n: nat, behind: seq<Frame>)
    requires rest != [] && n > 0
    ensures Account(delivered + [rest[0]], read + 1, rest[1..], n - 1, behind) ==
      Account(delivered, read, rest, n, behind)
  {
    Shift(delivered, rest, AllPackets(behind));
  }

  lemma Shift<T>(a: seq<T>, b: seq<T>, c: seq<T>)
    requires b != []
    ensures (a + [b[0]]) + (b[1..] + c) == a + (b + c)
  {
  }

  lemma AccountNextFrame(delivered: seq<Record>, read: nat, behind: seq<Frame>)
    requires behind != []
    ensures Account(delivered, read, Packets(behind[0]), Count(behind[0]), behind[1..]) ==
      Account(delivered, read, [], 0, behind)
  {
    TotalCons(behind);
    assert [] + AllPackets(behind) == AllPackets(behind);
  }

  /** The queue occupies the slots from the read position up to the write position. */
  ghost predicate Placed(slots: seq<Frame>, readPos: nat, writePos: nat, queue: seq<Frame>) {
    && readPos < |slots| && |queue| <= |slots|
    && writePos == Wrap(readPos, |queue|, |slots|)
    && (forall i :: 0 <= i < |queue| ==> slots[Wrap(readPos, i, |slots|)] == queue[i])
    && (forall d :: d in queue ==> Sized(d))
  }

  /** While there is room the write position is outside the queue: whatever is received there
      disturbs no frame still to be read. */
  lemma PlacedByArrival(slots: seq<Frame>, readPos: nat, writePos: nat, queue: seq<Frame>, d: Frame)
    requires Placed(slots, readPos, writePos, queue) && |queue| < |slots|
    ensures Placed(slots[writePos := d], readPos, writePos, queue)
    ensures Sized(d) ==> Placed(slots[writePos := d], readPos, Wrap(writePos, 1, |slots|), queue + [d])
  {
  }

  lemma PlacedByDelivery(slots: seq<Frame>, readPos: nat, writePos: nat, queue: seq<Frame>)
    requires Placed(slots, readPos, writePos, queue) && queue != []
    ensures slots[readPos] == queue[0] && Sized(queue[0])
    ensures Placed(slots, Wrap(readPos, 1, |slots|), writePos, queue[1..])
    ensures Wrap(readPos, 1, |slots|) == writePos <==> |queue| == 1
    ensures writePos == readPos <==> |queue| == |slots|
  {
    var next := Wrap(readPos, 1, |slots|);
    assert slots[Wrap(readPos, 0, |slots|)] == queue[0];
    forall i | 0 <= i < |queue| - 1 ensures slots[Wrap(next, i, |slots|)] == queue[1..][i] {
      assert Wrap(next, i, |slots|) == Wrap(readPos, i + 1, |slots|);
    }
  }

  /** The ring: slots, positions, read pointer and packets left, as the C code keeps them, with
      the frames queued in it (the one being read first), the packets left in that one, and
      everything delivered so far. */
  datatype State = State(
    slots: seq<Frame>, readPos: nat, writePos: nat, ptr: Pointer, left: nat, read: nat,
    queue: seq<Frame>, rest: seq<Record>, delivered: seq<Record>)
  {
    ghost function Behind(): seq<Frame> {
      if queue == [] then [] else queue[1..]
    }

    /** Packets announced for the frames in the ring and not taken yet. */
    ghost function Waiting(): nat {
      left + Total(Behind())
    }
  }

  /** The frames in the ring are among those accepted, and the others of these were countable. */
  ghost predicate Queued(queue: seq<Frame>, accepted: seq<Frame>) {
    && (forall d :: d in queue ==> d in accepted)
    && (forall d :: d in accepted ==> d in queue || Countable(d))
  }

  lemma QueuedMore(queue: seq<Frame>, accepted: seq<Frame>, d: Frame)
    requires Queued(queue, accepted)
    ensures Queued(queue + [d], accepted + [d])
    ensures queue != [] && Countable(queue[0]) ==> Queued(queue[1..], accepted)
  {
  }

  /** The ring invariant: an empty ring has no read pointer, a frame being read is positioned on a
      packet, and what was delivered and what still waits is, in order, what was accepted. */
  ghost predicate Consistent(s: State, accepted: seq<Frame>) {
    match s
    case State(slots, readPos, writePos, ptr, left, read, queue, rest, delivered) =>
      && Placed(slots, readPos, writePos, queue) && Queued(queue, accepted)
      && (ptr.Null? <==> queue == [])
      && (if queue == [] then left == 0 && rest == [] else Reading(queue[0], ptr.at, left, rest))
      && Account(delivered, read, rest, left, s.Behind()) == Accepted(accepted)
  }

  /** The ring after a frame has been received at the write position. */
  ghost function Arrive(s: State, d: Frame): State
    requires s.writePos < |s.slots|
  {
    var t := s.(slots := s.slots[s.writePos := d], writePos := Wrap(s.writePos, 1, |s.slots|), queue := s.queue + [d]);
    if s.queue == [] then t.(ptr := Offset(FRAME_HEADER), left := Count(d), rest := Packets(d)) else t
  }

  /** Arrival does not depend on whether the frame is already in its slot. */
  lemma ArriveStored(s: State, d: Frame)
    requires s.writePos < |s.slots|
    ensures Arrive(s.(slots := s.slots[s.writePos := d]), d) == Arrive(s, d)
  {
    assert s.slots[s.writePos := d][s.writePos := d] == s.slots[s.writePos := d];
  }

  lemma ArriveConsistent(s: State, d: Frame, accepted: seq<Frame>)
    requires Consistent(s, accepted) && |s.queue| < |s.slots|
    ensures Consistent(s.(slots := s.slots[s.writePos := d]), accepted)
    ensures Sized(d) ==> Consistent(Arrive(s, d), accepted + [d])
  {
    PlacedByArrival(s.slots, s.readPos, s.writePos, s.queue, d);
    if Sized(d) {
      if s.queue == [] {
        ArriveFirst(s, d, accepted);
      } else {
        ArriveBehind(s, d, accepted);
      }
    }
  }

  lemma ArriveFirst(s: State, d: Frame, accepted: seq<Frame>)
    requires Consistent(s, accepted) && s.queue == [] && Sized(d)
    ensures Consistent(Arrive(s, d), accepted + [d])
  {
    PlacedByArrival(s.slots, s.readPos, s.writePos, s.queue, d);
    OpenFrame(d);
    AccountArrival(s.delivered, s.read, s.rest, s.left, s.Behind(), accepted, d);
    QueuedMore(s.queue, accepted, d);
    assert Arrive(s, d).queue == [d] && Arrive(s, d).Behind() == [];
  }

  lemma ArriveBehind(s: State, d: Frame, accepted: seq<Frame>)
    requires Consistent(s, accepted) && 0 < |s.queue| < |s.slots| && Sized(d)
    ensures Consistent(Arrive(s, d), accepted + [d])
  {
    PlacedByArrival(s.slots, s.readPos, s.writePos, s.queue, d);
    AccountArrival(s.delivered, s.read, s.rest, s.left, s.Behind(), accepted, d);
    QueuedMore(s.queue, accepted, d);
    assert Arrive(s, d).Behind() == s.Behind() + [d];
  }

  /** The ring after a packet that is not the last of its frame has been taken. */
  ghost function TakenWithin(s: State): State
    requires s.left > 1 && s.rest != [] && s.ptr.Offset?
  {
    s.(delivered := s.delivered + [s.rest[0]], read := s.read + 1,
       ptr := Offset(s.ptr.at + |s.rest[0]|), left := s.left - 1, rest := s.rest[1..])
  }

  /** The ring after the last packet of a frame has been taken. */
  ghost function TakenAcross(s: State): State
    requires s.queue != [] && s.rest != [] && s.readPos < |s.slots|
  {
    var t := s.(delivered := s.delivered + [s.rest[0]], read := s.read + 1,
                readPos := Wrap(s.readPos, 1, |s.slots|), queue := s.queue[1..]);
    if |s.queue| == 1 then t.(ptr := Null, left := 0, rest := [])
    else t.(ptr := Offset(FRAME_HEADER), left := Count(s.queue[1]), rest := Packets(s.queue[1]))
  }

  lemma TakenWithinConsistent(s: State, accepted: seq<Frame>)
    requires Consistent(s, accepted) && s.queue != [] && Countable(s.queue[0]) && s.left > 1
    ensures s.ptr.Offset? && s.rest != []
    ensures Consistent(TakenWithin(s), accepted) && TakenWithin(s).Waiting() < s.Waiting()
  {
    HeadLaid(s.queue[0], s.ptr.at, s.rest);
    AccountDelivery(s.delivered, s.read, s.rest, s.left, s.Behind());
  }

  /** Taking the last packet moves on to the next frame, or leaves an empty ring. */
  lemma TakenAcrossConsistent(s: State, accepted: seq<Frame>)
    requires Consistent(s, accepted) && s.queue != [] && Countable(s.queue[0]) && s.left == 1
    ensures s.rest != [] && s.readPos < |s.slots|
    ensures |s.queue| > 1 ==> s.slots[Wrap(s.readPos, 1, |s.slots|)] == s.queue[1]
    ensures Wrap(s.readPos, 1, |s.slots|) == s.writePos <==> |s.queue| == 1
    ensures Consistent(TakenAcross(s), accepted) && TakenAcross(s).Waiting() < s.Waiting()
  {
    PlacedByDelivery(s.slots, s.readPos, s.writePos, s.queue);
    assert s.rest[1..] == [];
    QueuedMore(s.queue, accepted, s.queue[0]);
    AccountDelivery(s.delivered, s.read, s.rest, s.left, s.Behind());
    if |s.queue| > 1 {
      NextFrameConsistent(s, accepted);
    }
  }

  lemma NextFrameConsistent(s: State, accepted: seq<Frame>)
    requires |s.queue| > 1 && s.rest != [] && Countable(s.queue[0])
    requires Placed(s.slots, s.readPos, s.writePos, s.queue) && Queued(s.queue, accepted)
    requires Account(s.delivered + [s.rest[0]], s.read + 1, [], 0, s.Behind()) == Accepted(accepted)
    ensures s.slots[Wrap(s.readPos, 1, |s.slots|)] == s.queue[1]
    ensures Consistent(TakenAcross(s), accepted) && TakenAcross(s).Waiting() == Total(s.Behind())
  {
    PlacedByDelivery(s.slots, s.readPos, s.writePos, s.queue);
    PlacedByDelivery(s.slots, Wrap(s.readPos, 1, |s.slots|), s.writePos, s.queue[1..]);
    OpenFrame(s.queue[1]);
    QueuedMore(s.queue, accepted, s.queue[0]);
    AccountNextFrame(s.delivered + [s.rest[0]], s.read + 1, s.Behind());
    TotalCons(s.Behind());
  }
}
