/** What a socket's events amount to for a receiver of measurement frames: which frames are accepted, what
    is counted, and which sequence numbers are expected next. */
module Reception {
  import opened Bytes
  import opened Frames

  /** One round of select and recvfrom: nothing usable, or a datagram. */
  datatype SocketEvent = Quiet | Datagram(bytes: seq<byte>)

  type Address = a: seq<byte> | |a| == 6 witness [0, 0, 0, 0, 0, 0]

  const ETHERTYPE_MP := 0x0810
  const VERSION_MAJOR := 0
  const VERSION_MINOR := 7

  predicate Addressed(m: Memory, a: Address) {
    forall i | 0 <= i < 6 :: m(i) == a[i]
  }

  /** `a` is the first address the frame is sent to. */
  predicate Matches(m: Memory, addresses: seq<Address>, a: nat) {
    && Be16(m, 12) == ETHERTYPE_MP && a < |addresses| && Addressed(m, addresses[a])
    && forall i :: 0 <= i < a ==> !Addressed(m, addresses[i])
  }

  /** The first of the addresses from `i` on that the frame is sent to, their number if there is none. */
  function FirstMatch(m: Memory, addresses: seq<Address>, i: nat): (a: nat)
    requires i <= |addresses|
    ensures i <= a <= |addresses| && (forall j :: i <= j < a ==> !Addressed(m, addresses[j]))
    ensures a < |addresses| ==> Addressed(m, addresses[a])
    decreases |addresses| - i
  {
    if i == |addresses| || Addressed(m, addresses[i]) then i else FirstMatch(m, addresses, i + 1)
  }

  /** The number expected after `s`: the counter restarts at 0 instead of reaching 0xFFFF. */
  function Successor(s: nat): nat {
    if s + 1 >= 0xFFFF then 0 else s + 1
  }

  /** `t` may follow `s` on one address: the next number, anything after the counter restarted,
      or on a loopback interface the same frame seen twice. */
  predicate Follows(s: nat, t: nat, loopback: bool) {
    t == s + 1 || s + 1 >= 0xFFFF || (loopback && t == s)
  }

  ghost predicate Linked(h: seq<nat>, expected: nat, loopback: bool) {
    expected == (if h == [] then 0 else Successor(h[|h| - 1])) &&
    forall i :: 0 < i < |h| ==> Follows(h[i - 1], h[i], loopback)
  }

  /** is_valid_version. */
  predicate Supported(d: Frame) {
    Major(At(d)) <= VERSION_MAJOR && Minor(At(d)) <= VERSION_MINOR
  }

  function Total(ds: seq<Frame>): nat {
    if ds == [] then 0 else Total(ds[..|ds| - 1]) + Count(ds[|ds| - 1])
  }

  lemma {:induction false} TotalSnoc(ds: seq<Frame>, d: Frame)
    ensures Total(ds + [d]) == Total(ds) + Count(d)
  {
    assert (ds + [d])[..|ds|] == ds;
  }

  /** The sequence numbers of the frames sent to address `a`, in order. */
  ghost function Numbers(ds: seq<Frame>, addresses: seq<Address>, a: nat): seq<nat> {
    if ds == [] then [] else
      var last := At(ds[|ds| - 1]);
      Numbers(ds[..|ds| - 1], addresses, a) + (if Matches(last, addresses, a) then [Sequence(last)] else [])
  }

  lemma {:induction false} NumbersPrefix(ds: seq<Frame>, addresses: seq<Address>, a: nat, n: nat)
    requires n <= |ds|
    ensures Numbers(ds[..n], addresses, a) <= Numbers(ds, addresses, a)
  {
    if n < |ds| {
      NumbersPrefix(ds[..|ds| - 1], addresses, a, n);
      assert ds[..|ds| - 1][..n] == ds[..n];
    } else {
      assert ds[..n] == ds;
    }
  }

  lemma {:induction false} LastNumber(ds: seq<Frame>, addresses: seq<Address>, a: nat, i: nat)
    requires i < |ds| && Matches(At(ds[i]), addresses, a)
    requires forall k :: i < k < |ds| ==> !Matches(At(ds[k]), addresses, a)
    ensures var ns := Numbers(ds, addresses, a); ns != [] && ns[|ns| - 1] == Sequence(At(ds[i]))
  {
    if i < |ds| - 1 {
      LastNumber(ds[..|ds| - 1], addresses, a, i);
    }
  }

  /** Of frames whose numbers are linked, each follows the one before it on its address. */
  lemma {:induction false} LinkedFrames(
    ds: seq<Frame>, addresses: seq<Address>, a: nat, expected: nat, loopback: bool, i: nat, j: nat)
    requires Linked(Numbers(ds, addresses, a), expected, loopback)
    requires i < j < |ds| && Matches(At(ds[i]), addresses, a) && Matches(At(ds[j]), addresses, a)
    requires forall k :: i < k < j ==> !Matches(At(ds[k]), addresses, a)
    ensures Follows(Sequence(At(ds[i])), Sequence(At(ds[j])), loopback)
  {
    LastNumber(ds[..j], addresses, a, i);
    var ns, all := Numbers(ds[..j], addresses, a), Numbers(ds, addresses, a);
    assert ds[..j + 1][..j] == ds[..j];
    NumbersPrefix(ds, addresses, a, j + 1);
    assert Numbers(ds[..j + 1], addresses, a) == ns + [Sequence(At(ds[j]))];
    assert all[|ns|] == Sequence(At(ds[j])) && all[|ns| - 1] == ns[|ns| - 1];
  }

  // -- Events --

  datatype Setup = Setup(loopback: bool, frameSize: nat, addresses: seq<Address>) {
    /** The bytes recvfrom leaves in a slot of `frameSize` bytes. */
    function Received(bytes: seq<byte>): Frame {
      bytes[..Min(|bytes|, frameSize)]
    }

    /** A frame addressed to us whose records fill it. */
    predicate Admissible(d: Frame) {
      && d != [] && Be16(At(d), 12) == ETHERTYPE_MP && Destination(d) < |addresses|
      && ValidSize(At(d), |d|)
    }

    function Destination(d: Frame): (a: nat)
      ensures a <= |addresses|
    {
      FirstMatch(At(d), addresses, 0)
    }
  }

  /** What has been heard: the number expected next per address (0 for any), the frames accepted, the packets
      of frames refused for their version, and whether a number was out of turn, where the C code aborts. */
  datatype Line = Line(seqnum: seq<nat>, accepted: seq<Frame>, refused: nat, aborted: bool)

  function Silence(c: Setup): Line {
    Line(seq(|c.addresses|, _ => 0), [], 0, false)
  }

  predicate InTurn(expected: nat, got: nat, loopback: bool) {
    expected == 0 || got == expected || (loopback && got + 1 == expected)
  }

  /** A duplicate leaves the number expected as it is. */
  function NextNumber(expected: nat, got: nat, loopback: bool): nat {
    if loopback && expected == got + 1 then expected else Successor(got)
  }

  /** What the send header of a frame says. */
  datatype SendHead = SendHead(sequence: u32, packets: u32, supported: bool, flush: bool)

  function HeadOf(d: Frame): SendHead {
    SendHead(Sequence(At(d)), Count(d), Supported(d), Flushes(At(d)))
  }

  /** A frame for address `a` heard on the line. */
  function HearFrame(loopback: bool, line: Line, d: Frame, a: nat, h: SendHead): Line
    requires a < |line.seqnum|
  {
    if line.seqnum[a] == 0 && !h.supported then line.(refused := line.refused + h.packets)
    else if !InTurn(line.seqnum[a], h.sequence, loopback) then line.(aborted := true)
    else line.(seqnum := line.seqnum[a := NextNumber(line.seqnum[a], h.sequence, loopback)],
      accepted := line.accepted + [d])
  }

  function Hear(c: Setup, line: Line, e: SocketEvent): (r: Line)
    requires |line.seqnum| == |c.addresses|
    ensures |r.seqnum| == |c.addresses|
  {
    if line.aborted || e.Quiet? then line else
      var d := c.Received(e.bytes);
      if c.Admissible(d) then HearFrame(c.loopback, line, d, c.Destination(d), HeadOf(d)) else line
  }

  function HearAll(c: Setup, line: Line, es: seq<SocketEvent>): (r: Line)
    requires |line.seqnum| == |c.addresses|
    ensures |r.seqnum| == |c.addresses|
  {
    if es == [] then line else Hear(c, HearAll(c, line, es[..|es| - 1]), es[|es| - 1])
  }

  lemma {:induction false} HearAppend(c: Setup, line: Line, es: seq<SocketEvent>, fs: seq<SocketEvent>)
    requires |line.seqnum| == |c.addresses|
    ensures HearAll(c, line, es + fs) == HearAll(c, HearAll(c, line, es), fs)
    decreases |fs|
  {
    if fs == [] {
      assert es + fs == es;
    } else {
      var front := fs[..|fs| - 1];
      HearAppend(c, line, es, front);
      assert (es + fs)[..|es + fs| - 1] == es + front;
    }
  }

  /** Frames are only ever added, and an abort stays. */
  lemma {:induction false} HearGrows(c: Setup, line: Line, es: seq<SocketEvent>)
    requires |line.seqnum| == |c.addresses|
    ensures line.accepted <= HearAll(c, line, es).accepted
    ensures line.aborted ==> HearAll(c, line, es) == line
  {
    if es != [] {
      HearGrows(c, line, es[..|es| - 1]);
    }
  }

  // -- Sequence numbers --

  /** Every address has heard numbers that follow each other, and expects the next. */
  ghost predicate Sequenced(c: Setup, line: Line) {
    && |line.seqnum| == |c.addresses|
    && forall a :: 0 <= a < |c.addresses| ==> Linked(Numbers(line.accepted, c.addresses, a), line.seqnum[a], c.loopback)
  }

  lemma LinkedSnoc(h: seq<nat>, expected: nat, got: nat, loopback: bool)
    requires Linked(h, expected, loopback) && InTurn(expected, got, loopback)
    ensures Linked(h + [got], NextNumber(expected, got, loopback), loopback)
  {
    if h != [] {
      assert Follows(h[|h| - 1], got, loopback);
    }
  }

  lemma {:induction false} NumbersSnoc(ds: seq<Frame>, d: Frame, addresses: seq<Address>, a: nat)
    ensures Numbers(ds + [d], addresses, a) ==
      Numbers(ds, addresses, a) + (if Matches(At(d), addresses, a) then [Sequence(At(d))] else [])
  {
    assert (ds + [d])[..|ds|] == ds;
  }

  lemma DestinationMatches(c: Setup, d: Frame, a: nat)
    requires c.Admissible(d)
    ensures Matches(At(d), c.addresses, a) <==> a == c.Destination(d)
  {
  }

  lemma HearSequenced(c: Setup, line: Line, d: Frame)
    requires Sequenced(c, line) && c.Admissible(d)
    ensures Sequenced(c, HearFrame(c.loopback, line, d, c.Destination(d), HeadOf(d)))
  {
    var a, got := c.Destination(d), Sequence(At(d));
    if !(line.seqnum[a] == 0 && !Supported(d)) && InTurn(line.seqnum[a], got, c.loopback) {
      forall b | 0 <= b < |c.addresses|
        ensures var expected := if b == a then NextNumber(line.seqnum[a], got, c.loopback) else line.seqnum[b];
          Linked(Numbers(line.accepted + [d], c.addresses, b), expected, c.loopback)
      {
        DestinationMatches(c, d, b);
        NumbersSnoc(line.accepted, d, c.addresses, b);
        if a == b {
          LinkedSnoc(Numbers(line.accepted, c.addresses, a), line.seqnum[a], got, c.loopback);
        }
      }
    }
  }

  lemma {:induction false} AllSequenced(c: Setup, es: seq<SocketEvent>)
    ensures Sequenced(c, HearAll(c, Silence(c), es))
  {
    if es != [] {
      var front, e := es[..|es| - 1], es[|es| - 1];
      AllSequenced(c, front);
      var line := HearAll(c, Silence(c), front);
      if e.Datagram? && c.Admissible(c.Received(e.bytes)) {
        HearSequenced(c, line, c.Received(e.bytes));
      }
    }
  }

  /** Over every run of events, of two accepted frames of one address with none of it between them, the second
      carries a number that may follow that of the first. */
  lemma {:induction false} AcceptedInSequence(c: Setup, es: seq<SocketEvent>, a: nat, i: nat, j: nat)
    requires var ds := HearAll(c, Silence(c), es).accepted;
      && i < j < |ds| && Matches(At(ds[i]), c.addresses, a) && Matches(At(ds[j]), c.addresses, a)
      && forall k :: i < k < j ==> !Matches(At(ds[k]), c.addresses, a)
    ensures var ds := HearAll(c, Silence(c), es).accepted;
      Follows(Sequence(At(ds[i])), Sequence(At(ds[j])), c.loopback)
  {
    AllSequenced(c, es);
    var line := HearAll(c, Silence(c), es);
    LinkedFrames(line.accepted, c.addresses, a, line.seqnum[a], c.loopback, i, j);
  }

  // -- Which frames are accepted --

  /** All admissible frames of the events. */
  function Admissibles(c: Setup, es: seq<SocketEvent>): seq<Frame> {
    if es == [] then [] else
      var e := es[|es| - 1];
      Admissibles(c, es[..|es| - 1]) + (if e.Datagram? && c.Admissible(c.Received(e.bytes))
        then [c.Received(e.bytes)] else [])
  }

  lemma HearMembers(c: Setup, line: Line, e: SocketEvent, d: Frame)
    requires |line.seqnum| == |c.addresses| && !Hear(c, line, e).aborted
    ensures var heard := e.Datagram? && c.Admissible(c.Received(e.bytes)) && d == c.Received(e.bytes);
      && (d in Hear(c, line, e).accepted ==> d in line.accepted || heard)
      && (d in line.accepted || (heard && Supported(d)) ==> d in Hear(c, line, e).accepted)
  {
  }

  /** On a line that is not broken off nothing but admissible frames is accepted, and all of a supported version
      are. */
  lemma {:induction false} AcceptedAmong(c: Setup, es: seq<SocketEvent>, d: Frame)
    requires !HearAll(c, Silence(c), es).aborted
    ensures var ds := HearAll(c, Silence(c), es).accepted;
      (d in ds ==> d in Admissibles(c, es)) && (d in Admissibles(c, es) && Supported(d) ==> d in ds)
  {
    if es != [] {
      AcceptedAmong(c, es[..|es| - 1], d);
      HearMembers(c, HearAll(c, Silence(c), es[..|es| - 1]), es[|es| - 1], d);
    }
  }

  /** If all admissible frames are of a supported version, they are the ones accepted, each once and in order. */
  lemma {:induction false} AcceptedAre(c: Setup, es: seq<SocketEvent>)
    requires !HearAll(c, Silence(c), es).aborted && forall d :: d in Admissibles(c, es) ==> Supported(d)
    ensures HearAll(c, Silence(c), es).accepted == Admissibles(c, es)
  {
    if es != [] {
      var front, e := es[..|es| - 1], es[|es| - 1];
      assert forall d :: d in Admissibles(c, front) ==> d in Admissibles(c, es);
      if e.Datagram? && c.Admissible(c.Received(e.bytes)) {
        assert c.Received(e.bytes) in Admissibles(c, es);
      }
      AcceptedAre(c, front);
    }
  }

  // -- Which numbers break the line off --

  /** The numbers heard on each address. */
  ghost function Tables(c: Setup, ds: seq<Frame>): (t: seq<seq<nat>>)
    ensures |t| == |c.addresses|
  {
    seq(|c.addresses|, a requires a >= 0 => Numbers(ds, c.addresses, a))
  }

  lemma TablesSnoc(c: Setup, ds: seq<Frame>, d: Frame)
    requires c.Admissible(d)
    ensures var t, a := Tables(c, ds), c.Destination(d);
      Tables(c, ds + [d]) == t[a := t[a] + [HeadOf(d).sequence]]
  {
    var t, a, u := Tables(c, ds), c.Destination(d), Tables(c, ds + [d]);
    forall b | 0 <= b < |u| ensures u[b] == if b == a then t[a] + [HeadOf(d).sequence] else t[b] {
      NumbersSnoc(ds, d, c.addresses, b);
      DestinationMatches(c, d, b);
    }
  }

  /** An address with these numbers takes any: it has heard none, or the last was at the end of the range. Only
      then the version of the next frame is looked at. */
  predicate Open(ns: seq<nat>) {
    ns == [] || ns[|ns| - 1] + 1 >= 0xFFFF
  }

  /** The frames that count for the sequence: all but those of a version that cannot be read, at the points
      where that is looked at. */
  ghost function Heeded(c: Setup, ds: seq<Frame>): seq<Frame> {
    if ds == [] then [] else
      var before, d := Heeded(c, ds[..|ds| - 1]), ds[|ds| - 1];
      if !Supported(d) && Open(Numbers(before, c.addresses, c.Destination(d))) then before else before + [d]
  }

  /** Each number may follow the one before it: the next, any after the end of the range, or on a loopback
      interface the same again. */
  ghost predicate Chained(ns: seq<nat>, loopback: bool) {
    forall k :: 0 < k < |ns| ==> Follows(ns[k - 1], ns[k], loopback)
  }

  lemma ChainedSnoc(ns: seq<nat>, got: nat, loopback: bool)
    ensures Chained(ns + [got], loopback) <==>
      Chained(ns, loopback) && (ns == [] || Follows(ns[|ns| - 1], got, loopback))
  {
    var more := ns + [got];
    if Chained(more, loopback) {
      forall k | 0 < k < |ns| ensures Follows(ns[k - 1], ns[k], loopback) {
        assert more[k - 1] == ns[k - 1] && more[k] == ns[k];
      }
      assert ns != [] ==> more[|ns| - 1] == ns[|ns| - 1] && more[|ns|] == got;
    }
  }

  ghost predicate AllChained(t: seq<seq<nat>>, loopback: bool) {
    forall a :: 0 <= a < |t| ==> Chained(t[a], loopback)
  }

  /** On every address the numbers of the frames may follow each other. */
  ghost predicate InSequence(c: Setup, ds: seq<Frame>) {
    AllChained(Tables(c, ds), c.loopback)
  }

  /** One frame: the line is broken off exactly if the number does not follow the last one of its address. */
  lemma TurnStep(loopback: bool, line: Line, t: seq<seq<nat>>, d: Frame, a: nat, h: SendHead)
    requires |t| == |line.seqnum| && a < |t| && !line.aborted
    requires forall b :: 0 <= b < |t| ==> Linked(t[b], line.seqnum[b], loopback)
    ensures var next := HearFrame(loopback, line, d, a, h);
      if !h.supported && Open(t[a]) then !next.aborted && next.accepted == line.accepted
      else
        && (next.aborted <==> !AllChained(t[a := t[a] + [h.sequence]], loopback))
        && (!next.aborted ==> next.accepted == line.accepted + [d])
  {
    var u := t[a := t[a] + [h.sequence]];
    ChainedSnoc(t[a], h.sequence, loopback);
    assert forall b :: 0 <= b < |t| ==> Chained(t[b], loopback);
    assert AllChained(u, loopback) <==> Chained(u[a], loopback) by {
      if Chained(u[a], loopback) {
        forall b | 0 <= b < |u| ensures Chained(u[b], loopback) {
        }
      }
    }
  }

  /** Once out of sequence, always so. */
  lemma NotChainedStays(t: seq<seq<nat>>, a: nat, got: nat, loopback: bool)
    requires a < |t| && !AllChained(t, loopback)
    ensures !AllChained(t[a := t[a] + [got]], loopback)
  {
    ChainedSnoc(t[a], got, loopback);
    var b :| 0 <= b < |t| && !Chained(t[b], loopback);
    assert !Chained(t[a := t[a] + [got]][b], loopback);
  }

  lemma {:induction false} HeededSnoc(c: Setup, ds: seq<Frame>, d: Frame)
    requires c.Admissible(d)
    ensures var before := Heeded(c, ds);
      Heeded(c, ds + [d]) ==
        if !HeadOf(d).supported && Open(Tables(c, before)[c.Destination(d)]) then before else before + [d]
  {
    assert (ds + [d])[..|ds|] == ds;
  }

  ghost predicate Agrees(c: Setup, line: Line, ds: seq<Frame>) {
    match line case Line(_, accepted, _, aborted) =>
      (aborted <==> !InSequence(c, ds)) && (!aborted ==> accepted == ds)
  }

  lemma {:induction false} AgreesStep(c: Setup, line: Line, ds: seq<Frame>, d: Frame)
    requires Sequenced(c, line) && c.Admissible(d) && Agrees(c, line, Heeded(c, ds))
    ensures var next := if line.aborted then line else HearFrame(c.loopback, line, d, c.Destination(d), HeadOf(d));
      Agrees(c, next, Heeded(c, ds + [d]))
  {
    var before, a, h := Heeded(c, ds), c.Destination(d), HeadOf(d);
    var t := Tables(c, before);
    HeededSnoc(c, ds, d);
    TablesSnoc(c, before, d);
    if line.aborted {
      NotChainedStays(t, a, h.sequence, c.loopback);
    } else {
      TurnStep(c.loopback, line, t, d, a, h);
    }
  }

  /** The last event of a run: a frame that is admissible, or nothing. */
  lemma LastEvent(c: Setup, es: seq<SocketEvent>)
    requires es != []
    ensures var front, e := es[..|es| - 1], es[|es| - 1]; var line := HearAll(c, Silence(c), front);
      if e.Datagram? && c.Admissible(c.Received(e.bytes)) then
        var d := c.Received(e.bytes);
        && Admissibles(c, es) == Admissibles(c, front) + [d]
        && HearAll(c, Silence(c), es) ==
             if line.aborted then line else HearFrame(c.loopback, line, d, c.Destination(d), HeadOf(d))
      else Admissibles(c, es) == Admissibles(c, front) && HearAll(c, Silence(c), es) == line
  {
  }

  lemma {:induction false} AlwaysAgrees(c: Setup, es: seq<SocketEvent>)
    ensures Agrees(c, HearAll(c, Silence(c), es), Heeded(c, Admissibles(c, es)))
  {
    if es == [] {
      assert forall a :: 0 <= a < |c.addresses| ==> Tables(c, [])[a] == [];
    } else {
      var front, e := es[..|es| - 1], es[|es| - 1];
      LastEvent(c, es);
      AlwaysAgrees(c, front);
      if e.Datagram? && c.Admissible(c.Received(e.bytes)) {
        AllSequenced(c, front);
        AgreesStep(c, HearAll(c, Silence(c), front), Admissibles(c, front), c.Received(e.bytes));
      }
    }
  }

  /** What was heard, and what the numbers say: a line is broken off exactly if the frames that count are out of
      sequence on some address, and otherwise they are the frames accepted. */
  lemma {:induction false} AbortedIff(c: Setup, es: seq<SocketEvent>)
    ensures var line := HearAll(c, Silence(c), es); var ds := Heeded(c, Admissibles(c, es));
      (line.aborted <==> !InSequence(c, ds)) && (!line.aborted ==> line.accepted == ds)
  {
    AlwaysAgrees(c, es);
  }

  /** If all versions can be read, all frames count. */
  lemma {:induction false} AllHeeded(c: Setup, ds: seq<Frame>)
    requires forall d :: d in ds ==> Supported(d)
    ensures Heeded(c, ds) == ds
  {
    if ds != [] {
      AllHeeded(c, ds[..|ds| - 1]);
      assert ds == ds[..|ds| - 1] + [ds[|ds| - 1]];
    }
  }
}
