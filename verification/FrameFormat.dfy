/** Measurement frames written out field by field, apart from how the receiver reads them: frames sent in this
    format come out as the packets they were made of. */
module FrameFormat {
  import opened Bytes
  import opened Records
  import opened Frames
  import opened Reception
  import opened FrameRing
  import opened FrameBuffer
  import opened FrameRun
  import opened CaptureFormat

  /** `n` bytes of a number, most significant first. */
  function BigEndian(v: nat, n: nat): (bs: seq<byte>)
    ensures |bs| == n
  {
    if n == 0 then [] else BigEndian(v / 0x100, n - 1) + [v % 0x100]
  }

  /** What a sender puts into a frame. */
  datatype Message = Message(
    to: Address, from: Address, sequence: u32, flags: u32, major: u16, minor: u16, packets: seq<Captured>)

  /** Ethernet header and send header, in network byte order. */
  function Headers(s: Message): (h: seq<byte>)
    ensures |h| == 30
  {
    s.to + s.from + BigEndian(0x0810, 2)
      + BigEndian(s.sequence, 4) + BigEndian(|s.packets|, 4) + BigEndian(s.flags, 4)
      + BigEndian(s.major, 2) + BigEndian(s.minor, 2)
  }

  function Built(s: Message): Frame {
    Headers(s) + StoredAll(s.packets)
  }

  lemma {:induction false} TwoBytes(v: u16)
    ensures var b := BigEndian(v, 2); 0x100 * (b[0] as int) + (b[1] as int) == v
  {
    assert BigEndian(v / 0x100, 1) == BigEndian(v / 0x100 / 0x100, 0) + [v / 0x100 % 0x100];
  }

  lemma {:induction false} FourBytesBig(v: u32)
    ensures var b := BigEndian(v, 4);
      0x100_0000 * (b[0] as int) + 0x1_0000 * (b[1] as int) + 0x100 * (b[2] as int) + (b[3] as int) == v
  {
    var w := v / 0x100;
    var x := w / 0x100;
    assert BigEndian(v, 4) == BigEndian(w, 3) + [v % 0x100];
    assert BigEndian(w, 3) == BigEndian(x, 2) + [w % 0x100];
    assert BigEndian(x, 2) == BigEndian(x / 0x100, 1) + [x % 0x100];
    assert BigEndian(x / 0x100, 1) == BigEndian(x / 0x100 / 0x100, 0) + [x / 0x100 % 0x100];
  }

  /** Where each field is. */
  lemma FieldsAt(s: Message)
    ensures var d := Built(s);
      && |d| >= 30 && d[..6] == s.to && d[12..14] == BigEndian(0x0810, 2)
      && d[14..18] == BigEndian(s.sequence, 4) && d[18..22] == BigEndian(|s.packets|, 4)
      && d[22..26] == BigEndian(s.flags, 4) && d[26..28] == BigEndian(s.major, 2) && d[28..30] == BigEndian(s.minor, 2)
      && d[30..] == StoredAll(s.packets)
  {
    var h, d := Headers(s), Built(s);
    assert d[..30] == h && d[30..] == StoredAll(s.packets);
    assert h[..6] == s.to && h[12..14] == BigEndian(0x0810, 2) && h[14..18] == BigEndian(s.sequence, 4);
    assert h[18..22] == BigEndian(|s.packets|, 4) && h[22..26] == BigEndian(s.flags, 4);
    assert h[26..28] == BigEndian(s.major, 2) && h[28..30] == BigEndian(s.minor, 2);
    assert forall i, j :: 0 <= i <= j <= 30 ==> d[i..j] == h[i..j];
  }

  lemma {:induction false} Read32(d: Frame, at: nat, v: u32)
    requires at + 4 <= |d| && d[at..at + 4] == BigEndian(v, 4)
    ensures Be32(At(d), at) == v
  {
    FourBytesBig(v);
    var b := d[at..at + 4];
    assert d[at] == b[0] && d[at + 1] == b[1] && d[at + 2] == b[2] && d[at + 3] == b[3];
  }

  lemma {:induction false} Read16(d: Frame, at: nat, v: u16)
    requires at + 2 <= |d| && d[at..at + 2] == BigEndian(v, 2)
    ensures Be16(At(d), at) == v
  {
    TwoBytes(v);
    var b := d[at..at + 2];
    assert d[at] == b[0] && d[at + 1] == b[1];
  }

  lemma {:induction false} NumbersRead(d: Frame, sequence: u32, packets: u32)
    requires |d| >= 30 && d[14..18] == BigEndian(sequence, 4) && d[18..22] == BigEndian(packets, 4)
    ensures Sequence(At(d)) == sequence && Count(d) == packets
  {
    Read32(d, 14, sequence);
    Read32(d, 18, packets);
  }

  lemma {:induction false} VersionRead(d: Frame, major: u16, minor: u16)
    requires |d| >= 30 && d[26..28] == BigEndian(major, 2) && d[28..30] == BigEndian(minor, 2)
    ensures Supported(d) <==> major == 0 && minor <= 7
  {
    Read16(d, 26, major);
    Read16(d, 28, minor);
  }

  lemma {:induction false} FlagsRead(d: Frame, flags: u32)
    requires |d| >= 30 && d[22..26] == BigEndian(flags, 4)
    ensures Flushes(At(d)) <==> flags % 2 == 1
  {
    assert BigEndian(flags, 4)[3] == flags % 0x100;
    assert d[25] == d[22..26][3];
  }

  /** The receiver reads the fields as they were written. */
  lemma FieldsRead(s: Message)
    requires |s.packets| < 0x1_0000_0000
    ensures var d := Built(s);
      && Sequence(At(d)) == s.sequence && Count(d) == |s.packets| && Be16(At(d), 12) == 0x0810
      && (Flushes(At(d)) <==> s.flags % 2 == 1) && (Supported(d) <==> s.major == 0 && s.minor <= 7)
  {
    var d := Built(s);
    FieldsAt(s);
    Read16(d, 12, 0x0810);
    NumbersRead(d, s.sequence, |s.packets|);
    VersionRead(d, s.major, s.minor);
    FlagsRead(d, s.flags);
  }

  lemma AddressRead(s: Message, a: Address)
    ensures Addressed(At(Built(s)), a) <==> a == s.to
  {
    FieldsAt(s);
    var d := Built(s);
    assert forall i :: 0 <= i < 6 ==> d[i] == s.to[i];
  }

  // -- The packets of a frame --

  /** Packets that the receiver takes: captured in part at least. */
  ghost predicate Sendable(cs: seq<Captured>) {
    forall i :: 0 <= i < |cs| ==> Storable(cs[i]) && cs[i].payload != []
  }

  lemma HeadStored(d: Frame, at: nat, r: Record, rest: seq<byte>)
    requires at <= |d| && d[at..] == r + rest && WellFormed(r)
    ensures Whole(d[at..]) && Size(d[at..]) == |r| && CapLen(d[at..]) == CapLen(r)
    ensures at + |r| <= |d| && d[at..at + |r|] == r && d[at + |r|..] == rest
  {
    var b := d[at..];
    assert b[..|r|] == r && b[|r|..] == rest && d[at + |r|..] == b[|r|..] && d[at..at + |r|] == b[..|r|];
    assert forall i :: 0 <= i < HEADER ==> b[i] == r[i];
  }

  /** Non-empty records up to the end of a frame are its chain of packets. */
  lemma {:induction false} FlatChain(d: Frame, at: nat, rs: seq<Record>)
    requires at <= |d| && d[at..] == Flatten(rs)
    requires forall i :: 0 <= i < |rs| ==> WellFormed(rs[i]) && CapLen(rs[i]) > 0
    ensures Chain(d, at, |rs|) && PacketsFrom(d, at, |rs|) == rs
    decreases |rs|
  {
    if rs != [] {
      var r, rest := rs[0], rs[1..];
      HeadStored(d, at, r, Flatten(rest));
      FlatChain(d, at + |r|, rest);
      ChainCons(d, at, |rs|, r, rest);
      assert rs == [r] + rest;
    }
  }

  lemma {:induction false} StoredChain(d: Frame, at: nat, cs: seq<Captured>)
    requires at <= |d| && d[at..] == StoredAll(cs) && Sendable(cs)
    ensures Chain(d, at, |cs|) && PacketsFrom(d, at, |cs|) == RecordsOf(cs)
  {
    var rs := RecordsOf(cs);
    forall i | 0 <= i < |rs| ensures WellFormed(rs[i]) && CapLen(rs[i]) > 0 {
      StoredIsRecord(cs[i]);
    }
    StoredFlat(cs);
    FlatChain(d, at, rs);
  }

  lemma ChainCons(d: Frame, at: nat, n: nat, r: Record, rs: seq<Record>)
    requires n > 0 && at <= |d| && Whole(d[at..]) && CapLen(d[at..]) > 0 && Size(d[at..]) == |r|
    requires at + |r| <= |d| && d[at..at + |r|] == r
    requires Chain(d, at + |r|, n - 1) && PacketsFrom(d, at + |r|, n - 1) == rs
    ensures Chain(d, at, n) && PacketsFrom(d, at, n) == [r] + rs
  {
  }

  /** A frame as sent is well sized and holds its packets. */
  lemma BuiltFrame(s: Message)
    requires Sendable(s.packets) && 1 <= |s.packets| < 0x8000_0000
    ensures var d := Built(s);
      Countable(d) && ValidSize(At(d), |d|) && Packets(d) == RecordsOf(s.packets)
  {
    var d := Built(s);
    FieldsAt(s);
    FieldsRead(s);
    StoredChain(d, 30, s.packets);
    AcceptedFrameIsConsumed(d);
  }

  // -- From sender to reader --

  /** A message this receiver can take: for one of its addresses, of a version it reads, with packets, and no
      larger than a slot. */
  ghost predicate Receivable(c: Setup, s: Message) {
    && s.to in c.addresses && s.major == 0 && s.minor <= 7
    && Sendable(s.packets) && 1 <= |s.packets| < 0x8000_0000 && |Built(s)| <= c.frameSize
  }

  lemma ReceivedAsSent(c: Setup, s: Message)
    requires Receivable(c, s)
    ensures var d := Built(s);
      && c.Received(d) == d && c.Admissible(d) && Supported(d) && Countable(d)
      && c.addresses[c.Destination(d)] == s.to
  {
    var d := Built(s);
    BuiltFrame(s);
    FieldsRead(s);
    var i :| 0 <= i < |c.addresses| && c.addresses[i] == s.to;
    AddressRead(s, c.addresses[i]);
    if c.Destination(d) < |c.addresses| {
      AddressRead(s, c.addresses[c.Destination(d)]);
    }
  }

  function FramesSent(ss: seq<Message>): seq<Frame> {
    if ss == [] then [] else FramesSent(ss[..|ss| - 1]) + [Built(ss[|ss| - 1])]
  }

  function Datagrams(ss: seq<Message>): seq<SocketEvent> {
    if ss == [] then [] else Datagrams(ss[..|ss| - 1]) + [Datagram(Built(ss[|ss| - 1]))]
  }

  /** The numbers sent to an address. */
  function NumbersTo(ss: seq<Message>, a: Address): seq<nat> {
    if ss == [] then [] else
      NumbersTo(ss[..|ss| - 1], a) + (if ss[|ss| - 1].to == a then [ss[|ss| - 1].sequence] else [])
  }

  function RecordsSent(ss: seq<Message>): seq<Record> {
    if ss == [] then [] else RecordsSent(ss[..|ss| - 1]) + RecordsOf(ss[|ss| - 1].packets)
  }

  ghost predicate AllReceivable(c: Setup, ss: seq<Message>) {
    forall i :: 0 <= i < |ss| ==> Receivable(c, ss[i])
  }

  /** All of the messages are admissible, readable frames. */
  lemma {:induction false} SentFrames(c: Setup, ss: seq<Message>)
    requires AllReceivable(c, ss)
    ensures Admissibles(c, Datagrams(ss)) == FramesSent(ss)
    ensures forall d :: d in FramesSent(ss) ==> Supported(d) && Countable(d)
    ensures AllPackets(FramesSent(ss)) == RecordsSent(ss)
  {
    if ss != [] {
      var front, s := ss[..|ss| - 1], ss[|ss| - 1];
      SentFrames(c, front);
      ReceivedAsSent(c, s);
      BuiltFrame(s);
      AllPacketsSnoc(FramesSent(front), Built(s));
      var es := Datagrams(ss);
      assert es[..|es| - 1] == Datagrams(front) && es[|es| - 1] == Datagram(Built(s));
    }
  }

  /** The receiver hears on each address the numbers sent to it; one that repeats another hears none. */
  lemma {:induction false} NumbersHeard(c: Setup, ss: seq<Message>, a: nat)
    requires AllReceivable(c, ss) && a < |c.addresses|
    ensures Numbers(FramesSent(ss), c.addresses, a) ==
      if IsFirst(c.addresses, a) then NumbersTo(ss, c.addresses[a]) else []
  {
    if ss != [] {
      var front, s := ss[..|ss| - 1], ss[|ss| - 1];
      NumbersHeard(c, front, a);
      NumbersSnoc(FramesSent(front), Built(s), c.addresses, a);
      FieldsRead(s);
      MatchesAsSent(c, s, a);
    }
  }

  lemma MatchesAsSent(c: Setup, s: Message, a: nat)
    requires Receivable(c, s) && a < |c.addresses|
    ensures Matches(At(Built(s)), c.addresses, a) <==>
      c.addresses[a] == s.to && IsFirst(c.addresses, a)
  {
    FieldsRead(s);
    AddressRead(s, c.addresses[a]);
    forall b | 0 <= b < a ensures Addressed(At(Built(s)), c.addresses[b]) <==> c.addresses[b] == s.to {
      AddressRead(s, c.addresses[b]);
    }
  }

  /** Messages whose numbers follow each other on every address come out as the packets they were made of, each
      as it was and in order, whatever the number of slots; if the numbers do not follow each other the
      receiver does not get to the end. */
  method Transfer(c: Setup, ss: seq<Message>, frames: nat) returns (out: seq<Record>, last: Outcome)
    requires frames > 0 && AllReceivable(c, ss)
    ensures last.Again? <==> forall a :: a in c.addresses ==> Chained(NumbersTo(ss, a), c.loopback)
    ensures last.Again? ==> out == RecordsSent(ss)
  {
    SentFrames(c, ss);
    AllHeeded(c, FramesSent(ss));
    NumbersFollow(c, ss);
    out, last := ReceiveAll(c, Datagrams(ss), frames, AcceptAll(), ());
    AllSelected(RecordsSent(ss));
  }

  lemma {:induction false} NumbersFollow(c: Setup, ss: seq<Message>)
    requires AllReceivable(c, ss)
    ensures InSequence(c, FramesSent(ss)) <==> forall a :: a in c.addresses ==> Chained(NumbersTo(ss, a), c.loopback)
  {
    var t := Tables(c, FramesSent(ss));
    forall i | 0 <= i < |c.addresses|
      ensures t[i] == if IsFirst(c.addresses, i) then NumbersTo(ss, c.addresses[i]) else []
    {
      NumbersHeard(c, ss, i);
    }
    FirstsDecide(c.addresses, t, (a: Address) => NumbersTo(ss, a), c.loopback);
  }

  /** No earlier address is the same. */
  ghost predicate IsFirst(addresses: seq<Address>, i: nat)
    requires i < |addresses|
  {
    forall b :: 0 <= b < i ==> addresses[b] != addresses[i]
  }

  lemma FirstsDecide(addresses: seq<Address>, t: seq<seq<nat>>, numbers: Address -> seq<nat>, loopback: bool)
    requires |t| == |addresses|
    requires forall i :: 0 <= i < |t| ==> t[i] == if IsFirst(addresses, i) then numbers(addresses[i]) else []
    ensures AllChained(t, loopback) <==> forall a :: a in addresses ==> Chained(numbers(a), loopback)
  {
    if AllChained(t, loopback) {
      forall a | a in addresses ensures Chained(numbers(a), loopback) {
        var i := FirstOf(addresses, a);
        assert IsFirst(addresses, i) && Chained(t[i], loopback);
      }
    } else {
      var i :| 0 <= i < |t| && !Chained(t[i], loopback);
      assert addresses[i] in addresses && !Chained(numbers(addresses[i]), loopback);
    }
  }

  lemma {:induction false} FirstOf(addresses: seq<Address>, a: Address) returns (i: nat)
    requires a in addresses
    ensures i < |addresses| && addresses[i] == a && forall b :: 0 <= b < i ==> addresses[b] != a
  {
    if addresses[0] == a {
      i := 0;
    } else {
      var j := FirstOf(addresses[1..], a);
      i := j + 1;
    }
  }
}
