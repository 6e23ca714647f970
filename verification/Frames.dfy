/** Measurement frames: an Ethernet header, a send header and a run of capture records. The
    receiver checks a frame by walking its records in place, so the walk may leave the received
    bytes and read whatever memory follows them. */
module Frames {
  import opened Bytes
  import opened Records

  const ETHER_HEADER := 14
  const SEND_HEADER := 16
  const FRAME_HEADER := ETHER_HEADER + SEND_HEADER

  type Frame = seq<byte>

  function Sequence(m: Memory): u32 { Be32(m, ETHER_HEADER) }
  function PacketCount(m: Memory): u32 { Be32(m, ETHER_HEADER + 4) }
  function Major(m: Memory): u16 { Be16(m, ETHER_HEADER + 12) }
  function Minor(m: Memory): u16 { Be16(m, ETHER_HEADER + 14) }

  /** SENDER_FLUSH is the lowest bit of the flags, in their last byte. */
  predicate Flushes(m: Memory) { m(ETHER_HEADER + 11) % 2 == 1 }

  /** The packet count as the C loop sees it: a signed int, so a large count runs no iteration. */
  function Rounds(m: Memory): nat {
    if PacketCount(m) < 0x8000_0000 then PacketCount(m) else 0
  }

  /** Where `n` records starting at `at` end, or 0 if one of them is empty. */
  function Extent(m: Memory, at: nat, n: nat): (end: nat)
    decreases n
  {
    if n == 0 then at
    else if Le32(m, at + CAPLEN_OFFSET) == 0 then 0
    else Extent(m, at + HEADER + Le32(m, at + CAPLEN_OFFSET), n - 1)
  }

  /** sendheader_bytes. */
  method SendheaderBytes(m: Memory) returns (expected: nat)
    ensures expected == Extent(m, FRAME_HEADER, Rounds(m))
  {
    var n, ptr := Rounds(m), FRAME_HEADER;
    expected := FRAME_HEADER;
    while n > 0
      invariant expected == ptr
      invariant Extent(m, FRAME_HEADER, Rounds(m)) == Extent(m, ptr, n)
    {
      var caplen := Le32(m, ptr + CAPLEN_OFFSET);
      if caplen == 0 {
        return 0;
      }
      expected, ptr, n := expected + HEADER + caplen, ptr + HEADER + caplen, n - 1;
    }
  }

  /** valid_framesize. */
  predicate ValidSize(m: Memory, actual: nat) {
    actual == Extent(m, FRAME_HEADER, Rounds(m))
  }

  lemma {:induction false} ExtentGrows(m: Memory, at: nat, n: nat)
    ensures Extent(m, at, n) == 0 || Extent(m, at, n) >= at + HEADER * n
    decreases n
  {
    if n > 0 {
      ExtentGrows(m, at + HEADER + Le32(m, at + CAPLEN_OFFSET), n - 1);
    }
  }

  lemma SameLe32(m: Memory, k: Memory, at: nat, upto: nat)
    requires Agree(m, k, upto) && at + 4 <= upto
    ensures Le32(m, at) == Le32(k, at)
  {
    assert m(at) == k(at) && m(at + 1) == k(at + 1) && m(at + 2) == k(at + 2) && m(at + 3) == k(at + 3);
  }

  lemma {:induction false} ExtentAgrees(m: Memory, k: Memory, at: nat, n: nat, upto: nat)
    requires Agree(m, k, upto) && upto > 0
    ensures (Extent(m, at, n) == upto) == (Extent(k, at, n) == upto)
    decreases n
  {
    if n > 0 {
      if at + HEADER <= upto {
        SameLe32(m, k, at + CAPLEN_OFFSET, upto);
        ExtentStep(m, at, n);
        ExtentStep(k, at, n);
        ExtentAgrees(m, k, at + HEADER + Le32(m, at + CAPLEN_OFFSET), n - 1, upto);
      } else {
        ExtentBeyond(m, at, n, upto);
        ExtentBeyond(k, at, n, upto);
      }
    }
  }

  lemma {:induction false} ExtentBeyond(m: Memory, at: nat, n: nat, upto: nat)
    requires n > 0 && 0 < upto < at + HEADER
    ensures Extent(m, at, n) != upto
  {
    ExtentGrows(m, at, n);
  }

  /** Although the size check reads past the frame, its verdict never depends on what is there. */
  lemma VerdictIgnoresGarbage(m: Memory, k: Memory, actual: nat)
    requires actual > 0 && Agree(m, k, actual)
    ensures ValidSize(m, actual) == ValidSize(k, actual)
    ensures ValidSize(m, actual) ==> actual >= FRAME_HEADER
  {
    ExtentGrows(m, FRAME_HEADER, Rounds(m));
    ExtentGrows(k, FRAME_HEADER, Rounds(k));
    if actual >= FRAME_HEADER {
      ExtentAgrees(m, k, FRAME_HEADER, Rounds(m), actual);
    }
  }

  /** A received frame as memory. */
  function At(d: Frame): Memory {
    (i: nat) => if i < |d| then d[i] else 0
  }

  /** `n` non-empty records starting at `at` fill the frame exactly to its end. */
  predicate Chain(d: Frame, at: nat, n: nat)
    decreases n
  {
    at <= |d| &&
    if n == 0 then at == |d| else
      Whole(d[at..]) && CapLen(d[at..]) > 0 && Chain(d, at + Size(d[at..]), n - 1)
  }

  function PacketsFrom(d: Frame, at: nat, n: nat): (rs: seq<Record>)
    requires Chain(d, at, n)
    decreases n
  {
    if n == 0 then [] else [d[at..at + Size(d[at..])]] + PacketsFrom(d, at + Size(d[at..]), n - 1)
  }

  /** The frame lies at the start of memory. */
  ghost predicate Starts(m: Memory, d: Frame) {
    forall i: nat :: i < |d| ==> m(i) == d[i]
  }

  lemma MemoryCapLen(m: Memory, d: Frame, at: nat)
    requires Starts(m, d) && at + HEADER <= |d|
    ensures Le32(m, at + CAPLEN_OFFSET) == CapLen(d[at..])
  {
    var r := d[at..];
    assert r[32] == d[at + 32] && r[33] == d[at + 33] && r[34] == d[at + 34] && r[35] == d[at + 35];
  }

  lemma ExtentStep(m: Memory, at: nat, n: nat)
    requires n > 0
    ensures var len := Le32(m, at + CAPLEN_OFFSET);
      Extent(m, at, n) == if len == 0 then 0 else Extent(m, at + HEADER + len, n - 1)
  {
  }

  lemma ChainStep(d: Frame, at: nat, n: nat)
    requires n > 0 && at + HEADER <= |d|
    ensures var len := CapLen(d[at..]); Chain(d, at, n) <==> len > 0 && Chain(d, at + HEADER + len, n - 1)
  {
  }

  lemma {:induction false} ExtentIsChain(m: Memory, d: Frame, at: nat, n: nat)
    requires Starts(m, d) && |d| > 0
    ensures (Extent(m, at, n) == |d|) <==> Chain(d, at, n)
    decreases n
  {
    if n > 0 {
      if at + HEADER <= |d| {
        MemoryCapLen(m, d, at);
        ExtentStep(m, at, n);
        ChainStep(d, at, n);
        ExtentIsChain(m, d, at + HEADER + CapLen(d[at..]), n - 1);
      } else {
        ExtentGrows(m, at, n);
      }
    }
  }

  lemma CapLenOfPrefix(b: seq<byte>, r: Record)
    requires Whole(b) && r == b[..Size(b)]
    ensures WellFormed(r)
  {
    assert forall i :: 0 <= i < HEADER ==> r[i] == b[i];
  }

  /** The first packet and those after it. */
  lemma PacketsStep(d: Frame, at: nat, n: nat) returns (head: Record, next: nat)
    requires n > 0 && Chain(d, at, n)
    ensures at <= next <= |d| && Chain(d, next, n - 1) && head == d[at..next] && WellFormed(head)
    ensures PacketsFrom(d, at, n) == [head] + PacketsFrom(d, next, n - 1)
  {
    next := at + Size(d[at..]);
    head := d[at..next];
    assert head == d[at..][..Size(d[at..])];
    CapLenOfPrefix(d[at..], head);
  }

  lemma {:induction false} PacketsFill(d: Frame, at: nat, n: nat)
    requires Chain(d, at, n)
    ensures |PacketsFrom(d, at, n)| == n && Flatten(PacketsFrom(d, at, n)) == d[at..]
    ensures forall i :: 0 <= i < n ==> WellFormed(PacketsFrom(d, at, n)[i])
    decreases n
  {
    if n > 0 {
      var head, next := PacketsStep(d, at, n);
      PacketsFill(d, next, n - 1);
      FlattenCons(head, PacketsFrom(d, next, n - 1));
      assert d[at..] == head + d[next..];
    }
  }

  lemma {:induction false} FlattenCons(r: Record, rs: seq<Record>)
    ensures Flatten([r] + rs) == r + Flatten(rs)
  {
    assert ([r] + rs)[1..] == rs;
  }

  function Count(d: Frame): u32 { PacketCount(At(d)) }

  /** A frame whose packet count is positive and not negative as a C int. */
  predicate Countable(d: Frame) { 1 <= Count(d) < 0x8000_0000 }

  /** A frame that announces more packets than a C int counts passes exactly if it consists of its headers. */
  lemma OverlongFrame(d: Frame)
    requires Count(d) >= 0x8000_0000
    ensures ValidSize(At(d), |d|) <==> |d| == 30
  {
  }

  /** A frame passes the size check exactly when the number of non-empty records it announces
      fill it from the end of the headers to the last received byte; walking that many records
      therefore consumes exactly the received bytes. */
  lemma {:induction false} AcceptedFrameIsConsumed(d: Frame)
    requires |d| > 0 && Countable(d)
    ensures ValidSize(At(d), |d|) <==> Chain(d, FRAME_HEADER, Count(d))
    ensures ValidSize(At(d), |d|) ==>
      && |PacketsFrom(d, FRAME_HEADER, Count(d))| == Count(d)
      && Flatten(PacketsFrom(d, FRAME_HEADER, Count(d))) == d[FRAME_HEADER..]
      && forall i :: 0 <= i < Count(d) ==> WellFormed(PacketsFrom(d, FRAME_HEADER, Count(d))[i])
  {
    ExtentIsChain(At(d), d, FRAME_HEADER, Count(d));
    if ValidSize(At(d), |d|) {
      PacketsFill(d, FRAME_HEADER, Count(d));
    }
  }
}
