/** The capture format written out field by field, apart from how the library reads it: what is written in
    this format is what readers deliver. */
module CaptureFormat {
  import opened Bytes
  import opened Records
  import opened Selection
  import opened Stream

  /** `n` bytes of a number, least significant first. */
  function LittleEndian(v: nat, n: nat): (bs: seq<byte>)
    ensures |bs| == n
  {
    if n == 0 then [] else [v % 0x100] + LittleEndian(v / 0x100, n - 1)
  }

  /** A captured packet: interface and measurement point, time, length on the wire and what was captured. */
  datatype Captured = Captured(
    nic: seq<byte>, mampid: seq<byte>, sec: u32, psec: u64, len: u32, payload: seq<byte>)

  ghost predicate Storable(c: Captured) {
    |c.nic| == 8 && |c.mampid| == 8 && |c.payload| < 0x1_0000_0000
  }

  /** The fields in the order of struct cap_header, without padding, and the captured bytes. */
  function Stored(c: Captured): seq<byte> {
    c.nic + c.mampid + LittleEndian(c.sec, 4) + LittleEndian(c.psec, 8) + LittleEndian(c.len, 4)
      + LittleEndian(|c.payload|, 4) + c.payload
  }

  function StoredAll(cs: seq<Captured>): seq<byte> {
    if cs == [] then [] else Stored(cs[0]) + StoredAll(cs[1..])
  }

  function RecordsOf(cs: seq<Captured>): seq<Record> {
    seq(|cs|, i requires 0 <= i < |cs| => Stored(cs[i]))
  }

  lemma {:induction false} FourBytes(v: u32)
    ensures var b := LittleEndian(v, 4);
      (b[0] as int) + 0x100 * (b[1] as int) + 0x1_0000 * (b[2] as int) + 0x100_0000 * (b[3] as int) == v
  {
    var w := v / 0x100;
    var x := w / 0x100;
    assert LittleEndian(v, 4) == [v % 0x100] + LittleEndian(w, 3);
    assert LittleEndian(w, 3) == [w % 0x100] + LittleEndian(x, 2);
    assert LittleEndian(x, 2) == [x % 0x100] + LittleEndian(x / 0x100, 1);
    assert LittleEndian(x / 0x100, 1) == [x / 0x100 % 0x100] + LittleEndian(x / 0x100 / 0x100, 0);
  }

  /** A stored packet is a record: 36 bytes and the payload, whose length the reader finds. */
  lemma StoredIsRecord(c: Captured)
    requires Storable(c)
    ensures |Stored(c)| == 36 + |c.payload| && Stored(c)[36..] == c.payload
    ensures WellFormed(Stored(c)) && CapLen(Stored(c)) == |c.payload|
  {
    var b, n := Stored(c), LittleEndian(|c.payload|, 4);
    assert b[32] == n[0] && b[33] == n[1] && b[34] == n[2] && b[35] == n[3];
    FourBytes(|c.payload|);
  }

  lemma {:induction false} StoredFlat(cs: seq<Captured>)
    ensures Flatten(RecordsOf(cs)) == StoredAll(cs)
  {
    if cs != [] {
      assert RecordsOf(cs)[0] == Stored(cs[0]) && RecordsOf(cs)[1..] == RecordsOf(cs[1..]);
      StoredFlat(cs[1..]);
    }
  }

  /** Every file written in the format is parsed into the packets that were written. */
  lemma {:induction false} ParseStored(cs: seq<Captured>, cap: nat)
    requires forall i :: 0 <= i < |cs| ==> Storable(cs[i]) && 36 + |cs[i].payload| <= cap
    ensures Parse(StoredAll(cs), cap) == RecordsOf(cs)
  {
    forall r | r in RecordsOf(cs) ensures WellFormed(r) && |r| <= cap {
      var i :| 0 <= i < |cs| && r == RecordsOf(cs)[i];
      StoredIsRecord(cs[i]);
    }
    ParseFlatten(RecordsOf(cs), [], cap);
    StoredFlat(cs);
    assert StoredAll(cs) + [] == StoredAll(cs);
  }

  /** Reading without a filter. */
  function AcceptAll(): Step<()> {
    (f, r) => (f, true)
  }

  lemma {:induction false} AllSelected(rs: seq<Record>)
    ensures Select(rs, AcceptAll(), ()) == rs
  {
    if rs != [] {
      AllSelected(rs[1..]);
      assert rs == [rs[0]] + rs[1..];
    }
  }

  /** Reading a file to its end, handed over in pieces of any size and with any pauses, delivers the packets
      that were written, each as it was and in order. */
  method ReadFile(cs: seq<Captured>, size: nat, script: seq<FillEvent>) returns (out: seq<Record>)
    requires size > 0 && Faultless(script)
    requires forall i :: 0 <= i < |cs| ==> Storable(cs[i]) && 36 + |cs[i].payload| <= size
    ensures out == RecordsOf(cs)
  {
    var st := new Reader(size, StoredAll(cs), script);
    ParseStored(cs, size);
    AllSelected(RecordsOf(cs));
    var last, g;
    out, last, g := ReadAll(st, AcceptAll(), ());
  }
}
