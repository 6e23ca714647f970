/** The capture file format: a stream of records, each a 36-byte `cap_header` whose last field is
    the number of payload bytes that follow it. */
module Records {
  import opened Bytes

  /** sizeof(struct cap_header), packed: nic[8] mampid[8] ts(4+8) len(4) caplen(4). */
  const HEADER := 36
  const CAPLEN_OFFSET := 32

  type Record = seq<byte>

  /** The last field of the header, least significant byte first. */
  function CapLen(b: seq<byte>): u32
    requires |b| >= HEADER
  {
    (b[32] as int) + 0x100 * (b[33] as int) + 0x1_0000 * (b[34] as int) + 0x100_0000 * (b[35] as int)
  }

  /** Header and payload together. */
  function Size(b: seq<byte>): (n: nat)
    requires |b| >= HEADER
  {
    HEADER + CapLen(b)
  }

  /** `b` starts with a complete record. */
  predicate Whole(b: seq<byte>) {
    |b| >= HEADER && |b| >= Size(b)
  }

  /** `b` starts with a complete record that a buffer of `cap` bytes can hold. */
  predicate Readable(b: seq<byte>, cap: nat) {
    Whole(b) && Size(b) <= cap
  }

  predicate WellFormed(r: Record) {
    |r| >= HEADER && |r| == Size(r)
  }

  /** One-shot parse of a whole byte stream, stopping at the first record that is incomplete or
      larger than `cap`. */
  function Parse(b: seq<byte>, cap: nat): (rs: seq<Record>)
    decreases |b|
  {
    if Readable(b, cap) then [b[..Size(b)]] + Parse(b[Size(b)..], cap) else []
  }

  function Flatten(rs: seq<Record>): seq<byte> {
    if rs == [] then [] else rs[0] + Flatten(rs[1..])
  }

  /** Every record written is read back: the parse inverts concatenation, whatever incomplete
      bytes trail the last record. */
  lemma {:induction false} ParseFlatten(rs: seq<Record>, tail: seq<byte>, cap: nat)
    requires forall r :: r in rs ==> WellFormed(r) && |r| <= cap
    requires !Readable(tail, cap)
    ensures Parse(Flatten(rs) + tail, cap) == rs
  {
    if rs == [] {
      assert Flatten(rs) + tail == tail;
    } else {
      var b := Flatten(rs) + tail;
      var rest := Flatten(rs[1..]) + tail;
      assert b == rs[0] + rest;
      assert b[..|rs[0]|] == rs[0] && b[|rs[0]|..] == rest;
      assert forall i :: 0 <= i < HEADER ==> b[i] == rs[0][i];
      assert rs[0] in rs && Size(b) == |rs[0]|;
      ParseFlatten(rs[1..], tail, cap);
    }
  }

  /** The parse yields well-formed records that fit the buffer. */
  lemma {:induction false} ParseWellFormed(b: seq<byte>, cap: nat)
    ensures forall i :: 0 <= i < |Parse(b, cap)| ==> WellFormed(Parse(b, cap)[i]) && |Parse(b, cap)[i]| <= cap
    decreases |b|
  {
    if Readable(b, cap) {
      ParseWellFormed(b[Size(b)..], cap);
      var head := b[..Size(b)];
      assert forall i :: 0 <= i < HEADER ==> head[i] == b[i];
    }
  }

  /** The parse loses nothing: its records are, in order, a prefix of the bytes, and what follows
      them does not start with a readable record. */
  lemma {:induction false} ParsePrefix(b: seq<byte>, cap: nat) returns (n: nat)
    ensures n <= |b| && Flatten(Parse(b, cap)) == b[..n] && !Readable(b[n..], cap)
    decreases |b|
  {
    if Readable(b, cap) {
      var head, rest := b[..Size(b)], b[Size(b)..];
      var m := ParsePrefix(rest, cap);
      var rs := Parse(b, cap);
      assert rs[0] == head && rs[1..] == Parse(rest, cap);
      n := |head| + m;
      assert b[..n] == head + rest[..m];
      assert b[n..] == rest[m..];
    } else {
      n := 0;
      assert b[0..] == b;
    }
  }
}
