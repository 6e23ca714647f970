/** Decompressing domain names (src/protocols/dns.c): labels are copied into a fixed buffer as text,
    pointers to earlier labels are followed, and a table of visited pointers stops loops. */
module DnsNames {
  import opened Optional
  import opened Bytes

  const MAX_LABEL_REFERENCES := 32
  const DOT: byte := 46
  const NUL: byte := 0

  /** "[malformed]" */
  const MALFORMED: seq<byte> := [91, 109, 97, 108, 102, 111, 114, 109, 101, 100, 93]

  /** The output buffer, the position to write at and the room left for text; while there is room,
      three bytes more are kept for a trailing "...". */
  datatype Buffer = Buffer(bytes: seq<byte>, dst: nat, size: nat)

  ghost predicate Fits(b: Buffer) {
    b.size > 0 ==> b.dst + b.size + 3 <= |b.bytes|
  }

  function Put(bs: seq<byte>, at: nat, data: seq<byte>): (r: seq<byte>)
    requires at + |data| <= |bs|
    ensures |r| == |bs|
  {
    bs[..at] + data + bs[at + |data|..]
  }

  /** The characters "%.*s" prints of `len` bytes: up to the first NUL. */
  function Text(m: Memory, src: nat, len: nat): (t: seq<byte>)
    ensures |t| <= len
    decreases len
  {
    if len == 0 || m(src) == NUL then [] else [m(src)] + Text(m, src + 1, len - 1)
  }

  /** What snprintf leaves of `data` in `room` bytes, terminator included. */
  function Printed(data: seq<byte>, room: nat): (r: seq<byte>)
    requires room > 0
    ensures 0 < |r| <= room
  {
    data[..Min(|data|, room - 1)] + [NUL]
  }

  /** copy_label: the buffer afterwards, with `size` still unchanged, and the number of bytes the
      caller takes off it. */
  function CopyLabel(b: Buffer, text: seq<byte>): (r: (Buffer, nat))
    requires Fits(b)
    ensures |r.0.bytes| == |b.bytes| && r.1 <= b.size && r.0.dst == b.dst + r.1 && r.0.size == b.size
  {
    if b.size == 0 then (b, 0) else
      var data := text[..Min(|text|, b.size)] + [DOT];
      var printed := Put(b.bytes, b.dst, Printed(data, b.size));
      var dst := b.dst + Min(|data|, b.size);
      if |data| > b.size then (Buffer(Put(printed, dst - 1, [DOT, DOT, DOT, NUL]), dst, b.size), b.size)
      else (Buffer(printed, dst, b.size), |data|)
  }

  /** A label copied and accounted for. */
  function AddLabel(b: Buffer, text: seq<byte>): (r: Buffer)
    requires Fits(b)
    ensures Fits(r) && |r.bytes| == |b.bytes| && r.dst + r.size == b.dst + b.size
  {
    var (c, used) := CopyLabel(b, text);
    c.(size := b.size - used)
  }

  predicate IsPointer(len: byte) {
    len >= 0xc0
  }

  function Target(m: Memory, src: nat, len: byte): nat {
    (len % 0x40) * 0x100 + m(src)
  }

  /** A pointer that must not be followed: null, seen before, or one too many. */
  predicate Refused(offset: nat, visited: seq<nat>) {
    offset == 0 || offset in visited || |visited| >= MAX_LABEL_REFERENCES
  }

  /** dns_name_int: the position after the name, none for NULL, and the buffer. */
  function NameAt(m: Memory, end: nat, src: nat, visited: seq<nat>, b: Buffer): (r: (Option<nat>, Buffer))
    requires Fits(b) && |visited| <= MAX_LABEL_REFERENCES
    ensures |r.1.bytes| == |b.bytes|
    decreases MAX_LABEL_REFERENCES - |visited|, end - src, 1
  {
    if src >= end then (None, b) else LabelsAt(m, end, src + 1, m(src), visited, b)
  }

  /** The loop of dns_name_int, with the length byte `len` just read from before `src`. */
  function LabelsAt(m: Memory, end: nat, src: nat, len: byte, visited: seq<nat>, b: Buffer): (r: (Option<nat>, Buffer))
    requires Fits(b) && |visited| <= MAX_LABEL_REFERENCES && src <= end
    ensures |r.1.bytes| == |b.bytes|
    decreases MAX_LABEL_REFERENCES - |visited|, end - src, 0
  {
    if IsPointer(len) then
      var offset := Target(m, src, len);
      if Refused(offset, visited) then (Some(src + 1), CopyLabel(b, MALFORMED).0)
      else (Some(src + 1), NameAt(m, end, offset, visited + [offset], b).1)
    else
      var c := AddLabel(b, Text(m, src, len));
      var next := src + len;
      if next >= end then (None, c)
      else if m(next) == 0 then (Some(next + 1), c)
      else LabelsAt(m, end, next + 1, m(next), visited, c)
  }

  /** Writing touches only the room left and the three bytes after it, and nothing when no room is left. */
  ghost predicate Kept(b: Buffer, r: Buffer) {
    && |r.bytes| == |b.bytes| && b.dst <= r.dst
    && (b.size == 0 ==> r == b)
    && (b.size > 0 ==>
      && b.dst + b.size + 3 <= |b.bytes|
      && r.bytes[..b.dst] == b.bytes[..b.dst]
      && r.bytes[b.dst + b.size + 3..] == b.bytes[b.dst + b.size + 3..])
  }

  lemma PutKeeps(bs: seq<byte>, at: nat, data: seq<byte>, k: nat)
    requires at + |data| <= |bs| && k <= at
    ensures Put(bs, at, data)[..k] == bs[..k]
    ensures Put(bs, at, data)[at..at + |data|] == data
    ensures Put(bs, at, data)[at + |data|..] == bs[at + |data|..]
  {
  }

  lemma PrintedText(text: seq<byte>, room: nat)
    requires room > 0
    ensures var data := text[..Min(|text|, room)] + [DOT]; var k := Min(|text| + 1, room - 1);
            Printed(data, room) == (text + [DOT])[..k] + [NUL] && Min(|data|, room) == Min(|text| + 1, room)
  {
    var data := text[..Min(|text|, room)] + [DOT];
    var k := Min(|text| + 1, room - 1);
    assert |data| > room - 1 || |data| == |text| + 1;
    assert data[..k] == (text + [DOT])[..k];
  }

  /** The text of a label as it is written: what fits of it and its dot, then NUL. */
  function Line(text: seq<byte>, room: nat): (r: seq<byte>)
    requires room > 0
    ensures |r| == Min(|text| + 2, room) && r[|r| - 1] == NUL
  {
    (text + [DOT])[..Min(|text| + 1, room - 1)] + [NUL]
  }

  const ELLIPSIS: seq<byte> := [46, 46, 46, 0]

  /** A copied label in closed form. */
  lemma CopyLabelIs(b: Buffer, text: seq<byte>)
    requires Fits(b) && b.size > 0
    ensures var printed := Put(b.bytes, b.dst, Line(text, b.size));
            var bytes := if |text| < b.size then printed else Put(printed, b.dst + b.size - 1, ELLIPSIS);
            var used := Min(|text| + 1, b.size);
            CopyLabel(b, text) == (Buffer(bytes, b.dst + used, b.size), used)
  {
    PrintedText(text, b.size);
  }

  lemma PutTwice(bs: seq<byte>, at: nat, data: seq<byte>, more: seq<byte>)
    requires |data| > 0 && at + |data| - 1 + |more| <= |bs| && |more| > 0
    ensures Put(Put(bs, at, data), at + |data| - 1, more) == Put(bs, at, data[..|data| - 1] + more)
  {
    var n := at + |data| - 1;
    assert Put(bs, at, data)[..n] == bs[..at] + data[..|data| - 1];
    assert Put(bs, at, data)[n + |more|..] == bs[n + |more|..];
  }

  /** What a copied label leaves in the buffer: what fits of the text and its dot, then NUL, or "..."
      when that leaves out more than the dot. */
  function Entry(text: seq<byte>, room: nat): (r: seq<byte>)
    requires room > 0
    ensures |r| <= room + 3
    ensures var k := Min(|text| + 1, room - 1); |r| > k && r[..k] == (text + [DOT])[..k]
  {
    (text + [DOT])[..Min(|text| + 1, room - 1)] + if |text| < room then [NUL] else ELLIPSIS
  }

  lemma CopyLabelWrites(b: Buffer, text: seq<byte>)
    requires Fits(b) && b.size > 0
    ensures var used := Min(|text| + 1, b.size);
            CopyLabel(b, text) == (Buffer(Put(b.bytes, b.dst, Entry(text, b.size)), b.dst + used, b.size), used)
  {
    CopyLabelIs(b, text);
    if |text| >= b.size {
      PutTwice(b.bytes, b.dst, Line(text, b.size), ELLIPSIS);
    }
  }

  lemma CopyKeeps(b: Buffer, text: seq<byte>)
    requires Fits(b)
    ensures Kept(b, CopyLabel(b, text).0) && Kept(b, AddLabel(b, text))
  {
    if b.size > 0 {
      CopyLabelWrites(b, text);
      var e := Entry(text, b.size);
      PutKeeps(b.bytes, b.dst, e, b.dst);
      SliceDrop(Put(b.bytes, b.dst, e), b.bytes, b.dst + |e|, b.dst + b.size + 3);
    }
  }

  lemma SliceDrop(x: seq<byte>, y: seq<byte>, i: nat, j: nat)
    requires i <= j <= |x| == |y| && x[i..] == y[i..]
    ensures x[j..] == y[j..]
  {
    assert x[j..] == x[i..][j - i..];
    assert y[j..] == y[i..][j - i..];
  }

  lemma SliceTake(x: seq<byte>, y: seq<byte>, i: nat, j: nat)
    requires i <= j <= |x| == |y| && x[..j] == y[..j]
    ensures x[..i] == y[..i]
  {
    assert x[..i] == x[..j][..i];
    assert y[..i] == y[..j][..i];
  }

  lemma KeptAgain(b: Buffer, c: Buffer, r: Buffer)
    requires Kept(b, c) && Kept(c, r) && c.dst + c.size == b.dst + b.size
    ensures Kept(b, r)
  {
    if c.size > 0 {
      SliceTake(c.bytes, r.bytes, b.dst, c.dst);
    }
  }

  /** For every message, cyclic or malformed, expansion writes only inside its room. */
  lemma {:induction false} NameKeeps(m: Memory, end: nat, src: nat, visited: seq<nat>, b: Buffer)
    requires Fits(b) && |visited| <= MAX_LABEL_REFERENCES
    ensures Kept(b, NameAt(m, end, src, visited, b).1)
    decreases MAX_LABEL_REFERENCES - |visited|, end - src, 2
  {
    if src < end {
      LabelsKeep(m, end, src + 1, m(src), visited, b);
    }
  }

  lemma {:induction false} LabelsKeep(m: Memory, end: nat, src: nat, len: byte, visited: seq<nat>, b: Buffer)
    requires Fits(b) && |visited| <= MAX_LABEL_REFERENCES && src <= end
    ensures Kept(b, LabelsAt(m, end, src, len, visited, b).1)
    decreases MAX_LABEL_REFERENCES - |visited|, end - src, 1
  {
    if IsPointer(len) {
      PointerKeeps(m, end, src, len, visited, b);
    } else {
      var text := Text(m, src, len);
      CopyKeeps(b, text);
      RestKeeps(m, end, src, src + len, visited, b, AddLabel(b, text), LabelsAt(m, end, src, len, visited, b).1);
    }
  }

  lemma {:induction false} PointerKeeps(m: Memory, end: nat, src: nat, len: byte, visited: seq<nat>, b: Buffer)
    requires Fits(b) && |visited| <= MAX_LABEL_REFERENCES && src <= end && IsPointer(len)
    ensures Kept(b, LabelsAt(m, end, src, len, visited, b).1)
    decreases MAX_LABEL_REFERENCES - |visited|, end - src, 0
  {
    var offset := Target(m, src, len);
    if Refused(offset, visited) {
      CopyKeeps(b, MALFORMED);
    } else {
      NameKeeps(m, end, offset, visited + [offset], b);
    }
  }

  lemma {:induction false} RestKeeps(
    m: Memory, end: nat, src: nat, next: nat, visited: seq<nat>, b: Buffer, c: Buffer, r: Buffer)
    requires Fits(c) && |visited| <= MAX_LABEL_REFERENCES && src <= next && src <= end
    requires Kept(b, c) && c.dst + c.size == b.dst + b.size
    requires r == if next < end && m(next) != 0 then LabelsAt(m, end, next + 1, m(next), visited, c).1 else c
    ensures Kept(b, r)
    decreases MAX_LABEL_REFERENCES - |visited|, end - src, 0
  {
    if next < end && m(next) != 0 {
      LabelsKeep(m, end, next + 1, m(next), visited, c);
      KeptAgain(b, c, r);
    }
  }

  /** The position returned lies after the length byte it started from. */
  lemma {:induction false} LabelsAdvance(m: Memory, end: nat, src: nat, len: byte, visited: seq<nat>, b: Buffer)
    requires Fits(b) && |visited| <= MAX_LABEL_REFERENCES && src <= end
    ensures var r := LabelsAt(m, end, src, len, visited, b).0; r.Some? ==> src < r.value <= end + 1
    decreases end - src
  {
    var next := src + len;
    if !IsPointer(len) && next < end && m(next) != 0 {
      LabelsAdvance(m, end, next + 1, m(next), visited, AddLabel(b, Text(m, src, len)));
    }
  }
}
