/** dns_name as it runs (src/protocols/dns.c): labels go into a byte buffer in place, and followed
    pointers into a table of slots shared by the nested calls. */
module DnsDecoder {
  import opened Optional
  import opened Bytes
  import opened DnsNames
  import DnsReference

  /** The table of visited pointers: the entries before the first free, zero, slot. */
  function Slots(v: seq<int>): (r: seq<nat>)
    requires forall i :: 0 <= i < |v| ==> v[i] >= 0
    ensures |r| <= |v| && (forall i :: 0 <= i < |r| ==> r[i] == v[i] && v[i] != 0)
    ensures |r| < |v| ==> v[|r|] == 0
  {
    if v == [] || v[0] == 0 then [] else [v[0]] + Slots(v[1..])
  }

  /** Slots are taken from the front. */
  ghost predicate Table(v: seq<int>) {
    && |v| == MAX_LABEL_REFERENCES && (forall i :: 0 <= i < |v| ==> v[i] >= 0)
    && (forall i :: |Slots(v)| <= i < |v| ==> v[i] == 0)
  }

  ghost predicate Distinct(s: seq<nat>) {
    forall i, j :: 0 <= i < j < |s| ==> s[i] != s[j]
  }

  /** The slots in use are known once the first free one is. */
  lemma {:induction false} SlotsAre(v: seq<int>, k: nat)
    requires forall i :: 0 <= i < |v| ==> v[i] >= 0
    requires k <= |v| && (forall i :: 0 <= i < k ==> v[i] != 0) && (k < |v| ==> v[k] == 0)
    ensures Slots(v) == v[..k]
  {
    if k > 0 {
      SlotsAre(v[1..], k - 1);
      assert v[..k] == [v[0]] + v[1..][..k - 1];
    }
  }

  method Store(buf: array<byte>, at: nat, data: seq<byte>)
    requires at + |data| <= buf.Length
    modifies buf
    ensures buf[..] == Put(old(buf[..]), at, data)
  {
    forall i | 0 <= i < |data| {
      buf[at + i] := data[i];
    }
    assert buf[..at] == old(buf[..at]);
    assert buf[at..at + |data|] == data;
    assert buf[at + |data|..] == old(buf[at + |data|..]);
    assert buf[..] == buf[..at] + buf[at..at + |data|] + buf[at + |data|..];
  }

  method CopyLabelInto(buf: array<byte>, dst: nat, size: nat, text: seq<byte>) returns (after: nat, used: nat)
    requires Fits(Buffer(buf[..], dst, size))
    modifies buf
    ensures (Buffer(buf[..], after, size), used) == CopyLabel(Buffer(old(buf[..]), dst, size), text)
  {
    if size == 0 { return dst, 0; }
    var data := text[..Min(|text|, size)] + [DOT];
    Store(buf, dst, Printed(data, size));
    after := dst + Min(|data|, size);
    used := |data|;
    if |data| > size {
      Store(buf, after - 1, [DOT, DOT, DOT, NUL]);
      used := size;
    }
  }

  method AddLabelInto(buf: array<byte>, at: nat, room: nat, text: seq<byte>) returns (dst: nat, size: nat)
    requires Fits(Buffer(buf[..], at, room))
    modifies buf
    ensures Buffer(buf[..], dst, size) == AddLabel(Buffer(old(buf[..]), at, room), text)
  {
    var used;
    dst, used := CopyLabelInto(buf, at, room, text);
    size := room - used;
  }

  /** The search of the table: a pointer that may be followed takes the first free slot. */
  method Visit(visited: array<int>, offset: nat) returns (ok: bool)
    requires Table(visited[..])
    modifies visited
    ensures Table(visited[..])
    ensures ok == !Refused(offset, Slots(old(visited[..])))
    ensures Slots(visited[..]) == Slots(old(visited[..])) + if ok then [offset] else []
  {
    ghost var seen := Slots(visited[..]);
    var i := 0;
    while i <= MAX_LABEL_REFERENCES
      invariant 0 <= i <= |seen| && visited[..] == old(visited[..])
      invariant offset !in seen[..i] && (i > 0 ==> offset != 0)
    {
      if offset == 0 || i == MAX_LABEL_REFERENCES || visited[i] == offset {
        assert i < |seen| && visited[i] == offset ==> seen[i] == offset;
        return false;
      }
      if visited[i] == 0 {
        assert i == |seen|;
        visited[i] := offset;
        SlotsAfter(old(visited[..]), visited[..], offset);
        return true;
      }
      assert seen[..i + 1] == seen[..i] + [seen[i]];
      i := i + 1;
    }
    assert false;
  }

  lemma {:induction false} SlotsAfter(v: seq<int>, w: seq<int>, offset: nat)
    requires Table(v) && |Slots(v)| < |v| && offset != 0 && w == v[|Slots(v)| := offset]
    ensures Table(w) && Slots(w) == Slots(v) + [offset]
  {
    var k := |Slots(v)|;
    assert forall i :: 0 <= i < k ==> w[i] == Slots(v)[i];
    SlotsAre(w, k + 1);
    assert w[..k] == Slots(v);
  }

  ghost predicate Extends(v: seq<nat>, w: seq<nat>) {
    v <= w && (Distinct(v) ==> Distinct(w))
  }

  lemma VisitExtends(v: seq<nat>, offset: nat, w: seq<nat>)
    requires offset !in v && Extends(v + [offset], w)
    ensures Extends(v, w)
  {
    assert forall i :: 0 <= i < |v| ==> v[i] == (v + [offset])[i] == w[i];
  }

  lemma LabelStep(m: Memory, end: nat, src: nat, len: byte, seen: seq<nat>, b: Buffer)
    requires Fits(b) && |seen| <= MAX_LABEL_REFERENCES && src <= end && !IsPointer(len)
    ensures var c := AddLabel(b, Text(m, src, len)); var next := src + len;
            LabelsAt(m, end, src, len, seen, b) ==
              if next >= end then (None, c)
              else if m(next) == 0 then (Some(next + 1), c)
              else LabelsAt(m, end, next + 1, m(next), seen, c)
  {
  }

  /** The loop of dns_name_int up to a pointer: copies labels until it meets one, or the end. */
  method CopyLabels(m: Memory, end: nat, start: nat, buf: array<byte>, at: nat, room: nat, ghost seen: seq<nat>)
    returns (done: bool, pos: Option<nat>, src: nat, len: byte, dst: nat, size: nat)
    requires Fits(Buffer(buf[..], at, room)) && |seen| <= MAX_LABEL_REFERENCES && start < end
    modifies buf
    ensures Fits(Buffer(buf[..], dst, size)) && (!done ==> src <= end && IsPointer(len))
    ensures NameAt(m, end, start, seen, Buffer(old(buf[..]), at, room)) ==
      if done then (pos, Buffer(buf[..], dst, size)) else LabelsAt(m, end, src, len, seen, Buffer(buf[..], dst, size))
  {
    dst, size, pos := at, room, None;
    ghost var result := NameAt(m, end, start, seen, Buffer(buf[..], at, room));
    src, len := start + 1, m(start);
    while !IsPointer(len)
      invariant src <= end && Fits(Buffer(buf[..], dst, size))
      invariant LabelsAt(m, end, src, len, seen, Buffer(buf[..], dst, size)) == result
      decreases end - src
    {
      LabelStep(m, end, src, len, seen, Buffer(buf[..], dst, size));
      dst, size := AddLabelInto(buf, dst, size, Text(m, src, len));
      src := src + len;
      if src >= end { return true, None, src, len, dst, size; }
      len := m(src);
      src := src + 1;
      if len == 0 { return true, Some(src), src, len, dst, size; }
    }
    done := false;
  }

  /** dns_name_int. Every pointer followed is first recorded, so at most 32 are, and none twice. */
  method Expand(m: Memory, end: nat, start: nat, visited: array<int>, buf: array<byte>, at: nat, room: nat)
    returns (pos: Option<nat>, dst: nat, size: nat)
    requires Fits(Buffer(buf[..], at, room)) && Table(visited[..])
    modifies visited, buf
    ensures Table(visited[..]) && Extends(Slots(old(visited[..])), Slots(visited[..]))
    ensures (pos, Buffer(buf[..], dst, size)) == NameAt(m, end, start, Slots(old(visited[..])), Buffer(old(buf[..]),
      at, room))
    decreases MAX_LABEL_REFERENCES - |Slots(visited[..])|, 1
  {
    if start >= end { return None, at, room; }
    var done, src, len;
    done, pos, src, len, dst, size := CopyLabels(m, end, start, buf, at, room, Slots(visited[..]));
    if !done {
      dst, size := Follow(m, end, src, len, visited, buf, dst, size);
      pos := Some(src + 1);
    }
  }

  /** The pointer branch of dns_name_int. */
  method Follow(m: Memory, end: nat, src: nat, len: byte, visited: array<int>, buf: array<byte>, at: nat, room: nat)
    returns (dst: nat, size: nat)
    requires Fits(Buffer(buf[..], at, room)) && Table(visited[..]) && src <= end && IsPointer(len)
    modifies visited, buf
    ensures Table(visited[..]) && Extends(Slots(old(visited[..])), Slots(visited[..]))
    ensures var r := LabelsAt(m, end, src, len, Slots(old(visited[..])), Buffer(old(buf[..]), at, room));
            r.0 == Some(src + 1) && r.1 == Buffer(buf[..], dst, size)
    decreases MAX_LABEL_REFERENCES - |Slots(visited[..])|, 0
  {
    ghost var seen := Slots(visited[..]);
    var offset := Target(m, src, len);
    var ok := Visit(visited, offset);
    size := room;
    if !ok {
      var used;
      dst, used := CopyLabelInto(buf, at, size, MALFORMED);
    } else {
      var rest;
      rest, dst, size := Expand(m, end, offset, visited, buf, at, room);
      VisitExtends(seen, offset, Slots(visited[..]));
    }
  }

  /** dns_name with the whole of `buf` for the text, and none for an empty one. */
  method Decode(m: Memory, end: nat, src: nat, buf: array<byte>) returns (pos: Option<nat>)
    requires buf.Length == 0 || buf.Length >= 3
    modifies buf
    ensures (pos, buf[..]) == DnsReference.DnsName(m, end, src, old(buf[..]))
  {
    var size := if buf.Length == 0 then 0 else buf.Length - 3;
    var labels := new int[MAX_LABEL_REFERENCES](_ => 0);
    SlotsAre(labels[..], 0);
    var dst;
    pos, dst, size := Expand(m, end, src, labels, buf, 0, size);
  }
}
