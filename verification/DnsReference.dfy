/** Domain names as section 4.1.4 of RFC 1035 defines them, and when the decoder agrees. */
module DnsReference {
  import opened Optional
  import opened Bytes
  import opened DnsNames

  /** A name: its labels, the position after it, and the pointers it goes through in order. */
  datatype Name = Name(labels: seq<seq<byte>>, next: nat, pointers: seq<nat>)

  /** `len` bytes from `pos`. */
  function Raw(m: Memory, pos: nat, len: nat): (r: seq<byte>)
    ensures |r| == len
    decreases len
  {
    if len == 0 then [] else [m(pos)] + Raw(m, pos + 1, len - 1)
  }

  /** The name at `pos`: labels of 1 to 63 bytes up to a zero byte or a pointer to the rest of the name.
      None if it leaves the message or goes through more than `depth` pointers; a name is well formed
      when some depth is enough, which rules out cycles. */
  function Name1035(m: Memory, end: nat, pos: nat, depth: nat): (r: Option<Name>)
    ensures r.Some? ==> pos < end && |r.value.pointers| <= depth
    decreases depth, end - pos
  {
    if pos >= end then None
    else if m(pos) == 0 then Some(Name([], pos + 1, []))
    else if m(pos) >= 0xc0 then
      if pos + 1 >= end || depth == 0 then None else
        var target := (m(pos) - 0xc0) * 0x100 + m(pos + 1);
        var rest := Name1035(m, end, target, depth - 1);
        if rest.None? then None else Some(Name(rest.value.labels, pos + 2, [target] + rest.value.pointers))
    else if m(pos) >= 0x40 then None
    else
      var rest := Name1035(m, end, pos + 1 + m(pos), depth);
      if rest.None? then None
      else Some(Name([Raw(m, pos + 1, m(pos))] + rest.value.labels, rest.value.next, rest.value.pointers))
  }

  /** The labels as text, each followed by a dot. */
  function Dotted(labels: seq<seq<byte>>): seq<byte> {
    if labels == [] then [] else labels[0] + [DOT] + Dotted(labels[1..])
  }

  /** A label as C prints it: up to its first NUL. */
  function Cut(l: seq<byte>): (r: seq<byte>)
    ensures |r| <= |l|
  {
    if l == [] || l[0] == 0 then [] else [l[0]] + Cut(l[1..])
  }

  /** The labels so printed, each followed by a dot. */
  function Spelled(labels: seq<seq<byte>>): seq<byte> {
    if labels == [] then [] else Cut(labels[0]) + [DOT] + Spelled(labels[1..])
  }

  ghost predicate NulFree(labels: seq<seq<byte>>) {
    forall l :: l in labels ==> 0 !in l
  }

  lemma {:induction false} CutWhole(l: seq<byte>)
    ensures 0 !in l ==> Cut(l) == l
    ensures |Cut(l)| == |l| ==> 0 !in l
  {
    if l != [] {
      CutWhole(l[1..]);
      assert l == [l[0]] + l[1..];
    }
  }

  /** Nothing is left out of the labels exactly if none of them holds a NUL. */
  lemma {:induction false} SpelledWhole(labels: seq<seq<byte>>)
    ensures |Spelled(labels)| <= |Dotted(labels)|
    ensures NulFree(labels) ==> Spelled(labels) == Dotted(labels)
    ensures |Spelled(labels)| == |Dotted(labels)| ==> NulFree(labels)
  {
    if labels != [] {
      CutWhole(labels[0]);
      SpelledWhole(labels[1..]);
      assert labels == [labels[0]] + labels[1..];
    }
  }

  // -- Pointers of a well-formed name --

  /** The depth allowed does not change a name. */
  lemma {:induction false} DepthIrrelevant(m: Memory, end: nat, pos: nat, d: nat, e: nat)
    requires Name1035(m, end, pos, d).Some? && Name1035(m, end, pos, e).Some?
    ensures Name1035(m, end, pos, d) == Name1035(m, end, pos, e)
    decreases d, end - pos
  {
    if m(pos) == 0 {
    } else if m(pos) >= 0xc0 {
      DepthIrrelevant(m, end, (m(pos) - 0xc0) * 0x100 + m(pos + 1), d - 1, e - 1);
    } else {
      DepthIrrelevant(m, end, pos + 1 + m(pos), d, e);
    }
  }

  /** Reading on from a pointer's target goes through exactly the pointers after it. */
  lemma {:induction false} PointersAfter(m: Memory, end: nat, pos: nat, d: nat, n: Name, j: nat) returns (r: Name)
    requires Name1035(m, end, pos, d) == Some(n) && j < |n.pointers|
    ensures j < d && Name1035(m, end, n.pointers[j], d - 1 - j) == Some(r) && r.pointers == n.pointers[j + 1..]
    decreases d, end - pos
  {
    if m(pos) < 0xc0 {
      var rest := Name1035(m, end, pos + 1 + m(pos), d).value;
      r := PointersAfter(m, end, pos + 1 + m(pos), d, rest, j);
    } else {
      var rest := Name1035(m, end, n.pointers[0], d - 1).value;
      assert n.pointers[1..] == rest.pointers;
      if j == 0 {
        r := rest;
      } else {
        r := PointersAfter(m, end, n.pointers[0], d - 1, rest, j - 1);
        assert n.pointers[j + 1..] == rest.pointers[j..];
      }
    }
  }

  /** A well-formed name goes through no pointer twice. */
  lemma {:induction false} PointersDistinct(m: Memory, end: nat, pos: nat, d: nat, i: nat, j: nat)
    requires Name1035(m, end, pos, d).Some? && i < j < |Name1035(m, end, pos, d).value.pointers|
    ensures Name1035(m, end, pos, d).value.pointers[i] != Name1035(m, end, pos, d).value.pointers[j]
  {
    var n := Name1035(m, end, pos, d).value;
    var r := PointersAfter(m, end, pos, d, n, i);
    var s := PointersAfter(m, end, pos, d, n, j);
    if n.pointers[i] == n.pointers[j] {
      DepthIrrelevant(m, end, n.pointers[i], d - 1 - i, d - 1 - j);
      assert false;
    }
  }

  // -- The decoder on well-formed names --

  /** The pointers can all be followed with those in `visited` already recorded. */
  ghost predicate Followable(ps: seq<nat>, visited: seq<nat>) {
    && |visited| + |ps| <= MAX_LABEL_REFERENCES
    && (forall i :: 0 <= i < |ps| ==> ps[i] != 0 && ps[i] !in visited)
    && (forall i, j :: 0 <= i < j < |ps| ==> ps[i] != ps[j])
  }

  /** No pointer leads to a zero byte. */
  ghost predicate NoEmptyTarget(m: Memory, ps: seq<nat>) {
    forall p :: p in ps ==> m(p) != 0
  }

  lemma FollowFirst(ps: seq<nat>, visited: seq<nat>)
    requires |ps| > 0 && Followable(ps, visited)
    ensures !Refused(ps[0], visited) && Followable(ps[1..], visited + [ps[0]])
  {
  }

  lemma {:induction false} TextIsCut(m: Memory, pos: nat, len: nat)
    ensures Text(m, pos, len) == Cut(Raw(m, pos, len))
    decreases len
  {
    if len > 0 {
      assert Raw(m, pos, len)[1..] == Raw(m, pos + 1, len - 1);
      TextIsCut(m, pos + 1, len - 1);
    }
  }

  /** The position after the name, for every buffer, whatever bytes the labels hold and whether or not its
      pointers can be followed. */
  lemma {:induction false} PositionRight(m: Memory, end: nat, pos: nat, d: nat, visited: seq<nat>, b: Buffer)
    requires Fits(b) && Name1035(m, end, pos, d).Some? && m(pos) != 0 && |visited| <= MAX_LABEL_REFERENCES
    ensures NameAt(m, end, pos, visited, b).0 == Some(Name1035(m, end, pos, d).value.next)
    decreases end - pos
  {
    var n := Name1035(m, end, pos, d).value;
    if m(pos) < 0xc0 {
      var next := pos + 1 + m(pos);
      if m(next) != 0 {
        PositionRight(m, end, next, d, visited, AddLabel(b, Text(m, pos + 1, m(pos))));
      }
    }
  }

  /** The room a name's text is written to shows it. */
  ghost predicate Shows(r: Buffer, dst: nat, size: nat, text: seq<byte>)
    requires size > 0 && dst + size + 3 <= |r.bytes|
  {
    match r case Buffer(bytes, _, _) =>
      var k := Min(|text|, size - 1);
      bytes[dst..dst + k] == text[..k] && (|text| <= size ==> bytes[dst + k] == 0)
  }

  lemma ShowsLabel(b: Buffer, text: seq<byte>)
    requires Fits(b) && b.size > 0
    ensures var c := AddLabel(b, text); var used := Min(|text| + 1, b.size);
            Shows(c, b.dst, b.size, text + [DOT]) && c.dst == b.dst + used && c.size == b.size - used
  {
    CopyLabelWrites(b, text);
    var e := Entry(text, b.size);
    PutKeeps(b.bytes, b.dst, e, b.dst);
    SliceWithin(Put(b.bytes, b.dst, e), b.dst, e, Min(|text| + 1, b.size - 1));
  }

  lemma SliceWithin(x: seq<byte>, at: nat, e: seq<byte>, k: nat)
    requires at + |e| <= |x| && x[at..at + |e|] == e && k < |e|
    ensures x[at..at + k] == e[..k] && x[at + k] == e[k]
  {
    assert x[at..at + k] == x[at..at + |e|][..k];
    assert x[at + k] == x[at..at + |e|][k];
  }

  lemma SliceJoin(x: seq<byte>, y: seq<byte>, i: nat, j: nat, k: nat)
    requires i <= j <= k <= |x| == |y| && x[..j] == y[..j]
    ensures x[i..k] == y[i..j] + x[j..k]
  {
    assert x[i..k] == x[i..j] + x[j..k];
    assert x[i..j] == x[..j][i..] == y[..j][i..];
  }

  /** Text after a label is shown after it. */
  lemma ShowsMore(b: Buffer, c: Buffer, r: Buffer, line: seq<byte>, more: seq<byte>)
    requires Fits(b) && b.size > 0 && |r.bytes| == |b.bytes| == |c.bytes| && Shows(c, b.dst, b.size, line)
    requires c.dst == b.dst + Min(|line|, b.size) && c.size == b.size - Min(|line|, b.size) && Kept(c, r)
    requires c.size > 0 ==> Shows(r, c.dst, c.size, more)
    ensures Shows(r, b.dst, b.size, line + more)
  {
    var k := Min(|line + more|, b.size - 1);
    if c.size > 0 {
      SliceJoin(r.bytes, c.bytes, b.dst, c.dst, b.dst + k);
      assert (line + more)[..k] == line + more[..k - |line|];
    } else {
      assert (line + more)[..k] == line[..k];
    }
  }

  /** A label first: the rest of the name, and what the decoder does. */
  lemma LabelSplit(m: Memory, end: nat, pos: nat, d: nat, n: Name, visited: seq<nat>, b: Buffer)
    returns (rest: Name, text: seq<byte>)
    requires Fits(b) && Name1035(m, end, pos, d) == Some(n) && 0 < m(pos) < 0xc0 && Followable(n.pointers, visited)
    ensures Name1035(m, end, pos + 1 + m(pos), d) == Some(rest) && pos + 1 + m(pos) < end
    ensures Followable(rest.pointers, visited) && rest.pointers == n.pointers && |visited| <= MAX_LABEL_REFERENCES
    ensures Spelled(n.labels) == (text + [DOT]) + Spelled(rest.labels)
    ensures var c := AddLabel(b, text); var next := pos + 1 + m(pos);
            NameAt(m, end, pos, visited, b).1 == if m(next) == 0 then c else NameAt(m, end, next, visited, c).1
    ensures m(pos + 1 + m(pos)) == 0 ==> rest == Name([], pos + 2 + m(pos), [])
  {
    rest := Name1035(m, end, pos + 1 + m(pos), d).value;
    text := Text(m, pos + 1, m(pos));
    assert n.labels[1..] == rest.labels;
    TextIsCut(m, pos + 1, m(pos));
  }

  /** A pointer first: likewise. */
  lemma PointerSplit(m: Memory, end: nat, pos: nat, d: nat, n: Name, visited: seq<nat>, b: Buffer)
    returns (rest: Name, target: nat)
    requires Fits(b) && Name1035(m, end, pos, d) == Some(n) && m(pos) >= 0xc0 && Followable(n.pointers, visited)
    ensures d > 0 && Name1035(m, end, target, d - 1) == Some(rest)
    ensures Followable(rest.pointers, visited + [target])
    ensures rest.labels == n.labels && n.pointers == [target] + rest.pointers
    ensures |visited| < MAX_LABEL_REFERENCES
    ensures NameAt(m, end, pos, visited, b).1 == NameAt(m, end, target, visited + [target], b).1
    ensures m(target) == 0 ==> rest.labels == [] && target < end
    ensures NoEmptyTarget(m, n.pointers) <==> m(target) != 0 && NoEmptyTarget(m, rest.pointers)
  {
    target := n.pointers[0];
    rest := Name1035(m, end, target, d - 1).value;
    FollowFirst(n.pointers, visited);
    assert n.pointers[1..] == rest.pointers;
  }

  /** The text of a name, for every room: all of it when it fits, and its beginning otherwise. */
  lemma {:induction false} TextRight(m: Memory, end: nat, pos: nat, d: nat, n: Name, visited: seq<nat>, b: Buffer)
    requires Fits(b) && b.size > 0 && Name1035(m, end, pos, d) == Some(n) && m(pos) != 0
    requires Followable(n.pointers, visited) && |visited| <= MAX_LABEL_REFERENCES && NoEmptyTarget(m, n.pointers)
    ensures Shows(NameAt(m, end, pos, visited, b).1, b.dst, b.size, Spelled(n.labels))
    decreases d, end - pos, 1
  {
    if m(pos) >= 0xc0 {
      var rest, target := PointerSplit(m, end, pos, d, n, visited, b);
      TextRight(m, end, target, d - 1, rest, visited + [target], b);
    } else {
      TextAfter(m, end, pos, d, n, visited, b);
    }
  }

  lemma {:induction false} TextAfter(m: Memory, end: nat, pos: nat, d: nat, n: Name, visited: seq<nat>, b: Buffer)
    requires Fits(b) && b.size > 0 && Name1035(m, end, pos, d) == Some(n) && 0 < m(pos) < 0xc0
    requires Followable(n.pointers, visited) && |visited| <= MAX_LABEL_REFERENCES && NoEmptyTarget(m, n.pointers)
    ensures Shows(NameAt(m, end, pos, visited, b).1, b.dst, b.size, Spelled(n.labels))
    decreases d, end - pos, 0
  {
    var rest, text := LabelSplit(m, end, pos, d, n, visited, b);
    var next := pos + 1 + m(pos);
    var c := AddLabel(b, text);
    var r := NameAt(m, end, pos, visited, b).1;
    if m(next) != 0 {
      if c.size > 0 {
        TextRight(m, end, next, d, rest, visited, c);
      }
      NameKeeps(m, end, next, visited, c);
    }
    JoinText(b, c, r, text, n.labels, rest.labels);
  }

  lemma {:induction false} JoinText(
    b: Buffer, c: Buffer, r: Buffer, text: seq<byte>, labels: seq<seq<byte>>, rest: seq<seq<byte>>)
    requires Fits(b) && b.size > 0 && c == AddLabel(b, text) && Spelled(labels) == (text + [DOT]) + Spelled(rest)
    requires (r == c && rest == []) || (Kept(c, r) && (c.size > 0 ==> Shows(r, c.dst, c.size, Spelled(rest))))
    ensures |r.bytes| == |b.bytes| && Shows(r, b.dst, b.size, Spelled(labels))
  {
    if r == c && rest == [] {
      ShowsLabel(b, text);
      assert Spelled(labels) == text + [DOT];
    } else {
      JoinShown(b, c, r, text, Spelled(rest));
    }
  }

  lemma JoinShown(b: Buffer, c: Buffer, r: Buffer, text: seq<byte>, more: seq<byte>)
    requires Fits(b) && b.size > 0 && c == AddLabel(b, text)
    requires Kept(c, r) && (c.size > 0 ==> Shows(r, c.dst, c.size, more))
    ensures |r.bytes| == |b.bytes| && Shows(r, b.dst, b.size, (text + [DOT]) + more)
  {
    ShowsLabel(b, text);
    ShowsMore(b, c, r, text + [DOT], more);
  }

  ghost predicate DotAt(r: Buffer, i: nat) {
    i < |r.bytes| && r.bytes[i] == DOT
  }

  /** Where a pointer leads to a zero byte an extra dot follows the text. */
  lemma {:induction false} ExtraDot(m: Memory, end: nat, pos: nat, d: nat, n: Name, visited: seq<nat>, b: Buffer)
    requires Fits(b) && Name1035(m, end, pos, d) == Some(n) && m(pos) != 0
    requires Followable(n.pointers, visited) && |visited| <= MAX_LABEL_REFERENCES && !NoEmptyTarget(m, n.pointers)
    requires |Spelled(n.labels)| + 1 < b.size
    ensures DotAt(NameAt(m, end, pos, visited, b).1, b.dst + |Spelled(n.labels)|)
    decreases d, end - pos, 1
  {
    if m(pos) >= 0xc0 {
      ExtraDotBehind(m, end, pos, d, n, visited, b);
    } else {
      var rest, text := LabelSplit(m, end, pos, d, n, visited, b);
      RoomAfter(b, text, n.labels, rest.labels);
      assert m(pos + 1 + m(pos)) != 0;
      ExtraDot(m, end, pos + 1 + m(pos), d, rest, visited, AddLabel(b, text));
    }
  }

  lemma {:induction false} RoomAfter(b: Buffer, text: seq<byte>, labels: seq<seq<byte>>, rest: seq<seq<byte>>)
    requires Fits(b) && |Spelled(labels)| + 1 < b.size && Spelled(labels) == (text + [DOT]) + Spelled(rest)
    ensures var c := AddLabel(b, text);
      |Spelled(rest)| + 1 < c.size && c.dst + |Spelled(rest)| == b.dst + |Spelled(labels)|
  {
    ShowsLabel(b, text);
  }

  lemma {:induction false} ExtraDotBehind(m: Memory, end: nat, pos: nat, d: nat, n: Name, visited: seq<nat>, b: Buffer)
    requires Fits(b) && Name1035(m, end, pos, d) == Some(n) && m(pos) >= 0xc0
    requires Followable(n.pointers, visited) && |visited| <= MAX_LABEL_REFERENCES && !NoEmptyTarget(m, n.pointers)
    requires |Spelled(n.labels)| + 1 < b.size
    ensures DotAt(NameAt(m, end, pos, visited, b).1, b.dst + |Spelled(n.labels)|)
    decreases d, end - pos, 0
  {
    var rest, target := PointerSplit(m, end, pos, d, n, visited, b);
    if m(target) == 0 {
      DotForRoot(m, end, target, visited + [target], b);
    } else {
      ExtraDot(m, end, target, d - 1, rest, visited + [target], b);
    }
  }

  lemma DotForEmpty(b: Buffer)
    requires Fits(b) && b.size > 1
    ensures var c := AddLabel(b, []); c.bytes[b.dst] == DOT && c.dst == b.dst + 1
  {
    CopyLabelWrites(b, []);
    var e := Entry([], b.size);
    assert e[0] == DOT;
    PutKeeps(b.bytes, b.dst, e, b.dst);
    SliceWithin(Put(b.bytes, b.dst, e), b.dst, e, 0);
  }

  /** A zero byte first is taken for an empty label. */
  lemma {:induction false} DotForRoot(m: Memory, end: nat, pos: nat, visited: seq<nat>, b: Buffer)
    requires Fits(b) && b.size > 1 && |visited| <= MAX_LABEL_REFERENCES && pos < end && m(pos) == 0
    ensures var r := NameAt(m, end, pos, visited, b); r.1.bytes[b.dst] == DOT && r.0 != Some(pos + 1)
  {
    var c := AddLabel(b, []);
    DotForEmpty(b);
    assert Text(m, pos + 1, 0) == [];
    if pos + 1 < end && m(pos + 1) != 0 {
      LabelsKeep(m, end, pos + 2, m(pos + 1), visited, c);
      LabelsAdvance(m, end, pos + 2, m(pos + 1), visited, c);
      var r := LabelsAt(m, end, pos + 2, m(pos + 1), visited, c).1;
      assert r.bytes[..c.dst][b.dst] == c.bytes[..c.dst][b.dst];
    }
  }

  /** The buffer, read as a C string, is the text. */
  ghost predicate Reads(bytes: seq<byte>, text: seq<byte>) {
    |text| < |bytes| && bytes[..|text|] == text && bytes[|text|] == 0
  }

  /** dns_name on a fresh buffer of `size` bytes. */
  function DnsName(m: Memory, end: nat, src: nat, bytes: seq<byte>): (r: (Option<nat>, seq<byte>))
    requires |bytes| == 0 || |bytes| >= 3
    ensures |r.1| == |bytes|
  {
    var (pos, b) := NameAt(m, end, src, [], Buffer(bytes, 0, if |bytes| == 0 then 0 else |bytes| - 3));
    (pos, b.bytes)
  }

  /** Right position and right text, exactly when neither the name nor a pointer's target starts with a
      zero byte; for every well-formed name whose pointers can be followed. Of a text too long for the buffer
      the beginning is shown. */
  lemma {:induction false} FollowedIff(m: Memory, end: nat, pos: nat, d: nat, bytes: seq<byte>)
    requires Name1035(m, end, pos, d).Some? && |bytes| > 3
    requires var n := Name1035(m, end, pos, d).value; 0 !in n.pointers && |n.pointers| <= MAX_LABEL_REFERENCES
    ensures var n := Name1035(m, end, pos, d).value; var r := DnsName(m, end, pos, bytes);
      var shown, room, rooted := Spelled(n.labels), |bytes| - 3, m(pos) == 0 || !NoEmptyTarget(m, n.pointers);
      && (!rooted ==> r.0 == Some(n.next) && Shows(Buffer(r.1, 0, 0), 0, room, shown))
      && (!rooted && |shown| < room ==> Reads(r.1, shown))
      && (rooted && |shown| + 1 < room ==> !(r.0 == Some(n.next) && Reads(r.1, shown)))
  {
    var n := Name1035(m, end, pos, d).value;
    var b := Buffer(bytes, 0, |bytes| - 3);
    forall i, j | 0 <= i < j < |n.pointers| ensures n.pointers[i] != n.pointers[j] {
      PointersDistinct(m, end, pos, d, i, j);
    }
    assert Followable(n.pointers, []);
    if m(pos) == 0 {
      if b.size > 1 { DotForRoot(m, end, pos, [], b); }
    } else {
      PositionRight(m, end, pos, d, [], b);
      if NoEmptyTarget(m, n.pointers) {
        TextRight(m, end, pos, d, n, [], b);
      } else if |Spelled(n.labels)| + 1 < b.size {
        ExtraDot(m, end, pos, d, n, [], b);
      }
    }
  }
}
