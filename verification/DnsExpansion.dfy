/** What dns_name shows of every name: names with a pointer that is refused, cyclic ones included, are cut
    short there with a mark, and all others are shown in full. */
module DnsExpansion {
  import opened Optional
  import opened Bytes
  import opened DnsNames
  import opened DnsReference

  /** A name up to its pointer number `j`, which is the last in `pointers`. Nothing is asked of what it
      points to, so this describes cyclic names as well. */
  function Upto(m: Memory, end: nat, pos: nat, j: nat): (r: Option<Name>)
    ensures r.Some? ==> pos < end && |r.value.pointers| == j + 1
    decreases j, end - pos
  {
    if pos >= end || m(pos) == 0 || 0x40 <= m(pos) < 0xc0 then None
    else if m(pos) >= 0xc0 then
      if pos + 1 >= end then None else
        var target := (m(pos) - 0xc0) * 0x100 + m(pos + 1);
        if j == 0 then Some(Name([], pos + 2, [target])) else
          var rest := Upto(m, end, target, j - 1);
          if rest.None? then None else Some(Name(rest.value.labels, pos + 2, [target] + rest.value.pointers))
    else
      var rest := Upto(m, end, pos + 1 + m(pos), j);
      if rest.None? then None
      else Some(Name([Raw(m, pos + 1, m(pos))] + rest.value.labels, rest.value.next, rest.value.pointers))
  }

  /** A well-formed name up to one of its pointers. */
  lemma {:induction false} UptoOfName(m: Memory, end: nat, pos: nat, d: nat, j: nat) returns (u: Name)
    requires Name1035(m, end, pos, d).Some? && j < |Name1035(m, end, pos, d).value.pointers|
    ensures var n := Name1035(m, end, pos, d).value;
      Upto(m, end, pos, j) == Some(u) && u.pointers == n.pointers[..j + 1] && u.labels <= n.labels && u.next == n.next
    decreases d, end - pos
  {
    var n := Name1035(m, end, pos, d).value;
    if m(pos) >= 0xc0 {
      var target := n.pointers[0];
      if j == 0 {
        u := Name([], pos + 2, [target]);
      } else {
        var v := UptoOfName(m, end, target, d - 1, j - 1);
        u := Name(v.labels, pos + 2, [target] + v.pointers);
        assert n.pointers[..j + 1] == [target] + n.pointers[1..][..j];
      }
    } else {
      var v := UptoOfName(m, end, pos + 1 + m(pos), d, j);
      u := Name([n.labels[0]] + v.labels, v.next, v.pointers);
    }
  }

  /** What stands for the part of a name that is not followed. */
  const MARK: seq<byte> := MALFORMED + [DOT]

  lemma MarkReads()
    ensures |MARK| == |"[malformed]."| && forall i :: 0 <= i < |MARK| ==> MARK[i] == "[malformed]."[i] as int
  {
  }

  /** Labels up to a pointer that is refused, and the mark. */
  ghost function Marked(u: Name): seq<byte> {
    Spelled(u.labels) + MARK
  }

  /** The last pointer is the first that is refused. */
  ghost predicate RefusedLast(u: Name, visited: seq<nat>) {
    u.pointers != [] &&
    var j := |u.pointers| - 1;
    Followable(u.pointers[..j], visited) && Refused(u.pointers[j], visited + u.pointers[..j])
  }

  lemma ShowsMark(b: Buffer)
    requires Fits(b) && b.size > 0
    ensures Shows(CopyLabel(b, MALFORMED).0, b.dst, b.size, MARK)
  {
    ShowsLabel(b, MALFORMED);
  }

  lemma LabelBefore(m: Memory, end: nat, pos: nat, j: nat, u: Name, visited: seq<nat>, b: Buffer)
    returns (rest: Name, text: seq<byte>)
    requires Fits(b) && Upto(m, end, pos, j) == Some(u) && m(pos) < 0xc0 && RefusedLast(u, visited)
    ensures pos + 1 + m(pos) < end && Upto(m, end, pos + 1 + m(pos), j) == Some(rest) && m(pos + 1 + m(pos)) != 0
    ensures RefusedLast(rest, visited) && |visited| <= MAX_LABEL_REFERENCES && rest.next == u.next
    ensures Marked(u) == (text + [DOT]) + Marked(rest)
    ensures NameAt(m, end, pos, visited, b) == NameAt(m, end, pos + 1 + m(pos), visited, AddLabel(b, text))
  {
    rest := Upto(m, end, pos + 1 + m(pos), j).value;
    text := Text(m, pos + 1, m(pos));
    assert u.labels[1..] == rest.labels;
    TextIsCut(m, pos + 1, m(pos));
  }

  lemma RefusedHere(u: Name, visited: seq<nat>)
    requires RefusedLast(u, visited) && |u.pointers| == 1
    ensures Refused(u.pointers[0], visited) && |visited| <= MAX_LABEL_REFERENCES
  {
    assert visited + u.pointers[..0] == visited;
  }

  lemma RefusedLater(u: Name, rest: Name, target: nat, visited: seq<nat>)
    requires RefusedLast(u, visited) && rest.labels == u.labels
    requires u.pointers == [target] + rest.pointers && rest.pointers != []
    ensures !Refused(target, visited) && |visited| < MAX_LABEL_REFERENCES && RefusedLast(rest, visited + [target])
  {
    var j := |u.pointers| - 1;
    assert u.pointers[..j] == [target] + rest.pointers[..j - 1];
    FollowFirst(u.pointers[..j], visited);
    assert visited + u.pointers[..j] == (visited + [target]) + rest.pointers[..j - 1];
  }

  lemma PointerBefore(m: Memory, end: nat, pos: nat, j: nat, u: Name, visited: seq<nat>, b: Buffer)
    returns (rest: Name, target: nat)
    requires Fits(b) && Upto(m, end, pos, j) == Some(u) && m(pos) >= 0xc0 && j > 0 && RefusedLast(u, visited)
    ensures Upto(m, end, target, j - 1) == Some(rest) && |visited| < MAX_LABEL_REFERENCES
    ensures RefusedLast(rest, visited + [target]) && rest.labels == u.labels
    ensures NameAt(m, end, pos, visited, b).1 == NameAt(m, end, target, visited + [target], b).1
  {
    target := u.pointers[0];
    rest := Upto(m, end, target, j - 1).value;
    RefusedLater(u, rest, target, visited);
    AtPointer(m, end, pos, target, visited, b);
  }

  lemma {:induction false} AtPointer(m: Memory, end: nat, pos: nat, target: nat, visited: seq<nat>, b: Buffer)
    requires Fits(b) && |visited| <= MAX_LABEL_REFERENCES && pos < end && m(pos) >= 0xc0
    requires target == (m(pos) - 0xc0) * 0x100 + m(pos + 1)
    ensures NameAt(m, end, pos, visited, b).1 ==
      if Refused(target, visited) then CopyLabel(b, MALFORMED).0 else NameAt(m, end, target, visited + [target], b).1
  {
    assert target == Target(m, pos + 1, m(pos));
  }

  lemma {:induction false} PointerRefused(m: Memory, end: nat, pos: nat, u: Name, visited: seq<nat>, b: Buffer)
    requires Fits(b) && Upto(m, end, pos, 0) == Some(u) && m(pos) >= 0xc0 && RefusedLast(u, visited)
    ensures |visited| <= MAX_LABEL_REFERENCES
    ensures NameAt(m, end, pos, visited, b).1 == CopyLabel(b, MALFORMED).0
  {
    RefusedHere(u, visited);
    AtPointer(m, end, pos, u.pointers[0], visited, b);
  }

  /** The labels before a refused pointer are shown, and then the mark. */
  lemma {:induction false} MarkShown(m: Memory, end: nat, pos: nat, j: nat, u: Name, visited: seq<nat>, b: Buffer)
    requires Fits(b) && b.size > 0 && Upto(m, end, pos, j) == Some(u)
    requires RefusedLast(u, visited) && |visited| <= MAX_LABEL_REFERENCES
    ensures Shows(NameAt(m, end, pos, visited, b).1, b.dst, b.size, Marked(u))
    decreases j, end - pos, 1
  {
    if m(pos) < 0xc0 {
      MarkAfterLabel(m, end, pos, j, u, visited, b);
    } else if j > 0 {
      MarkAfterPointer(m, end, pos, j, u, visited, b);
    } else {
      MarkAtOnce(m, end, pos, u, visited, b);
    }
  }

  lemma {:induction false} MarkAtOnce(m: Memory, end: nat, pos: nat, u: Name, visited: seq<nat>, b: Buffer)
    requires Fits(b) && b.size > 0 && Upto(m, end, pos, 0) == Some(u) && m(pos) >= 0xc0 && RefusedLast(u, visited)
    ensures |visited| <= MAX_LABEL_REFERENCES
    ensures Shows(NameAt(m, end, pos, visited, b).1, b.dst, b.size, Marked(u))
  {
    PointerRefused(m, end, pos, u, visited, b);
    ShowsMark(b);
    assert u.labels == [] && Marked(u) == MARK;
  }

  lemma {:induction false} MarkAfterPointer(
    m: Memory, end: nat, pos: nat, j: nat, u: Name, visited: seq<nat>, b: Buffer)
    requires Fits(b) && b.size > 0 && Upto(m, end, pos, j) == Some(u) && m(pos) >= 0xc0 && j > 0
    requires RefusedLast(u, visited) && |visited| <= MAX_LABEL_REFERENCES
    ensures Shows(NameAt(m, end, pos, visited, b).1, b.dst, b.size, Marked(u))
    decreases j, end - pos, 0
  {
    var rest, target := PointerBefore(m, end, pos, j, u, visited, b);
    MarkShown(m, end, target, j - 1, rest, visited + [target], b);
  }

  lemma {:induction false} MarkAfterLabel(m: Memory, end: nat, pos: nat, j: nat, u: Name, visited: seq<nat>, b: Buffer)
    requires Fits(b) && b.size > 0 && Upto(m, end, pos, j) == Some(u) && m(pos) < 0xc0
    requires RefusedLast(u, visited) && |visited| <= MAX_LABEL_REFERENCES
    ensures Shows(NameAt(m, end, pos, visited, b).1, b.dst, b.size, Marked(u))
    decreases j, end - pos, 0
  {
    var rest, text := LabelBefore(m, end, pos, j, u, visited, b);
    var c, next := AddLabel(b, text), pos + 1 + m(pos);
    if c.size > 0 {
      MarkShown(m, end, next, j, rest, visited, c);
    }
    NameKeeps(m, end, next, visited, c);
    JoinShown(b, c, NameAt(m, end, next, visited, c).1, text, Marked(rest));
  }

  /** Reading goes on after the first pointer. */
  lemma {:induction false} PositionUpto(m: Memory, end: nat, pos: nat, j: nat, visited: seq<nat>, b: Buffer)
    requires Fits(b) && Upto(m, end, pos, j).Some? && |visited| <= MAX_LABEL_REFERENCES
    ensures NameAt(m, end, pos, visited, b).0 == Some(Upto(m, end, pos, j).value.next)
    decreases end - pos
  {
    if m(pos) < 0xc0 {
      PositionUpto(m, end, pos + 1 + m(pos), j, visited, AddLabel(b, Text(m, pos + 1, m(pos))));
    }
  }

  /** Every name with a pointer that is null, the 33rd, or one it went through before: the labels before
      that pointer and the mark are shown, all of it if it fits, and the position is right. */
  lemma {:induction false} RefusedName(m: Memory, end: nat, pos: nat, j: nat, bytes: seq<byte>)
    requires |bytes| > 3 && Upto(m, end, pos, j).Some? && RefusedLast(Upto(m, end, pos, j).value, [])
    ensures var u, r := Upto(m, end, pos, j).value, DnsName(m, end, pos, bytes);
      && r.0 == Some(u.next) && Shows(Buffer(r.1, 0, 0), 0, |bytes| - 3, Marked(u))
      && (|Marked(u)| < |bytes| - 3 ==> Reads(r.1, Marked(u)))
  {
    var u, b := Upto(m, end, pos, j).value, Buffer(bytes, 0, |bytes| - 3);
    MarkShown(m, end, pos, j, u, [], b);
    PositionUpto(m, end, pos, j, [], b);
  }

  /** The first pointer that is null or the 33rd; the number of pointers if there is none. */
  function FirstRefused(ps: seq<nat>, j: nat): (r: nat)
    requires j <= |ps| && j <= MAX_LABEL_REFERENCES
    ensures j <= r <= |ps| && r <= MAX_LABEL_REFERENCES && (forall i :: j <= i < r ==> ps[i] != 0)
    ensures r < |ps| ==> ps[r] == 0 || r == MAX_LABEL_REFERENCES
    decreases |ps| - j
  {
    if j == |ps| || ps[j] == 0 || j == MAX_LABEL_REFERENCES then j else FirstRefused(ps, j + 1)
  }

  /** What is shown of a well-formed name: its labels, each up to a NUL it may hold, or those before the first
      pointer that is refused, and the mark. */
  ghost function ShownOf(m: Memory, end: nat, pos: nat, n: Name): seq<byte> {
    var refused := FirstRefused(n.pointers, 0);
    if refused == |n.pointers| then Spelled(n.labels) else
      var u := Upto(m, end, pos, refused);
      if u.Some? then Marked(u.value) else []
  }

  /** For every well-formed name and every buffer. Unless all pointers are followed and the name or a target of
      them starts with a zero byte, the position is right and that text is shown, all of it if it fits and its
      beginning otherwise. If one does, text and position are not both right, given a spare byte to show it.
      The text spells out the labels in full exactly if all pointers are followed and no label holds a NUL. */
  lemma {:induction false} NameExpansion(m: Memory, end: nat, pos: nat, d: nat, bytes: seq<byte>)
    requires Name1035(m, end, pos, d).Some? && |bytes| > 3
    ensures var n, r := Name1035(m, end, pos, d).value, DnsName(m, end, pos, bytes);
      var followed := FirstRefused(n.pointers, 0) == |n.pointers|;
      var misread := followed && (m(pos) == 0 || !NoEmptyTarget(m, n.pointers));
      var shown, room := ShownOf(m, end, pos, n), |bytes| - 3;
      && (!misread ==> r.0 == Some(n.next) && Shows(Buffer(r.1, 0, 0), 0, room, shown))
      && (!misread && |shown| < room ==> Reads(r.1, shown))
      && (misread && |shown| + 1 < room ==> !(r.0 == Some(n.next) && Reads(r.1, shown)))
      && (followed ==> (shown == Dotted(n.labels) <==> NulFree(n.labels)))
      && (!followed ==> exists u :: shown == Marked(u) && u.labels <= n.labels)
      && (followed <==> |n.pointers| <= 32 && 0 !in n.pointers)
  {
    var n := Name1035(m, end, pos, d).value;
    var refused := FirstRefused(n.pointers, 0);
    SpelledWhole(n.labels);
    assert 0 in n.pointers ==> exists i :: 0 <= i < |n.pointers| && n.pointers[i] == 0;
    if refused < |n.pointers| {
      var u := UptoOfName(m, end, pos, d, refused);
      RefusedOfName(m, end, pos, d, refused, u);
      RefusedName(m, end, pos, refused, bytes);
    } else {
      FollowedIff(m, end, pos, d, bytes);
    }
  }

  lemma {:induction false} RefusedOfName(m: Memory, end: nat, pos: nat, d: nat, j: nat, u: Name)
    requires Name1035(m, end, pos, d).Some?
    requires var n := Name1035(m, end, pos, d).value;
      j < |n.pointers| && FirstRefused(n.pointers, 0) == j && u.pointers == n.pointers[..j + 1]
    ensures RefusedLast(u, [])
  {
    var ps := Name1035(m, end, pos, d).value.pointers;
    forall i, k | 0 <= i < k < |ps| ensures ps[i] != ps[k] {
      PointersDistinct(m, end, pos, d, i, k);
    }
    RefusedAt(ps, j, u);
  }

  lemma {:induction false} RefusedAt(ps: seq<nat>, j: nat, u: Name)
    requires j < |ps| && FirstRefused(ps, 0) == j && u.pointers == ps[..j + 1]
    requires forall i, k :: 0 <= i < k < |ps| ==> ps[i] != ps[k]
    ensures RefusedLast(u, [])
  {
    assert u.pointers[..j] == ps[..j] && [] + ps[..j] == ps[..j] && u.pointers[j] == ps[j];
  }
}
