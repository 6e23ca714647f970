/** The walk over TCP options (src/protocols/tcp.c): options in the format of section 3.1 of RFC 9293
    are printed until the list ends, the header ends or the capture ends. */
module TcpOptions {
  import opened Optional
  import opened Bytes

  const EOL: byte := 0
  const NOP: byte := 1
  const MSS: byte := 2
  const WSOPT: byte := 3

  const TCP_HEADER := 20

  /** What is printed for an option: its kind, and its value where one is shown. */
  datatype Item = Item(kind: byte, value: nat)

  /** How the walk stops: no options announced, the list or the header ended, too little was captured,
      or an option gave size zero. */
  datatype Stop = Absent | Finished | Truncated | ZeroSize

  datatype Printout = Printout(items: seq<Item>, stop: Stop)

  /** tcp_option_size */
  function SizeAt(m: Memory, at: nat): (size: byte) {
    if m(at) <= NOP then 1 else m(at + 1)
  }

  predicate Short(m: Memory, at: nat, caplen: nat) {
    at + 1 > caplen || at + (if m(at) > NOP then 2 else 1) > caplen || at + SizeAt(m, at) > caplen
  }

  function ItemAt(m: Memory, at: nat): Item {
    Item(m(at), if m(at) == MSS then Be16(m, at + 2) else if m(at) == WSOPT then m(at + 2) else 0)
  }

  function Prepend(i: Item, p: Printout): Printout {
    p.(items := [i] + p.items)
  }

  /** Why the walk stops at `at`, `left` bytes before the end of the header, if it does. */
  function StopAt(m: Memory, caplen: nat, at: nat, left: int): (stop: Option<Stop>)
    ensures stop.None? ==> left > 0 && SizeAt(m, at) > 0
  {
    if m(at) == EOL || left <= 0 then Some(Finished)
    else if Short(m, at, caplen) then Some(Truncated)
    else if SizeAt(m, at) == 0 then Some(ZeroSize)
    else None
  }

  /** The options from `at` on, `left` bytes before the end of the header. */
  function OptionsAt(m: Memory, caplen: nat, at: nat, left: int): Printout
    decreases left
  {
    match StopAt(m, caplen, at, left)
    case Some(stop) => Printout([], stop)
    case None => Prepend(ItemAt(m, at), OptionsAt(m, caplen, at + SizeAt(m, at), left - SizeAt(m, at)))
  }

  /** The options of the header at `tcp` whose data offset is `doff` words. */
  function Options(m: Memory, caplen: nat, tcp: nat, doff: nat): Printout {
    if doff <= 5 then Printout([], Absent) else OptionsAt(m, caplen, tcp + TCP_HEADER, 4 * doff - TCP_HEADER)
  }

  /** What is printed so far and what the rest of the walk adds make up the whole. */
  ghost predicate Completes(goal: Printout, items: seq<Item>, rest: Printout) {
    goal == Printout(items + rest.items, rest.stop)
  }

  lemma CompletesStep(goal: Printout, items: seq<Item>, i: Item, rest: Printout)
    requires Completes(goal, items, Prepend(i, rest))
    ensures Completes(goal, items + [i], rest)
  {
    assert items + ([i] + rest.items) == (items + [i]) + rest.items;
  }

  /** tcp_options */
  method PrintOptions(m: Memory, caplen: nat, tcp: nat, doff: nat) returns (items: seq<Item>, stop: Stop)
    ensures Printout(items, stop) == Options(m, caplen, tcp, doff)
  {
    items := [];
    if doff <= 5 { return items, Absent; }
    var ptr: nat := tcp + TCP_HEADER;
    var optlen := TCP_HEADER;
    ghost var goal := Options(m, caplen, tcp, doff);
    while m(ptr) != EOL && optlen < 4 * doff
      invariant Completes(goal, items, OptionsAt(m, caplen, ptr, 4 * doff - optlen))
      decreases 4 * doff - optlen
    {
      if Short(m, ptr, caplen) { return items, Truncated; }
      if SizeAt(m, ptr) == 0 { return items, ZeroSize; }
      var size := SizeAt(m, ptr);
      CompletesStep(goal, items, ItemAt(m, ptr), OptionsAt(m, caplen, ptr + size, 4 * doff - optlen - size));
      items := items + [ItemAt(m, ptr)];
      ptr := ptr + size;
      optlen := optlen + size;
    }
    stop := Finished;
  }

  // -- Less captured --

  function Kinds(items: seq<Item>): (ks: seq<byte>)
    ensures |ks| == |items|
  {
    if items == [] then [] else [items[0].kind] + Kinds(items[1..])
  }

  /** The kinds printed in `p` are the first of those in `q`. */
  ghost predicate Begins(p: Printout, q: Printout) {
    match p case Printout(items, _) => Kinds(items) <= Kinds(q.items)
  }

  lemma PrependBoth(i: Item, p: Printout, j: Item, q: Printout)
    requires i.kind == j.kind && Begins(p, q)
    ensures Begins(Prepend(i, p), Prepend(j, q))
  {
    assert Prepend(i, p).items[1..] == p.items && Prepend(j, q).items[1..] == q.items;
  }

  lemma GoesOn(m: Memory, short: nat, n: Memory, long: nat, at: nat, left: int)
    requires short <= long && Agree(m, n, short) && StopAt(m, short, at, left).None?
    ensures StopAt(n, long, at, left).None? && SizeAt(n, at) == SizeAt(m, at) && n(at) == m(at)
  {
  }

  /** With less captured, a beginning of the same kinds is printed, whatever follows either capture. */
  lemma {:induction false} ShorterCapture(m: Memory, short: nat, n: Memory, long: nat, at: nat, left: int)
    requires short <= long && Agree(m, n, short)
    ensures Begins(OptionsAt(m, short, at, left), OptionsAt(n, long, at, left))
    decreases left
  {
    if StopAt(m, short, at, left).None? {
      var size := SizeAt(m, at);
      GoesOn(m, short, n, long, at, left);
      ShorterCapture(m, short, n, long, at + size, left - size);
      PrependBoth(ItemAt(m, at), OptionsAt(m, short, at + size, left - size), ItemAt(n, at), OptionsAt(n, long,
        at + size, left - size));
    }
  }

  // -- Well-formed options --

  /** An option as it is sent: one byte for NOP, otherwise kind, size and data. */
  datatype TcpOption = Nop | Sized(kind: byte, data: seq<byte>)

  /** Kinds with a size carry what is shown of them: the maximum segment size (2) and the window scale (3). */
  ghost predicate WellFormed(o: TcpOption) {
    o.Sized? ==>
      && o.kind > 1 && |o.data| <= 253
      && (o.kind == 2 ==> |o.data| == 2) && (o.kind == 3 ==> |o.data| == 1)
  }

  function Encoded(o: TcpOption): (bs: seq<byte>)
    requires WellFormed(o)
    ensures |bs| > 0
  {
    match o
    case Nop => [1]
    case Sized(kind, data) => [kind, 2 + |data|] + data
  }

  ghost function Shown(o: TcpOption): Item
    requires WellFormed(o)
  {
    match o
    case Nop => Item(1, 0)
    case Sized(kind, data) =>
      var value :=
        if kind == 2 then 0x100 * (data[0] as int) + (data[1] as int)
        else if kind == 3 then data[0]
        else 0;
      Item(kind, value)
  }

  /** The options lie in memory one after the other from `at`. */
  ghost predicate LaidOut(m: Memory, at: nat, os: seq<TcpOption>)
    decreases |os|
  {
    os != [] ==>
      && WellFormed(os[0]) && (forall i :: 0 <= i < |Encoded(os[0])| ==> m(at + i) == Encoded(os[0])[i])
      && LaidOut(m, at + |Encoded(os[0])|, os[1..])
  }

  /** Where options laid out from `at` end. */
  ghost function EndOf(m: Memory, at: nat, os: seq<TcpOption>): (end: nat)
    requires LaidOut(m, at, os)
    ensures end >= at
    decreases |os|
  {
    if os == [] then at else EndOf(m, at + |Encoded(os[0])|, os[1..])
  }

  /** The items of the options that end within the capture. */
  ghost function Captured(m: Memory, caplen: nat, at: nat, os: seq<TcpOption>): (items: seq<Item>)
    requires LaidOut(m, at, os)
    decreases |os|
  {
    if os == [] || at + |Encoded(os[0])| > caplen then []
    else [Shown(os[0])] + Captured(m, caplen, at + |Encoded(os[0])|, os[1..])
  }

  lemma OptionRead(m: Memory, at: nat, o: TcpOption)
    requires WellFormed(o) && forall i :: 0 <= i < |Encoded(o)| ==> m(at + i) == Encoded(o)[i]
    ensures m(at) != 0 && SizeAt(m, at) == |Encoded(o)| && ItemAt(m, at) == Shown(o)
    ensures forall caplen :: Short(m, at, caplen) <==> at + |Encoded(o)| > caplen
  {
    assert m(at + 0) == Encoded(o)[0];
    if o.Sized? {
      assert m(at + 1) == Encoded(o)[1];
      assert |o.data| > 0 ==> m(at + 2) == Encoded(o)[2] == o.data[0];
      assert |o.data| > 1 ==> m(at + 3) == Encoded(o)[3] == o.data[1];
    }
  }

  /** Options sent and then read back: exactly those captured whole are printed, in order and with their
      values, and the walk finishes unless one is cut off. */
  lemma {:induction false} ReadBack(m: Memory, caplen: nat, at: nat, left: int, os: seq<TcpOption>)
    requires LaidOut(m, at, os) && EndOf(m, at, os) - at <= left
    requires EndOf(m, at, os) - at == left || m(EndOf(m, at, os)) == 0
    ensures OptionsAt(m, caplen, at, left) ==
            Printout(Captured(m, caplen, at, os), if os == [] || EndOf(m, at, os) <= caplen
              then Finished else Truncated)
    decreases |os|
  {
    if os != [] {
      OptionRead(m, at, os[0]);
      var next := at + |Encoded(os[0])|;
      ReadBack(m, caplen, next, left - |Encoded(os[0])|, os[1..]);
    }
  }

  /** Options laid out from byte 20 of the header to its end, or to an end-of-list option before it: those
      captured whole are what tcp_options prints. */
  lemma HeaderReadBack(m: Memory, caplen: nat, tcp: nat, doff: nat, os: seq<TcpOption>)
    requires doff > 5 && LaidOut(m, tcp + 20, os)
    requires var end := EndOf(m, tcp + 20, os);
      end == tcp + 4 * doff || (end < tcp + 4 * doff && m(end) == 0)
    ensures Options(m, caplen, tcp, doff) ==
      Printout(Captured(m, caplen, tcp + 20, os),
               if os == [] || EndOf(m, tcp + 20, os) <= caplen then Finished else Truncated)
  {
    ReadBack(m, caplen, tcp + 20, 4 * doff - 20, os);
  }
}
