/** The merge loop of capmerge over any number of input files: in each round all open streams are
    peeked at and the oldest record found is written. */
module TraceMerge {
  import opened Optional
  import opened Bytes
  import opened PicoTime
  import opened Records
  import opened CaptureFormat
  import opened TraceSort

  /** An open stream: which input it reads and the records it has not delivered yet. */
  datatype Input = Input(id: nat, rest: seq<Rec>)

  /** A record together with the input it came from. */
  datatype Emission = Emission(id: nat, rec: Rec)

  /** stream_peek on a file: an empty record, one the buffer cannot hold and the end of the file
      all close the stream. */
  predicate HasHead(rest: seq<Rec>, cap: nat) {
    rest != [] && 0 < |rest[0].payload| && HEADER + |rest[0].payload| <= cap
  }

  /** The unread bytes of a file hold these records. */
  ghost predicate FileOf(b: seq<byte>, rest: seq<Rec>)
    decreases |rest|
  {
    if rest == [] then b == [] else
      Whole(b) && b[HEADER..Size(b)] == rest[0].payload && FileOf(b[Size(b)..], rest[1..])
  }

  /** A stream has a head exactly if peeking at its file finds one (see `Stream.Reader.Peek`). */
  lemma {:induction false} HeadOnFile(b: seq<byte>, rest: seq<Rec>, cap: nat)
    requires FileOf(b, rest)
    ensures HasHead(rest, cap) <==> Readable(b, cap) && CapLen(b) > 0
    ensures HasHead(rest, cap) ==> FileOf(b[Size(b)..], rest[1..])
  {
    if rest != [] {
      assert |rest[0].payload| == CapLen(b);
    }
  }

  /** The records of packets as they are stored. */
  function Recs(cs: seq<Captured>): seq<Rec> {
    if cs == [] then [] else
      [Rec(TimePico(cs[0].sec, cs[0].psec), cs[0].len, cs[0].payload)] + Recs(cs[1..])
  }

  lemma {:induction false} StoredFile(cs: seq<Captured>)
    requires forall i :: 0 <= i < |cs| ==> Storable(cs[i])
    ensures FileOf(StoredAll(cs), Recs(cs))
  {
    if cs != [] {
      var r, rest, b := Stored(cs[0]), StoredAll(cs[1..]), StoredAll(cs);
      StoredIsRecord(cs[0]);
      assert b[..|r|] == r && b[|r|..] == rest;
      assert forall i :: 0 <= i < HEADER ==> b[i] == r[i];
      assert b[HEADER..|r|] == r[HEADER..];
      StoredFile(cs[1..]);
      assert Recs(cs)[1..] == Recs(cs[1..]);
    }
  }

  /** The records a stream delivers before it is closed. */
  function Usable(rest: seq<Rec>, cap: nat): seq<Rec> {
    if HasHead(rest, cap) then [rest[0]] + Usable(rest[1..], cap) else []
  }

  /** One pass over the open streams. A stream that has ended is replaced by the last one, which
      is then passed over: its slot has been visited. */
  datatype Pass = Pass(open: seq<Input>, heads: seq<Option<Rec>>)

  function PeekFrom(open: seq<Input>, heads: seq<Option<Rec>>, cap: nat): (r: Pass)
    requires |heads| <= |open| + 1
    ensures |r.open| <= |r.heads| && |r.open| <= |open|
    decreases |open| + 1 - |heads|
  {
    var i := |heads|;
    if i >= |open| then Pass(open, heads)
    else if HasHead(open[i].rest, cap) then PeekFrom(open, heads + [Some(open[i].rest[0])], cap)
    else PeekFrom(Drop(open, i), heads + [None], cap)
  }

  /** The ended stream in slot `i` gives way to the last one. */
  function Drop(open: seq<Input>, i: nat): (r: seq<Input>)
    requires i < |open|
    ensures |r| == |open| - 1
  {
    open[i := open[|open| - 1]][..|open| - 1]
  }

  /** The first of the oldest records among the heads of the first `n` slots. */
  function Oldest(heads: seq<Option<Rec>>, n: nat): (r: Option<nat>)
    requires n <= |heads|
    ensures r.Some? ==> r.value < n && heads[r.value].Some? && TimeCmp(heads[r.value].value.ts, SENTINEL) < 0
    ensures r.Some? ==> forall k :: 0 <= k < n && heads[k].Some? ==>
      TimeCmp(heads[r.value].value.ts, heads[k].value.ts) <= 0
    ensures r.Some? ==> forall k :: 0 <= k < r.value && heads[k].Some? ==>
      TimeCmp(heads[r.value].value.ts, heads[k].value.ts) < 0
    ensures r.None? ==> forall k :: 0 <= k < n && heads[k].Some? ==> TimeCmp(heads[k].value.ts, SENTINEL) >= 0
  {
    if n == 0 then None else
      var r := Oldest(heads, n - 1);
      var cur := if r.Some? then heads[r.value].value.ts else SENTINEL;
      if heads[n - 1].Some? && TimeCmp(heads[n - 1].value.ts, cur) < 0 then Some(n - 1) else r
  }

  /** Streams whose every timestamp is below the one the search starts from. */
  ghost predicate Dated(rest: seq<Rec>) {
    forall k :: 0 <= k < |rest| ==> TimeCmp(rest[k].ts, SENTINEL) < 0
  }

  ghost predicate AllDated(open: seq<Input>) {
    forall i :: 0 <= i < |open| ==> Dated(open[i].rest)
  }

  /** Normalised times are below it. */
  lemma NormalDated(rest: seq<Rec>)
    requires forall k :: 0 <= k < |rest| ==> rest[k].ts.psec < 1_000_000_000_000
    ensures Dated(rest)
  {
  }

  function Total(open: seq<Input>): nat {
    if open == [] then 0 else Total(open[..|open| - 1]) + |open[|open| - 1].rest|
  }

  lemma {:induction false} TotalUpdate(open: seq<Input>, i: nat, x: Input)
    requires i < |open|
    ensures Total(open[i := x]) == Total(open) - |open[i].rest| + |x.rest|
  {
    var front, last := open[..|open| - 1], |open| - 1;
    if i == last {
      assert open[i := x][..last] == front;
    } else {
      assert open[i := x][..last] == front[i := x];
      TotalUpdate(front, i, x);
    }
  }

  lemma {:induction false} TotalDrop(open: seq<Input>, i: nat)
    requires i < |open|
    ensures Total(Drop(open, i)) == Total(open) - |open[i].rest|
  {
    TotalUpdate(open, i, open[|open| - 1]);
    var moved := open[i := open[|open| - 1]];
    assert moved[|moved| - 1] == open[|open| - 1];
  }

  /** The heads found so far are those of the streams in their slots. */
  ghost predicate HeadsOf(open: seq<Input>, heads: seq<Option<Rec>>, cap: nat) {
    forall k :: 0 <= k < |heads| && k < |open| && heads[k].Some? ==>
      HasHead(open[k].rest, cap) && heads[k].value == open[k].rest[0]
  }

  /** A pass keeps the heads right, loses no record, and if it closed no stream it passed none over. */
  lemma {:induction false} PassKeeps(open: seq<Input>, heads: seq<Option<Rec>>, cap: nat)
    requires |heads| <= |open| + 1 && HeadsOf(open, heads, cap) && AllDated(open)
    ensures var r := PeekFrom(open, heads, cap);
      && HeadsOf(r.open, r.heads, cap) && AllDated(r.open) && Total(r.open) <= Total(open)
      && (|r.open| == |open| ==> forall k :: |heads| <= k < |open| ==> r.heads[k].Some?)
    decreases |open| + 1 - |heads|
  {
    var i := |heads|;
    if i < |open| {
      if HasHead(open[i].rest, cap) {
        PassKeeps(open, heads + [Some(open[i].rest[0])], cap);
        HeadsGrow(open, heads + [Some(open[i].rest[0])], cap);
      } else {
        TotalDrop(open, i);
        PassKeeps(Drop(open, i), heads + [None], cap);
      }
    }
  }

  /** Heads found are not changed by the rest of the pass. */
  lemma {:induction false} HeadsGrow(open: seq<Input>, heads: seq<Option<Rec>>, cap: nat)
    requires |heads| <= |open| + 1
    ensures heads <= PeekFrom(open, heads, cap).heads
    decreases |open| + 1 - |heads|
  {
    var i := |heads|;
    if i < |open| {
      if HasHead(open[i].rest, cap) {
        HeadsGrow(open, heads + [Some(open[i].rest[0])], cap);
      } else {
        HeadsGrow(Drop(open, i), heads + [None], cap);
      }
    }
  }

  /** One round of the loop: the streams left and what was written, if anything. */
  function Round(open: seq<Input>, cap: nat): (r: (seq<Input>, Option<Emission>))
    requires AllDated(open)
  {
    var pass := PeekFrom(open, [], cap);
    PassKeeps(open, [], cap);
    match Oldest(pass.heads, |pass.open|)
    case None => (pass.open, None)
    case Some(j) =>
      var source := pass.open[j];
      (pass.open[j := source.(rest := source.rest[1..])], Some(Emission(source.id, source.rest[0])))
  }

  lemma {:induction false} RoundShrinks(open: seq<Input>, cap: nat)
    requires AllDated(open) && open != []
    ensures AllDated(Round(open, cap).0) && |Round(open, cap).0| <= |open|
    ensures Total(Round(open, cap).0) + |Round(open, cap).0| < Total(open) + |open|
  {
    PassKeeps(open, [], cap);
    var pass := PeekFrom(open, [], cap);
    assert |pass.open| == |open| ==> pass.heads[0].Some? && Dated(open[0].rest);
    match Oldest(pass.heads, |pass.open|)
    case None =>
    case Some(j) =>
      TotalUpdate(pass.open, j, pass.open[j].(rest := pass.open[j].rest[1..]));
  }

  /** Everything the loop writes. */
  function Run(open: seq<Input>, cap: nat): (out: seq<Emission>)
    requires AllDated(open)
    decreases Total(open) + |open|
  {
    if open == [] then [] else
      RoundShrinks(open, cap);
      var (next, e) := Round(open, cap);
      (if e.Some? then [e.value] else []) + Run(next, cap)
  }

  /** Peek at all open streams, closing those that have ended. */
  method PeekAll(st: array<Input>, streams: nat, cap: nat)
    returns (pkt: array<Option<Rec>>, left: nat, ghost visited: nat)
    requires streams <= st.Length
    modifies st
    ensures fresh(pkt) && left <= visited <= pkt.Length && left <= streams
    ensures PeekFrom(old(st[..streams]), [], cap) == Pass(st[..left], pkt[..visited])
  {
    pkt := new Option<Rec>[streams](_ => None);
    left := streams;
    var i := 0;
    while i < left
      invariant 0 <= i <= pkt.Length == streams && left <= streams && i <= left + 1
      invariant PeekFrom(old(st[..streams]), [], cap) == PeekFrom(st[..left], pkt[..i], cap)
    {
      ghost var open, heads := st[..left], pkt[..i];
      if HasHead(st[i].rest, cap) {
        pkt[i] := Some(st[i].rest[0]);
      } else {
        pkt[i] := None;
        st[i] := st[left - 1];
        left := left - 1;
        assert st[..left] == Drop(open, i);
      }
      i := i + 1;
      assert pkt[..i] == heads + [pkt[i - 1]];
    }
    visited := i;
  }

  /** Find the oldest of the records peeked at; a negative result means there is none. */
  method FindOldest(pkt: array<Option<Rec>>, n: nat, ghost visited: nat) returns (oldest: int)
    requires n <= visited <= pkt.Length
    ensures Oldest(pkt[..visited], n) == if oldest < 0 then None else Some(oldest)
  {
    oldest := -1;
    var cur := SENTINEL;
    for i := 0 to n
      invariant -1 <= oldest < i
      invariant Oldest(pkt[..visited], i) == if oldest < 0 then None else Some(oldest)
      invariant oldest >= 0 ==> pkt[oldest].Some?
      invariant cur == if oldest < 0 then SENTINEL else pkt[oldest].value.ts
    {
      if pkt[i].Some? && TimeCmp(pkt[i].value.ts, cur) < 0 {
        oldest, cur := i, pkt[i].value.ts;
      }
    }
  }

  /** Records are cut to their length on the wire as they are written. */
  function Truncate(r: Rec): Rec {
    r.(payload := r.payload[..Min(|r.payload|, r.len)])
  }

  function Written(es: seq<Emission>): seq<Rec> {
    if es == [] then [] else [Truncate(es[0].rec)] + Written(es[1..])
  }

  function Opened(inputs: seq<seq<Rec>>): seq<Input> {
    seq(|inputs|, i requires 0 <= i < |inputs| => Input(i, inputs[i]))
  }

  /** One round: peek, find the oldest record, and read it from its stream. */
  method MergeRound(st: array<Input>, streams: nat, cap: nat) returns (left: nat, written: Option<Rec>)
    requires streams <= st.Length && AllDated(st[..streams])
    modifies st
    ensures left <= streams && st[..left] == Round(old(st[..streams]), cap).0
    ensures match Round(old(st[..streams]), cap).1
            case None => written == None
            case Some(e) => written == Some(Truncate(e.rec))
  {
    ghost var open := st[..streams];
    PassKeeps(open, [], cap);
    var pkt;
    ghost var visited;
    pkt, left, visited := PeekAll(st, streams, cap);
    ghost var pass := PeekFrom(open, [], cap);
    var oldest := FindOldest(pkt, left, visited);
    written := None;
    if oldest >= 0 {
      assert pass.open[oldest] == st[oldest] && HasHead(st[oldest].rest, cap);
      written := Some(Truncate(st[oldest].rest[0]));
      st[oldest] := st[oldest].(rest := st[oldest].rest[1..]);
      assert st[..left] == pass.open[oldest := st[oldest]];
    }
  }

  lemma {:induction false} RunStep(open: seq<Input>, cap: nat)
    requires AllDated(open) && open != []
    ensures AllDated(Round(open, cap).0)
    ensures var (next, e) := Round(open, cap);
      Written(Run(open, cap)) == (if e.Some? then [Truncate(e.value.rec)] else []) + Written(Run(next, cap))
  {
    RoundShrinks(open, cap);
    var (next, e) := Round(open, cap);
    if e.Some? {
      assert Run(open, cap)[1..] == Run(next, cap);
    } else {
      assert Run(open, cap) == Run(next, cap);
    }
  }

  /** What a round leaves to write. */
  lemma {:induction false} RoundWrites(open: seq<Input>, cap: nat, out: seq<Rec>, goal: seq<Rec>)
    requires AllDated(open) && open != [] && goal == out + Written(Run(open, cap))
    ensures var (next, e) := Round(open, cap);
            && AllDated(next) && Total(next) + |next| < Total(open) + |open|
            && goal == (if e.Some? then out + [Truncate(e.value.rec)] else out) + Written(Run(next, cap))
  {
    RunStep(open, cap);
    RoundShrinks(open, cap);
  }

  /** The merge loop. */
  method Merge(inputs: seq<seq<Rec>>, cap: nat) returns (out: seq<Rec>)
    requires forall i :: 0 <= i < |inputs| ==> Dated(inputs[i])
    ensures AllDated(Opened(inputs)) && out == Written(Run(Opened(inputs), cap))
  {
    var st := new Input[|inputs|](i requires 0 <= i < |inputs| => Input(i, inputs[i]));
    var streams: nat := st.Length;
    out := [];
    assert st[..streams] == Opened(inputs);
    ghost var goal := Written(Run(Opened(inputs), cap));
    while streams > 0
      invariant streams <= st.Length && AllDated(st[..streams])
      invariant goal == out + Written(Run(st[..streams], cap))
      decreases Total(st[..streams]) + streams
    {
      ghost var open := st[..streams];
      RoundWrites(open, cap, out, goal);
      var written;
      streams, written := MergeRound(st, streams, cap);
      if written.Some? {
        out := out + [written.value];
      }
    }
  }
}
