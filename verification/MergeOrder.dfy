/** What the merge promises: every record of every input once, in the order of its input; and, for
    sorted inputs, exactly when the output is sorted. */
module MergeOrder {
  import opened Optional
  import opened PicoTime
  import opened TraceSort
  import opened TraceMerge

  ghost predicate Distinct(open: seq<Input>) {
    forall i, j :: 0 <= i < j < |open| ==> open[i].id != open[j].id
  }

  /** What input `id` has still to deliver. */
  function Remaining(open: seq<Input>, id: nat, cap: nat): seq<Rec> {
    if open == [] then [] else
      var last := open[|open| - 1];
      if last.id == id then Usable(last.rest, cap) else Remaining(open[..|open| - 1], id, cap)
  }

  function OfInput(out: seq<Emission>, id: nat): seq<Rec> {
    if out == [] then [] else (if out[0].id == id then [out[0].rec] else []) + OfInput(out[1..], id)
  }

  lemma {:induction false} RemainingAt(open: seq<Input>, i: nat, cap: nat)
    requires Distinct(open) && i < |open|
    ensures Remaining(open, open[i].id, cap) == Usable(open[i].rest, cap)
  {
    if i < |open| - 1 {
      RemainingAt(open[..|open| - 1], i, cap);
    }
  }

  lemma {:induction false} RemainingNone(open: seq<Input>, id: nat, cap: nat)
    requires forall i :: 0 <= i < |open| ==> open[i].id != id
    ensures Remaining(open, id, cap) == []
  {
    if open != [] {
      RemainingNone(open[..|open| - 1], id, cap);
    }
  }

  /** Closing an ended stream and moving the last one into its slot loses nothing. */
  lemma {:induction false} RemainingDrop(open: seq<Input>, i: nat, id: nat, cap: nat)
    requires Distinct(open) && i < |open| && !HasHead(open[i].rest, cap)
    ensures Distinct(Drop(open, i)) && Remaining(Drop(open, i), id, cap) == Remaining(open, id, cap)
  {
    var fewer, last := Drop(open, i), |open| - 1;
    if j :| 0 <= j < |open| && open[j].id == id {
      RemainingAt(open, j, cap);
      if j == i {
        RemainingNone(fewer, id, cap);
      } else {
        RemainingAt(fewer, if j == last then i else j, cap);
      }
    } else {
      RemainingNone(open, id, cap);
      RemainingNone(fewer, id, cap);
    }
  }

  lemma {:induction false} PassRemaining(open: seq<Input>, heads: seq<Option<Rec>>, id: nat, cap: nat)
    requires Distinct(open) && |heads| <= |open| + 1
    ensures var r := PeekFrom(open, heads, cap);
      Distinct(r.open) && Remaining(r.open, id, cap) == Remaining(open, id, cap)
    decreases |open| + 1 - |heads|
  {
    var i := |heads|;
    if i < |open| {
      if HasHead(open[i].rest, cap) {
        PassRemaining(open, heads + [Some(open[i].rest[0])], id, cap);
      } else {
        RemainingDrop(open, i, id, cap);
        PassRemaining(Drop(open, i), heads + [None], id, cap);
      }
    }
  }

  lemma RemainingPop(open: seq<Input>, j: nat, id: nat, cap: nat)
    requires Distinct(open) && j < |open| && HasHead(open[j].rest, cap)
    ensures var next := open[j := open[j].(rest := open[j].rest[1..])];
      && Distinct(next)
      && Remaining(open, id, cap)
         == (if open[j].id == id then [open[j].rest[0]] else []) + Remaining(next, id, cap)
  {
    var next := open[j := open[j].(rest := open[j].rest[1..])];
    if k :| 0 <= k < |open| && open[k].id == id {
      RemainingAt(open, k, cap);
      RemainingAt(next, k, cap);
    } else {
      RemainingNone(open, id, cap);
      RemainingNone(next, id, cap);
    }
  }

  lemma {:induction false} RoundRemaining(open: seq<Input>, id: nat, cap: nat)
    requires AllDated(open) && Distinct(open)
    ensures var (next, e) := Round(open, cap);
      && Distinct(next)
      && Remaining(open, id, cap)
         == (if e.Some? && e.value.id == id then [e.value.rec] else []) + Remaining(next, id, cap)
  {
    PassRemaining(open, [], id, cap);
    PassKeeps(open, [], cap);
    var pass := PeekFrom(open, [], cap);
    match Oldest(pass.heads, |pass.open|)
    case None =>
    case Some(j) => RemainingPop(pass.open, j, id, cap);
  }

  /** The output holds, of every input, exactly the records it delivers, in their order. */
  lemma {:induction false} MergeConserves(open: seq<Input>, id: nat, cap: nat)
    requires AllDated(open) && Distinct(open)
    ensures OfInput(Run(open, cap), id) == Remaining(open, id, cap)
    decreases Total(open) + |open|
  {
    if open != [] {
      RoundShrinks(open, cap);
      RoundRemaining(open, id, cap);
      var (next, e) := Round(open, cap);
      MergeConserves(next, id, cap);
      if e.Some? {
        assert Run(open, cap)[1..] == Run(next, cap);
      } else {
        assert Run(open, cap) == Run(next, cap);
      }
    }
  }

  ghost predicate InOrder(out: seq<Emission>) {
    forall i, j :: 0 <= i < j < |out| ==> TimeCmp(out[i].rec.ts, out[j].rec.ts) <= 0
  }

  ghost predicate AllSorted(open: seq<Input>) {
    forall i :: 0 <= i < |open| ==> SortedByTime(open[i].rest)
  }

  /** The oldest record of every stream is at least as late as `t`. */
  ghost predicate NoneBefore(open: seq<Input>, t: TimePico, cap: nat) {
    forall k :: 0 <= k < |open| && HasHead(open[k].rest, cap) ==> TimeCmp(t, open[k].rest[0].ts) <= 0
  }

  /** Nothing is written in this round while an older record waits in a stream that the pass
      skipped, having moved it into the slot of a stream that ended. */
  ghost predicate RoundSafe(open: seq<Input>, cap: nat)
    requires AllDated(open)
  {
    var e := Round(open, cap).1;
    e.Some? ==> NoneBefore(PeekFrom(open, [], cap).open, e.value.rec.ts, cap)
  }

  ghost predicate Safe(open: seq<Input>, cap: nat)
    requires AllDated(open)
    decreases Total(open) + |open|
  {
    open == [] ||
    (RoundSafe(open, cap) && (RoundShrinks(open, cap); Safe(Round(open, cap).0, cap)))
  }

  /** A property of single streams that closing and moving cannot break. */
  lemma {:induction false} PassStreams(open: seq<Input>, heads: seq<Option<Rec>>, cap: nat)
    requires |heads| <= |open| + 1
    ensures forall x :: x in PeekFrom(open, heads, cap).open ==> x in open
    decreases |open| + 1 - |heads|
  {
    var i := |heads|;
    if i < |open| {
      if HasHead(open[i].rest, cap) {
        PassStreams(open, heads + [Some(open[i].rest[0])], cap);
      } else {
        PassStreams(Drop(open, i), heads + [None], cap);
      }
    }
  }

  lemma {:induction false} PassSorted(open: seq<Input>, t: TimePico, cap: nat)
    ensures var r := PeekFrom(open, [], cap).open;
      (AllSorted(open) ==> AllSorted(r)) && (NoneBefore(open, t, cap) ==> NoneBefore(r, t, cap))
  {
    PassStreams(open, [], cap);
    var r := PeekFrom(open, [], cap).open;
    forall k | 0 <= k < |r| ensures r[k] in open {
      assert r[k] in r;
    }
  }

  /** After a safe round the record written bounds all that is left. */
  lemma SafeRound(open: seq<Input>, cap: nat)
    requires AllDated(open) && AllSorted(open) && RoundSafe(open, cap)
    ensures var (next, e) := Round(open, cap);
      && AllSorted(next)
      && (e.Some? ==> NoneBefore(next, e.value.rec.ts, cap))
      && (forall t :: NoneBefore(open, t, cap) ==> NoneBefore(next, t, cap) && (e.Some? ==>
        TimeCmp(t, e.value.rec.ts) <= 0))
  {
    PassKeeps(open, [], cap);
    var pass := PeekFrom(open, [], cap);
    var (next, e) := Round(open, cap);
    PassSorted(open, SENTINEL, cap);
    forall t | NoneBefore(open, t, cap)
      ensures NoneBefore(next, t, cap) && (e.Some? ==> TimeCmp(t, e.value.rec.ts) <= 0)
    {
      PassSorted(open, t, cap);
      BoundAfterPop(pass, e, next, t, cap);
    }
    if e.Some? {
      BoundAfterPop(pass, e, next, e.value.rec.ts, cap);
    }
  }

  lemma BoundAfterPop(pass: Pass, e: Option<Emission>, next: seq<Input>, t: TimePico, cap: nat)
    requires |pass.open| <= |pass.heads| && HeadsOf(pass.open, pass.heads, cap) && AllSorted(pass.open)
    requires NoneBefore(pass.open, t, cap)
    requires var o := Oldest(pass.heads, |pass.open|);
      if o.None? then e.None? && next == pass.open else
        var x := pass.open[o.value];
        e == Some(Emission(x.id, x.rest[0])) && next == pass.open[o.value := x.(rest := x.rest[1..])]
    ensures NoneBefore(next, t, cap) && AllSorted(next) && (e.Some? ==> TimeCmp(t, e.value.rec.ts) <= 0)
  {
    var o := Oldest(pass.heads, |pass.open|);
    if o.Some? {
      var x := pass.open[o.value];
      assert SortedByTime(x.rest[1..]);
      if HasHead(x.rest[1..], cap) {
        assert x.rest[1..][0] == x.rest[1];
        TimeCmpOrders(t, x.rest[0].ts, x.rest[1].ts);
      }
    }
  }

  lemma {:induction false} SafeInOrder(open: seq<Input>, t: TimePico, cap: nat)
    requires AllDated(open) && AllSorted(open) && Safe(open, cap) && NoneBefore(open, t, cap)
    ensures InOrder(Run(open, cap))
    ensures forall i :: 0 <= i < |Run(open, cap)| ==> TimeCmp(t, Run(open, cap)[i].rec.ts) <= 0
    decreases Total(open) + |open|
  {
    if open != [] {
      RoundShrinks(open, cap);
      SafeRound(open, cap);
      var (next, e) := Round(open, cap);
      SafeInOrder(next, t, cap);
      if e.Some? {
        SafeInOrder(next, e.value.rec.ts, cap);
        assert Run(open, cap) == [e.value] + Run(next, cap);
      } else {
        assert Run(open, cap) == Run(next, cap);
      }
    }
  }

  lemma {:induction false} OfInputFound(out: seq<Emission>, id: nat) returns (i: nat)
    requires OfInput(out, id) != []
    ensures i < |out| && out[i].rec == OfInput(out, id)[0]
  {
    if out[0].id == id {
      i := 0;
    } else {
      var j := OfInputFound(out[1..], id);
      i := j + 1;
    }
  }

  /** The head of every stream left after a round is written in a later one. */
  lemma HeadWritten(next: seq<Input>, k: nat, cap: nat) returns (i: nat)
    requires AllDated(next) && Distinct(next) && k < |next| && HasHead(next[k].rest, cap)
    ensures i < |Run(next, cap)| && Run(next, cap)[i].rec == next[k].rest[0]
  {
    MergeConserves(next, next[k].id, cap);
    RemainingAt(next, k, cap);
    i := OfInputFound(Run(next, cap), next[k].id);
  }

  /** A stream with a head older than the record written is left as it was. */
  lemma SkippedKept(open: seq<Input>, cap: nat) returns (k: nat)
    requires AllDated(open) && !RoundSafe(open, cap)
    ensures var (next, e) := Round(open, cap);
      e.Some? && k < |next| && HasHead(next[k].rest, cap) && TimeCmp(next[k].rest[0].ts, e.value.rec.ts) < 0
  {
    PassKeeps(open, [], cap);
    var pass := PeekFrom(open, [], cap);
    var (next, e) := Round(open, cap);
    k :| 0 <= k < |pass.open| && HasHead(pass.open[k].rest, cap) &&
      TimeCmp(e.value.rec.ts, pass.open[k].rest[0].ts) > 0;
    TimeCmpOrders(e.value.rec.ts, pass.open[k].rest[0].ts, e.value.rec.ts);
  }

  /** A record written before an older one of a skipped stream puts the output out of order: the
      older one is written later. */
  lemma {:induction false} UnsafeRound(open: seq<Input>, cap: nat)
    requires AllDated(open) && Distinct(open) && open != [] && !RoundSafe(open, cap)
    ensures !InOrder(Run(open, cap))
  {
    RoundShrinks(open, cap);
    RoundRemaining(open, 0, cap);
    var (next, e) := Round(open, cap);
    var k := SkippedKept(open, cap);
    var i := HeadWritten(next, k, cap);
    var out := Run(open, cap);
    assert out[0] == e.value && out[i + 1] == Run(next, cap)[i];
    TimeCmpOrders(out[0].rec.ts, out[i + 1].rec.ts, out[0].rec.ts);
  }

  lemma {:induction false} InOrderSafe(open: seq<Input>, cap: nat)
    requires AllDated(open) && Distinct(open) && InOrder(Run(open, cap))
    ensures Safe(open, cap)
    decreases Total(open) + |open|
  {
    if open != [] {
      if !RoundSafe(open, cap) {
        UnsafeRound(open, cap);
      }
      RoundShrinks(open, cap);
      RoundRemaining(open, 0, cap);
      var (next, e) := Round(open, cap);
      var out := Run(open, cap);
      if e.Some? {
        assert out[1..] == Run(next, cap);
        assert forall i :: 0 <= i < |out| - 1 ==> out[1..][i] == out[i + 1];
      } else {
        assert out == Run(next, cap);
      }
      InOrderSafe(next, cap);
    }
  }

  /** Sorted inputs give a sorted output if and only if no round writes past a skipped stream. Which
      inputs these are is the subject of `MergeEnds`. */
  lemma {:induction false} SortedIff(open: seq<Input>, cap: nat)
    requires AllDated(open) && Distinct(open) && AllSorted(open)
    ensures InOrder(Run(open, cap)) <==> Safe(open, cap)
  {
    if Safe(open, cap) {
      SafeInOrder(open, TimePico(0, 0), cap);
    } else if InOrder(Run(open, cap)) {
      InOrderSafe(open, cap);
    }
  }

  lemma {:induction false} PeekStep(open: seq<Input>, heads: seq<Option<Rec>>, cap: nat)
    requires |heads| < |open|
    ensures HasHead(open[|heads|].rest, cap) ==>
      PeekFrom(open, heads, cap) == PeekFrom(open, heads + [Some(open[|heads|].rest[0])], cap)
    ensures !HasHead(open[|heads|].rest, cap) ==>
      PeekFrom(open, heads, cap) == PeekFrom(Drop(open, |heads|), heads + [None], cap)
  {
  }

  /** With two streams, a pass that skips one of them finds no head at all. */
  lemma {:induction false} TwoPass(open: seq<Input>, cap: nat)
    requires |open| <= 2
    ensures var r := PeekFrom(open, [], cap);
      |r.open| <= 1 || (|r.heads| == 2 && r.heads[0].Some? && r.heads[1].Some?)
    ensures var r := PeekFrom(open, [], cap);
      |r.open| == 1 && r.heads[0].None? ==> forall k :: 0 <= k < |r.open| ==> r.heads[k].None?
  {
    if |open| > 0 {
      PeekStep(open, [], cap);
      if HasHead(open[0].rest, cap) {
        var one := [Some(open[0].rest[0])];
        assert [] + one == one;
        if |open| == 2 {
          PeekStep(open, one, cap);
        }
      }
    }
  }

  /** With two streams a round that writes has looked at all of them. */
  lemma TwoRound(open: seq<Input>, cap: nat)
    requires AllDated(open) && |open| <= 2
    ensures RoundSafe(open, cap)
  {
    TwoPass(open, cap);
    PassKeeps(open, [], cap);
    var pass := PeekFrom(open, [], cap);
    var o := Oldest(pass.heads, |pass.open|);
    if o.Some? {
      forall k | 0 <= k < |pass.open| ensures pass.heads[k].Some? {
      }
    }
  }

  /** Two sorted inputs always merge into a sorted output. */
  lemma {:induction false} TwoInputsSafe(open: seq<Input>, cap: nat)
    requires AllDated(open) && |open| <= 2
    ensures Safe(open, cap)
    decreases Total(open) + |open|
  {
    if open != [] {
      TwoRound(open, cap);
      RoundShrinks(open, cap);
      TwoInputsSafe(Round(open, cap).0, cap);
    }
  }

  lemma {:induction false} WrittenAt(es: seq<Emission>, i: nat)
    requires i < |es|
    ensures |Written(es)| == |es| && Written(es)[i] == Truncate(es[i].rec)
  {
    if |es| > 1 {
      WrittenAt(es[1..], if i == 0 then 0 else i - 1);
    }
  }

  /** Every record emitted is written in its place: its time and length as they were, and of its payload the
      first bytes, as many as it had on the wire if more were captured. */
  lemma {:induction false} WrittenExactly(es: seq<Emission>, i: nat)
    requires i < |es|
    ensures |Written(es)| == |es|
    ensures var w, r := Written(es)[i], es[i].rec;
      && w.ts == r.ts && w.len == r.len && w.payload <= r.payload
      && |w.payload| == if |r.payload| <= r.len then |r.payload| else r.len
  {
    WrittenAt(es, i);
  }

  lemma {:induction false} WrittenInOrder(es: seq<Emission>)
    ensures SortedByTime(Written(es)) <==> InOrder(es)
  {
    if es != [] {
      WrittenAt(es, 0);
      forall i | 0 <= i < |es| ensures Written(es)[i].ts == es[i].rec.ts {
        WrittenAt(es, i);
      }
    }
  }
}
