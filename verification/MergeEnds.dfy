/** When a merge of sorted inputs comes out sorted, as a condition on the inputs. Only the ends of files
    matter: when a file ends, the one in the last slot takes its place and is not looked at in that round. */
module MergeEnds {
  import opened Optional
  import opened Bytes
  import opened PicoTime
  import opened Records
  import opened TraceSort
  import opened TraceMerge
  import opened MergeOrder

  ghost predicate AllHead(open: seq<Input>, cap: nat) {
    forall k :: 0 <= k < |open| ==> HasHead(open[k].rest, cap)
  }

  /** Time and then slot: the order in which the heads of files are written while none has ended. */
  predicate NotAfter(t: TimePico, i: nat, u: TimePico, j: nat) {
    TimeCmp(t, u) < 0 || (t == u && i <= j)
  }

  lemma NotAfterTrans(t: TimePico, i: nat, u: TimePico, j: nat, v: TimePico, k: nat)
    requires NotAfter(t, i, u, j) && NotAfter(u, j, v, k)
    ensures NotAfter(t, i, v, k)
    ensures NotAfter(v, k, t, i) ==> t == u == v && i == j == k
  {
    TimeCmpOrders(t, u, v);
    TimeCmpOrders(v, t, u);
  }

  /** The time of the last record a file delivers. */
  function Ending(rest: seq<Rec>, cap: nat): TimePico
    requires HasHead(rest, cap)
  {
    if HasHead(rest[1..], cap) then Ending(rest[1..], cap) else rest[0].ts
  }

  /** Of the first `n` files, the one that ends first. */
  function FirstEnd(open: seq<Input>, cap: nat, n: nat): (i: nat)
    requires 1 <= n <= |open| && AllHead(open, cap)
    ensures i < n && forall j :: 0 <= j < n ==> NotAfter(Ending(open[i].rest, cap), i, Ending(open[j].rest, cap), j)
  {
    if n == 1 then 0 else
      var i := FirstEnd(open, cap, n - 1);
      if TimeCmp(Ending(open[n - 1].rest, cap), Ending(open[i].rest, cap)) < 0 then n - 1 else i
  }

  /** What is left of the file in slot `j` after the record of time `t` in slot `i`. */
  function After(rest: seq<Rec>, j: nat, t: TimePico, i: nat, cap: nat): seq<Rec> {
    if HasHead(rest, cap) && NotAfter(rest[0].ts, j, t, i) then After(rest[1..], j, t, i, cap) else rest
  }

  /** What is left of all files when the first of them has ended. */
  function Left(open: seq<Input>, cap: nat): (r: seq<Input>)
    requires open != [] && AllHead(open, cap)
    ensures |r| == |open|
  {
    var i := FirstEnd(open, cap, |open|);
    var t := Ending(open[i].rest, cap);
    seq(|open|, j requires 0 <= j < |open| => Input(open[j].id, After(open[j].rest, j, t, i, cap)))
  }

  /** With files that have ended among them: each file that the next round passes over holds no record
      older than all those looked at. Which files these are depends only on which have ended. */
  ghost predicate EndSafe(open: seq<Input>, cap: nat) {
    var p := PeekFrom(open, [], cap);
    forall k :: 0 <= k < |p.open| && p.heads[k].None? && HasHead(p.open[k].rest, cap) ==>
      (forall j :: 0 <= j < |p.open| ==> p.heads[j].None?) ||
      (exists j :: 0 <= j < |p.open| && p.heads[j].Some? && TimeCmp(p.heads[j].value.ts, p.open[k].rest[0].ts) <= 0)
  }

  // -- What a pass looks at --

  lemma {:induction false} PassAll(open: seq<Input>, heads: seq<Option<Rec>>, cap: nat)
    requires |heads| <= |open| + 1 && forall k :: |heads| <= k < |open| ==> HasHead(open[k].rest, cap)
    ensures var r := PeekFrom(open, heads, cap);
      && r.open == open && heads <= r.heads && |r.heads| >= |open|
      && forall k :: |heads| <= k < |open| ==> HasHead(open[k].rest, cap) && r.heads[k] == Some(open[k].rest[0])
    decreases |open| + 1 - |heads|
  {
    if |heads| < |open| {
      PassAll(open, heads + [Some(open[|heads|].rest[0])], cap);
    }
  }

  /** One ended file in slot `i`: the last file is in its slot and not looked at. */
  lemma {:induction false} PassOne(open: seq<Input>, heads: seq<Option<Rec>>, i: nat, cap: nat)
    requires |heads| <= i < |open| && !HasHead(open[i].rest, cap)
    requires forall k :: |heads| <= k < |open| && k != i ==> HasHead(open[k].rest, cap)
    ensures var r := PeekFrom(open, heads, cap);
      && r.open == Drop(open, i) && heads <= r.heads && |r.heads| > i && r.heads[i].None?
      && forall k :: |heads| <= k < |open| - 1 && k != i ==>
           HasHead(open[k].rest, cap) && r.heads[k] == Some(open[k].rest[0])
    decreases i - |heads|
  {
    if |heads| < i {
      PassOne(open, heads + [Some(open[|heads|].rest[0])], i, cap);
    } else {
      PassAll(Drop(open, i), heads + [None], cap);
    }
  }

  lemma {:induction false} PassCloses(open: seq<Input>, heads: seq<Option<Rec>>, cap: nat, k: nat)
    requires |heads| <= k < |open| && !HasHead(open[k].rest, cap)
    ensures |PeekFrom(open, heads, cap).open| < |open|
    decreases k - |heads|
  {
    if |heads| < k && HasHead(open[|heads|].rest, cap) {
      PassCloses(open, heads + [Some(open[|heads|].rest[0])], cap, k);
    }
  }

  /** The head of `x` is not older than that of `y`. */
  ghost predicate NotOlder(x: Input, y: Input, cap: nat) {
    HasHead(x.rest, cap) && HasHead(y.rest, cap) && TimeCmp(y.rest[0].ts, x.rest[0].ts) <= 0
  }

  /** The condition in the usual case of a single ended file: it is the last one, or the last one holds
      no record older than all others. */
  lemma EndSafeOne(open: seq<Input>, i: nat, cap: nat)
    requires i < |open| && !HasHead(open[i].rest, cap)
    requires forall k :: 0 <= k < |open| && k != i ==> HasHead(open[k].rest, cap)
    ensures var last := |open| - 1;
      EndSafe(open, cap) <==>
        || i == last || |open| == 2
        || exists j :: 0 <= j < last && j != i && NotOlder(open[last], open[j], cap)
  {
    PassOne(open, [], i, cap);
  }

  /** The condition says that the round is safe: nothing is written past an older record. */
  lemma EndSafeIff(open: seq<Input>, cap: nat)
    requires AllDated(open)
    ensures RoundSafe(open, cap) <==> EndSafe(open, cap)
  {
    PassKeeps(open, [], cap);
    var p := PeekFrom(open, [], cap);
    var o := Oldest(p.heads, |p.open|);
    if o.Some? {
      var t := p.heads[o.value].value.ts;
      forall j, k | 0 <= j < |p.open| && 0 <= k < |p.open| && p.heads[j].Some? && HasHead(p.open[k].rest, cap)
        ensures TimeCmp(p.heads[j].value.ts, p.open[k].rest[0].ts) <= 0 ==> TimeCmp(t, p.open[k].rest[0].ts) <= 0
      {
        TimeCmpOrders(t, p.heads[j].value.ts, p.open[k].rest[0].ts);
      }
    }
  }

  // -- From one end of a file to the next --

  lemma {:induction false} EndingAfterHead(rest: seq<Rec>, cap: nat)
    requires HasHead(rest, cap) && SortedByTime(rest)
    ensures TimeCmp(rest[0].ts, Ending(rest, cap)) <= 0
  {
    if HasHead(rest[1..], cap) {
      EndingAfterHead(rest[1..], cap);
      TimeCmpOrders(rest[0].ts, rest[1].ts, Ending(rest, cap));
    }
  }

  /** A file has ended once its last record is past. */
  lemma {:induction false} AfterEnding(rest: seq<Rec>, i: nat, cap: nat)
    requires HasHead(rest, cap) && SortedByTime(rest)
    ensures !HasHead(After(rest, i, Ending(rest, cap), i, cap), cap)
  {
    EndingAfterHead(rest, cap);
    TimeCmpOrders(rest[0].ts, Ending(rest, cap), rest[0].ts);
    if HasHead(rest[1..], cap) {
      AfterEnding(rest[1..], i, cap);
    }
  }

  lemma LeftEnds(open: seq<Input>, cap: nat)
    requires open != [] && AllHead(open, cap) && AllSorted(open)
    ensures !AllHead(Left(open, cap), cap)
  {
    var i := FirstEnd(open, cap, |open|);
    AfterEnding(open[i].rest, i, cap);
    assert !HasHead(Left(open, cap)[i].rest, cap);
  }

  lemma {:induction false} AfterSuffix(rest: seq<Rec>, j: nat, t: TimePico, i: nat, cap: nat)
    ensures Dated(rest) ==> Dated(After(rest, j, t, i, cap))
    ensures SortedByTime(rest) ==> SortedByTime(After(rest, j, t, i, cap))
  {
    if HasHead(rest, cap) && NotAfter(rest[0].ts, j, t, i) {
      AfterSuffix(rest[1..], j, t, i, cap);
    }
  }

  lemma LeftKeeps(open: seq<Input>, cap: nat)
    requires open != [] && AllHead(open, cap)
    ensures AllDated(open) ==> AllDated(Left(open, cap))
    ensures AllSorted(open) ==> AllSorted(Left(open, cap))
  {
    var i := FirstEnd(open, cap, |open|);
    var t := Ending(open[i].rest, cap);
    forall j | 0 <= j < |open|
      ensures Dated(open[j].rest) ==> Dated(Left(open, cap)[j].rest)
      ensures SortedByTime(open[j].rest) ==> SortedByTime(Left(open, cap)[j].rest)
    {
      AfterSuffix(open[j].rest, j, t, i, cap);
    }
  }

  lemma RoundSorted(open: seq<Input>, cap: nat)
    requires AllDated(open) && AllSorted(open)
    ensures AllSorted(Round(open, cap).0)
  {
    PassKeeps(open, [], cap);
    PassSorted(open, TimePico(0, 0), cap);
    var (next, e) := Round(open, cap);
    BoundAfterPop(PeekFrom(open, [], cap), e, next, TimePico(0, 0), cap);
  }

  lemma RoundAtEnd(open: seq<Input>, cap: nat)
    requires AllDated(open) && !AllHead(open, cap)
    ensures AllDated(Round(open, cap).0) && |Round(open, cap).0| < |open|
  {
    RoundShrinks(open, cap);
    var k :| 0 <= k < |open| && !HasHead(open[k].rest, cap);
    PassCloses(open, [], cap, k);
  }

  /** At every end of a file the next round is safe. Between ends nothing is asked: the files are simply
      read up to the point where the first of them ends. */
  ghost predicate EndsSafe(open: seq<Input>, cap: nat)
    requires AllDated(open) && AllSorted(open)
    decreases |open|, AllHead(open, cap)
  {
    if open == [] then true
    else if AllHead(open, cap) then
      LeftEnds(open, cap);
      LeftKeeps(open, cap);
      EndsSafe(Left(open, cap), cap)
    else
      RoundAtEnd(open, cap);
      RoundSorted(open, cap);
      EndSafe(open, cap) && EndsSafe(Round(open, cap).0, cap)
  }

  /** A round in which every file has a record: the first of the oldest heads is written. */
  lemma FullRound(open: seq<Input>, cap: nat) returns (o: nat)
    requires AllDated(open) && AllHead(open, cap) && open != []
    ensures o < |open| && Round(open, cap).0 == open[o := open[o].(rest := open[o].rest[1..])]
    ensures forall j :: 0 <= j < |open| ==> NotAfter(open[o].rest[0].ts, o, open[j].rest[0].ts, j)
    ensures RoundSafe(open, cap)
  {
    PassAll(open, [], cap);
    EndSafeIff(open, cap);
    var p := PeekFrom(open, [], cap);
    assert Dated(open[0].rest);
    o := Oldest(p.heads, |open|).value;
    forall j | 0 <= j < |open| ensures NotAfter(open[o].rest[0].ts, o, open[j].rest[0].ts, j) {
      TimeCmpOrders(open[o].rest[0].ts, open[j].rest[0].ts, open[o].rest[0].ts);
    }
  }

  lemma {:induction false} FirstEndUnique(open: seq<Input>, i: nat, cap: nat)
    requires AllHead(open, cap) && i < |open|
    requires forall j :: 0 <= j < |open| ==> NotAfter(Ending(open[i].rest, cap), i, Ending(open[j].rest, cap), j)
    ensures FirstEnd(open, cap, |open|) == i
  {
    var f := FirstEnd(open, cap, |open|);
    NotAfterTrans(Ending(open[i].rest, cap), i, Ending(open[f].rest, cap), f, Ending(open[i].rest, cap), i);
  }

  /** Reading on inside the files does not change where the first of them ends, nor what is left then. */
  lemma LeftWithin(open: seq<Input>, o: nat, cap: nat)
    requires AllSorted(open) && AllHead(open, cap) && o < |open| && HasHead(open[o].rest[1..], cap)
    requires forall j :: 0 <= j < |open| ==> NotAfter(open[o].rest[0].ts, o, open[j].rest[0].ts, j)
    ensures var next := open[o := open[o].(rest := open[o].rest[1..])];
      AllHead(next, cap) && Left(next, cap) == Left(open, cap)
  {
    var next := open[o := open[o].(rest := open[o].rest[1..])];
    assert forall j :: 0 <= j < |open| ==> Ending(next[j].rest, cap) == Ending(open[j].rest, cap);
    var i := FirstEnd(open, cap, |open|);
    FirstEndUnique(next, i, cap);
    var t := Ending(open[i].rest, cap);
    EndingAfterHead(open[i].rest, cap);
    TimeCmpOrders(open[i].rest[0].ts, t, open[i].rest[0].ts);
    NotAfterTrans(open[o].rest[0].ts, o, open[i].rest[0].ts, i, t, i);
    assert After(open[o].rest, o, t, i, cap) == After(next[o].rest, o, t, i, cap);
    assert Left(next, cap) == Left(open, cap);
  }

  /** Writing the last record of a file leaves exactly what is left at its end. */
  lemma LeftAtEnd(open: seq<Input>, o: nat, cap: nat)
    requires AllSorted(open) && AllHead(open, cap) && o < |open| && !HasHead(open[o].rest[1..], cap)
    requires forall j :: 0 <= j < |open| ==> NotAfter(open[o].rest[0].ts, o, open[j].rest[0].ts, j)
    ensures Left(open, cap) == open[o := open[o].(rest := open[o].rest[1..])]
  {
    var t := open[o].rest[0].ts;
    forall j | 0 <= j < |open| ensures NotAfter(t, o, Ending(open[j].rest, cap), j) {
      EndingAfterHead(open[j].rest, cap);
      var u := Ending(open[j].rest, cap);
      TimeCmpOrders(open[j].rest[0].ts, u, open[j].rest[0].ts);
      NotAfterTrans(t, o, open[j].rest[0].ts, j, u, j);
    }
    FirstEndUnique(open, o, cap);
    forall j | 0 <= j < |open| && j != o ensures After(open[j].rest, j, t, o, cap) == open[j].rest {
      NotBoth(t, o, open[j].rest[0].ts, j);
    }
    assert Ending(open[o].rest, cap) == t && After(open[o].rest, o, t, o, cap) == open[o].rest[1..];
    var left := Left(open, cap);
    forall j | 0 <= j < |open| ensures left[j] == open[o := open[o].(rest := open[o].rest[1..])][j] {
      assert left[j] == Input(open[j].id, After(open[j].rest, j, t, o, cap));
    }
  }

  lemma NotBoth(t: TimePico, i: nat, u: TimePico, j: nat)
    requires NotAfter(t, i, u, j) && i != j
    ensures !NotAfter(u, j, t, i)
  {
    TimeCmpOrders(t, u, t);
  }

  /** The condition on the ends holds exactly if every round is safe. */
  lemma {:induction false} EndsSafeIff(open: seq<Input>, cap: nat)
    requires AllDated(open) && AllSorted(open)
    ensures EndsSafe(open, cap) <==> Safe(open, cap)
    decreases Total(open) + |open|
  {
    if open != [] {
      RoundShrinks(open, cap);
      RoundSorted(open, cap);
      var next := Round(open, cap).0;
      EndsSafeIff(next, cap);
      if AllHead(open, cap) {
        var o := FullRound(open, cap);
        LeftKeeps(open, cap);
        if HasHead(next[o].rest, cap) {
          LeftWithin(open, o, cap);
        } else {
          LeftAtEnd(open, o, cap);
        }
      } else {
        EndSafeIff(open, cap);
      }
    }
  }

  // -- The merged file --

  /** For every number of sorted inputs the merged file is sorted if and only if every end of a file is
      safe; with at most two inputs it always is. */
  lemma {:induction false} MergedFileSorted(inputs: seq<seq<Rec>>, cap: nat)
    requires forall i :: 0 <= i < |inputs| ==> Dated(inputs[i]) && SortedByTime(inputs[i])
    ensures AllDated(Opened(inputs)) && AllSorted(Opened(inputs))
    ensures var sorted := SortedByTime(Written(Run(Opened(inputs), cap)));
            (sorted <==> EndsSafe(Opened(inputs), cap)) && (|inputs| <= 2 ==> sorted)
  {
    var open := Opened(inputs);
    SortedIff(open, cap);
    EndsSafeIff(open, cap);
    WrittenInOrder(Run(open, cap));
    if |inputs| <= 2 {
      TwoInputsSafe(open, cap);
    }
  }

  /** The condition fails for three or more files when the first is a single oldest record and the last
      starts before all others: at the end of the first the last is moved, and passed over. */
  lemma {:induction false} FirstEndUnsafe(open: seq<Input>, cap: nat)
    requires |open| >= 3 && AllDated(open) && AllSorted(open) && AllHead(open, cap) && |open[0].rest| == 1
    requires forall i :: 0 < i < |open| ==> TimeCmp(open[0].rest[0].ts, open[i].rest[0].ts) <= 0
    requires forall i :: 0 < i < |open| - 1 ==> TimeCmp(open[|open| - 1].rest[0].ts, open[i].rest[0].ts) < 0
    ensures !EndsSafe(open, cap)
  {
    LeftOfFirst(open, cap);
    LeftKeeps(open, cap);
    LastPassedOver(Left(open, cap), cap);
  }

  /** The first of three or more files has ended, and the last starts before all others. */
  lemma LastPassedOver(left: seq<Input>, cap: nat)
    requires |left| >= 3 && left[0].rest == [] && forall i :: 0 < i < |left| ==>
      left[i].rest != [] && HasHead(left[i].rest, cap)
    requires forall i :: 0 < i < |left| - 1 ==> TimeCmp(left[|left| - 1].rest[0].ts, left[i].rest[0].ts) < 0
    ensures !HasHead(left[0].rest, cap) && !EndSafe(left, cap)
  {
    EndSafeOne(left, 0, cap);
    forall j | 0 < j < |left| - 1 ensures !NotOlder(left[|left| - 1], left[j], cap) {
      OlderHead(left[|left| - 1], left[j], cap);
    }
  }

  lemma OlderHead(x: Input, y: Input, cap: nat)
    requires x.rest != [] && y.rest != [] && TimeCmp(x.rest[0].ts, y.rest[0].ts) < 0
    ensures !NotOlder(x, y, cap)
  {
    TimeCmpOrders(x.rest[0].ts, y.rest[0].ts, x.rest[0].ts);
  }

  /** When a single oldest record in slot 0 has been written the other files are untouched. */
  lemma LeftOfFirst(open: seq<Input>, cap: nat)
    requires open != [] && AllHead(open, cap) && AllSorted(open) && |open[0].rest| == 1
    requires forall i :: 0 < i < |open| ==> TimeCmp(open[0].rest[0].ts, open[i].rest[0].ts) <= 0
    ensures Left(open, cap) == open[0 := open[0].(rest := open[0].rest[1..])] && open[0].rest[1..] == []
  {
    forall j | 0 <= j < |open| ensures NotAfter(open[0].rest[0].ts, 0, open[j].rest[0].ts, j) {
      TimeCmpOrders(open[0].rest[0].ts, open[j].rest[0].ts, open[0].rest[0].ts);
    }
    LeftAtEnd(open, 0, cap);
  }

  /** A file with one record, of second `sec`. */
  function Sample(sec: u32): seq<Rec> {
    [Rec(TimePico(sec, 0), 1, [0])]
  }

  lemma SampleFits(sec: u32, cap: nat)
    requires sec <= 2 && cap > HEADER
    ensures HasHead(Sample(sec), cap) && Dated(Sample(sec)) && SortedByTime(Sample(sec))
    ensures |Sample(sec)| == 1 && Sample(sec)[0].ts == TimePico(sec, 0)
  {
  }

  /** Seconds 0, 2, ..., 2, 1. */
  function Second(i: nat, k: nat): u32 {
    if i == 0 then 0 else if i == k - 1 then 1 else 2
  }

  /** No number of inputs above two is safe: of every number there are sorted inputs that come out
      unsorted. */
  lemma UnsortedForEvery(k: nat, cap: nat) returns (inputs: seq<seq<Rec>>)
    requires k >= 3 && cap > HEADER
    ensures |inputs| == k && forall i :: 0 <= i < k ==> Dated(inputs[i]) && SortedByTime(inputs[i])
    ensures AllDated(Opened(inputs)) && !SortedByTime(Written(Run(Opened(inputs), cap)))
  {
    inputs := seq(k, i requires i >= 0 => Sample(Second(i, k)));
    forall i | 0 <= i < k ensures Dated(inputs[i]) && SortedByTime(inputs[i]) {
      SampleFits(Second(i, k), cap);
    }
    MergedFileSorted(inputs, cap);
    SampledUnsafe(Opened(inputs), cap);
  }

  lemma {:induction false} SampledUnsafe(open: seq<Input>, cap: nat)
    requires |open| >= 3 && cap > HEADER && AllDated(open) && AllSorted(open)
    requires forall i :: 0 <= i < |open| ==> open[i].rest == Sample(Second(i, |open|))
    ensures !EndsSafe(open, cap)
  {
    forall i | 0 <= i < |open|
      ensures HasHead(open[i].rest, cap) && |open[i].rest| == 1 && open[i].rest[0].ts == TimePico(Second(i, |open|), 0)
    {
      SampleFits(Second(i, |open|), cap);
    }
    FirstEndUnsafe(open, cap);
  }
}
