/** What the manual offers when a merge may come out unsorted: `--sort` puts the merged trace in order,
    and nothing is lost on the way. */
module MergeThenSort {
  import opened Optional
  import opened PicoTime
  import opened TraceSort
  import opened TraceMerge

  /** How often a stream delivers a record that is written as `r`. */
  function Delivers(rest: seq<Rec>, cap: nat, r: Rec): nat {
    if HasHead(rest, cap) then (if Truncate(rest[0]) == r then 1 else 0) + Delivers(rest[1..], cap, r) else 0
  }

  /** How often all streams together do. */
  function AllDeliver(open: seq<Input>, cap: nat, r: Rec): nat {
    if open == [] then 0 else AllDeliver(open[..|open| - 1], cap, r) + Delivers(open[|open| - 1].rest, cap, r)
  }

  lemma {:induction false} DeliverUpdate(open: seq<Input>, i: nat, x: Input, cap: nat, r: Rec)
    requires i < |open|
    ensures AllDeliver(open[i := x], cap, r) == AllDeliver(open, cap, r) - Delivers(open[i].rest, cap,
      r) + Delivers(x.rest, cap, r)
  {
    var n := |open| - 1;
    if i < n {
      assert open[i := x][..n] == open[..n][i := x];
      DeliverUpdate(open[..n], i, x, cap, r);
    } else {
      assert open[i := x][..n] == open[..n];
    }
  }

  lemma {:induction false} DeliverDrop(open: seq<Input>, i: nat, cap: nat, r: Rec)
    requires i < |open|
    ensures AllDeliver(Drop(open, i), cap, r) == AllDeliver(open, cap, r) - Delivers(open[i].rest, cap, r)
  {
    var last := open[|open| - 1];
    DeliverUpdate(open, i, last, cap, r);
    assert open[i := last][|open| - 1] == last;
  }

  lemma {:induction false} DeliverPass(open: seq<Input>, heads: seq<Option<Rec>>, cap: nat, r: Rec)
    requires |heads| <= |open| + 1
    ensures AllDeliver(PeekFrom(open, heads, cap).open, cap, r) == AllDeliver(open, cap, r)
    decreases |open| + 1 - |heads|
  {
    var i := |heads|;
    if i < |open| {
      if HasHead(open[i].rest, cap) {
        DeliverPass(open, heads + [Some(open[i].rest[0])], cap, r);
      } else {
        DeliverDrop(open, i, cap, r);
        DeliverPass(Drop(open, i), heads + [None], cap, r);
      }
    }
  }

  lemma {:induction false} DeliverRound(open: seq<Input>, cap: nat, r: Rec)
    requires AllDated(open)
    ensures var (next, e) := Round(open, cap);
      AllDeliver(open, cap, r) == AllDeliver(next, cap, r) + if e.Some? && Truncate(e.value.rec) == r then 1 else 0
  {
    PassKeeps(open, [], cap);
    DeliverPass(open, [], cap, r);
    var pass := PeekFrom(open, [], cap);
    match Oldest(pass.heads, |pass.open|)
    case None =>
    case Some(j) => DeliverUpdate(pass.open, j, pass.open[j].(rest := pass.open[j].rest[1..]), cap, r);
  }

  /** The merged file is a permutation of what all inputs deliver. */
  lemma {:induction false} MergePermutes(open: seq<Input>, cap: nat, r: Rec)
    requires AllDated(open)
    ensures multiset(Written(Run(open, cap)))[r] == AllDeliver(open, cap, r)
    decreases Total(open) + |open|
  {
    if open != [] {
      RoundShrinks(open, cap);
      DeliverRound(open, cap, r);
      RunStep(open, cap);
      MergePermutes(Round(open, cap).0, cap, r);
    }
  }

  /** How often record `r` is among those the streams deliver, as they hold it. */
  ghost function Holding(open: seq<Input>, cap: nat, r: Rec): nat {
    if open == [] then 0 else
      Holding(open[..|open| - 1], cap, r) + multiset(Usable(open[|open| - 1].rest, cap))[r]
  }

  /** No record was captured beyond its length on the wire. */
  ghost predicate Genuine(rest: seq<Rec>) {
    forall i :: 0 <= i < |rest| ==> |rest[i].payload| <= rest[i].len
  }

  lemma {:induction false} DeliversAsHeld(rest: seq<Rec>, cap: nat, r: Rec)
    requires Genuine(rest)
    ensures Delivers(rest, cap, r) == multiset(Usable(rest, cap))[r]
  {
    if HasHead(rest, cap) {
      DeliversAsHeld(rest[1..], cap, r);
      assert rest[0].payload[..|rest[0].payload|] == rest[0].payload;
    }
  }

  lemma {:induction false} AllDeliverAsHeld(open: seq<Input>, cap: nat, r: Rec)
    requires forall i :: 0 <= i < |open| ==> Genuine(open[i].rest)
    ensures AllDeliver(open, cap, r) == Holding(open, cap, r)
  {
    if open != [] {
      AllDeliverAsHeld(open[..|open| - 1], cap, r);
      DeliversAsHeld(open[|open| - 1].rest, cap, r);
    }
  }

  /** Merging genuine traces writes every usable record of every input as it was, and as often. */
  lemma {:induction false} MergeWhole(inputs: seq<seq<Rec>>, cap: nat, r: Rec)
    requires forall i :: 0 <= i < |inputs| ==> Dated(inputs[i]) && Genuine(inputs[i])
    ensures AllDated(Opened(inputs))
    ensures multiset(Written(Run(Opened(inputs), cap)))[r] == Holding(Opened(inputs), cap, r)
  {
    MergePermutes(Opened(inputs), cap, r);
    AllDeliverAsHeld(Opened(inputs), cap, r);
  }

  lemma {:induction false} SelectedCount(rs: seq<Rec>, r: Rec)
    ensures multiset(Selectables(rs))[r] == if Selectable(r) then multiset(rs)[r] else 0
  {
    if rs != [] {
      SelectedCount(rs[..|rs| - 1], r);
      assert rs == rs[..|rs| - 1] + [rs[|rs| - 1]];
    }
  }

  lemma {:induction false} DeliveredDated(rest: seq<Rec>, cap: nat, r: Rec)
    requires Dated(rest) && Delivers(rest, cap, r) > 0
    ensures TimeCmp(r.ts, SENTINEL) < 0
  {
    if r != Truncate(rest[0]) {
      DeliveredDated(rest[1..], cap, r);
    }
  }

  lemma {:induction false} AllDeliveredDated(open: seq<Input>, cap: nat, r: Rec)
    requires AllDated(open) && AllDeliver(open, cap, r) > 0
    ensures TimeCmp(r.ts, SENTINEL) < 0
  {
    if Delivers(open[|open| - 1].rest, cap, r) > 0 {
      DeliveredDated(open[|open| - 1].rest, cap, r);
    } else {
      AllDeliveredDated(open[..|open| - 1], cap, r);
    }
  }

  lemma {:induction false} SortedCount(open: seq<Input>, cap: nat, r: Rec)
    requires AllDated(open)
    ensures var out := StableSort(Selectables(Written(Run(open, cap))));
      multiset(out)[r] == if r.len > 0 then AllDeliver(open, cap, r) else 0
  {
    var merged := Written(Run(open, cap));
    MergePermutes(open, cap, r);
    StableSortSorts(Selectables(merged));
    SelectedCount(merged, r);
    if AllDeliver(open, cap, r) > 0 {
      AllDeliveredDated(open, cap, r);
      TimeCmpOrders(r.ts, SENTINEL, r.ts);
    }
  }

  /** Merging any number of inputs and then sorting writes the records of all inputs that are not empty on
      the wire, each as often as it was delivered, sorted by time; records of the same age keep the order
      of the merged file. */
  lemma SortAfterMerge(inputs: seq<seq<Rec>>, cap: nat) returns (order: seq<nat>)
    requires forall i :: 0 <= i < |inputs| ==> Dated(inputs[i])
    ensures AllDated(Opened(inputs))
    ensures var merged := Written(Run(Opened(inputs), cap)); var out := StableSort(Selectables(merged));
      && SortedByTime(out)
      && (forall r: Rec :: multiset(out)[r] == if r.len > 0 then AllDeliver(Opened(inputs), cap, r) else 0)
      && Positions(merged, order) && Ordered(merged, order) && Pick(merged, order) == out
  {
    var merged := Written(Run(Opened(inputs), cap));
    StableSortSorts(Selectables(merged));
    order := StableOrder(merged, |merged|);
    StableOrderSorts(merged, |merged|);
    assert merged[..|merged|] == merged;
    forall r: Rec
      ensures multiset(StableSort(Selectables(merged)))[r] == if r.len > 0
        then AllDeliver(Opened(inputs), cap, r) else 0
    {
      SortedCount(Opened(inputs), cap, r);
    }
  }
}
