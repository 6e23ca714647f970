/** The `--sort` phase of capmerge: a selection sort over the merged trace in memory, which marks
    each record it has written by setting its length to 0. */
module TraceSort {
  import opened Bytes
  import opened PicoTime

  datatype Rec = Rec(ts: TimePico, len: u32, payload: seq<byte>)

  /** The time the search for the oldest record starts from. */
  const SENTINEL := TimePico(U32 - 1, U64 - 1)

  /** A record the search can select: not marked, and older than the starting point. */
  predicate Selectable(r: Rec) {
    r.len > 0 && TimeCmp(SENTINEL, r.ts) > 0
  }

  /** Stable insertion sort: the reference for the order of the output. */
  function Insert(r: Rec, rs: seq<Rec>): seq<Rec> {
    if rs != [] && TimeCmp(rs[0].ts, r.ts) <= 0 then [rs[0]] + Insert(r, rs[1..]) else [r] + rs
  }

  function StableSort(rs: seq<Rec>): seq<Rec> {
    if rs == [] then [] else Insert(rs[|rs| - 1], StableSort(rs[..|rs| - 1]))
  }

  function Selectables(rs: seq<Rec>): seq<Rec> {
    if rs == [] then [] else
      Selectables(rs[..|rs| - 1]) + (if Selectable(rs[|rs| - 1]) then [rs[|rs| - 1]] else [])
  }

  predicate SortedByTime(rs: seq<Rec>) {
    forall i, j :: 0 <= i < j < |rs| ==> TimeCmp(rs[i].ts, rs[j].ts) <= 0
  }

  lemma {:induction false} InsertAdds(r: Rec, rs: seq<Rec>)
    ensures multiset(Insert(r, rs)) == multiset(rs) + multiset{r}
  {
    if rs != [] && TimeCmp(rs[0].ts, r.ts) <= 0 {
      InsertAdds(r, rs[1..]);
      assert rs == [rs[0]] + rs[1..];
    }
  }

  lemma SortedCons(x: Rec, rs: seq<Rec>)
    requires SortedByTime(rs) && forall q :: q in rs ==> TimeCmp(x.ts, q.ts) <= 0
    ensures SortedByTime([x] + rs)
  {
    assert forall i :: 0 <= i < |rs| ==> rs[i] in rs;
  }

  lemma {:induction false} InsertSorted(r: Rec, rs: seq<Rec>)
    requires SortedByTime(rs)
    ensures SortedByTime(Insert(r, rs))
  {
    if rs != [] && TimeCmp(rs[0].ts, r.ts) <= 0 {
      InsertSorted(r, rs[1..]);
      var tail := Insert(r, rs[1..]);
      forall q | q in tail ensures TimeCmp(rs[0].ts, q.ts) <= 0 {
        InsertAdds(r, rs[1..]);
        assert q in multiset(tail);
      }
      SortedCons(rs[0], tail);
    } else {
      forall q | q in rs ensures TimeCmp(r.ts, q.ts) <= 0 {
        TimeCmpOrders(r.ts, rs[0].ts, q.ts);
      }
      SortedCons(r, rs);
    }
  }

  /** The reference sorts and permutes. */
  lemma {:induction false} StableSortSorts(rs: seq<Rec>)
    ensures SortedByTime(StableSort(rs)) && multiset(StableSort(rs)) == multiset(rs)
  {
    if rs != [] {
      var front, last := rs[..|rs| - 1], rs[|rs| - 1];
      StableSortSorts(front);
      InsertSorted(last, StableSort(front));
      InsertAdds(last, StableSort(front));
      assert rs == front + [last];
    }
  }

  /** Position `x` comes before position `y` in the output: older, or as old and earlier. */
  predicate Before(rs: seq<Rec>, x: nat, y: nat)
    requires x < |rs| && y < |rs|
  {
    TimeCmp(rs[x].ts, rs[y].ts) < 0 || (rs[x].ts == rs[y].ts && x < y)
  }

  ghost predicate Positions(rs: seq<Rec>, order: seq<nat>) {
    forall i :: 0 <= i < |order| ==> order[i] < |rs|
  }

  ghost predicate Ordered(rs: seq<Rec>, order: seq<nat>)
    requires Positions(rs, order)
  {
    forall i, j :: 0 <= i < j < |order| ==> Before(rs, order[i], order[j])
  }

  function Pick(rs: seq<Rec>, order: seq<nat>): seq<Rec>
    requires forall i :: 0 <= i < |order| ==> order[i] < |rs|
  {
    seq(|order|, i requires 0 <= i < |order| => rs[order[i]])
  }

  /** An order is determined by the positions in it. */
  lemma {:induction false} OrderUnique(rs: seq<Rec>, p: seq<nat>, q: seq<nat>)
    requires Positions(rs, p) && Positions(rs, q) && Ordered(rs, p) && Ordered(rs, q)
    requires forall k :: k in p <==> k in q
    ensures p == q
  {
    if p == [] {
      HasMember(q);
    } else {
      assert p[0] in q && q[0] in p by {
        assert p[0] in p;
        if q != [] { assert q[0] in q; }
      }
      var i :| 0 <= i < |q| && q[i] == p[0];
      var j :| 0 <= j < |p| && p[j] == q[0];
      assert p[0] == q[0];
      forall k ensures k in p[1..] <==> k in q[1..] {
        TailMembers(rs, p, k);
        TailMembers(rs, q, k);
      }
      OrderUnique(rs, p[1..], q[1..]);
    }
  }

  lemma HasMember(q: seq<nat>)
    ensures q != [] ==> exists k :: k in q
  {
    if q != [] {
      assert q[0] in q;
    }
  }

  lemma TailMembers(rs: seq<Rec>, p: seq<nat>, k: nat)
    requires p != [] && Positions(rs, p) && Ordered(rs, p)
    ensures k in p[1..] <==> k in p && k != p[0]
  {
  }

  /** Insertion on positions: `k`, later in the trace than all of `order`, takes its place. */
  function Place(rs: seq<Rec>, k: nat, order: seq<nat>): (p: seq<nat>)
    requires k < |rs| && forall i :: 0 <= i < |order| ==> order[i] < k
    ensures forall i :: 0 <= i < |p| ==> p[i] <= k
    ensures forall x :: x in p <==> x == k || x in order
  {
    if order != [] && TimeCmp(rs[order[0]].ts, rs[k].ts) <= 0 then [order[0]] + Place(rs, k, order[1..])
    else [k] + order
  }

  lemma OrderedCons(rs: seq<Rec>, k: nat, order: seq<nat>)
    requires k < |rs| && Positions(rs, order) && Ordered(rs, order)
    requires forall x :: x in order ==> Before(rs, k, x)
    ensures Positions(rs, [k] + order) && Ordered(rs, [k] + order)
  {
    assert forall i :: 0 <= i < |order| ==> order[i] in order;
  }

  lemma {:induction false} PlaceOrdered(rs: seq<Rec>, k: nat, order: seq<nat>)
    requires k < |rs| && Positions(rs, order) && Ordered(rs, order)
    requires forall i :: 0 <= i < |order| ==> order[i] < k
    ensures Ordered(rs, Place(rs, k, order))
  {
    if order != [] && TimeCmp(rs[order[0]].ts, rs[k].ts) <= 0 {
      PlaceOrdered(rs, k, order[1..]);
      OrderedCons(rs, order[0], Place(rs, k, order[1..]));
    } else {
      forall x | x in order ensures Before(rs, k, x) {
        var i :| 0 <= i < |order| && order[i] == x;
        assert i > 0 ==> Before(rs, order[0], order[i]);
        TimeCmpOrders(rs[k].ts, rs[order[0]].ts, rs[x].ts);
        TimeCmpOrders(rs[x].ts, rs[k].ts, rs[order[0]].ts);
      }
      OrderedCons(rs, k, order);
    }
  }

  lemma {:induction false} PlaceInserts(rs: seq<Rec>, k: nat, order: seq<nat>)
    requires k < |rs| && Positions(rs, order) && forall i :: 0 <= i < |order| ==> order[i] < k
    ensures Pick(rs, Place(rs, k, order)) == Insert(rs[k], Pick(rs, order))
  {
    if order != [] && TimeCmp(rs[order[0]].ts, rs[k].ts) <= 0 {
      PlaceInserts(rs, k, order[1..]);
      var tail := Place(rs, k, order[1..]);
      assert Pick(rs, order)[1..] == Pick(rs, order[1..]);
      assert Pick(rs, [order[0]] + tail) == [rs[order[0]]] + Pick(rs, tail);
    } else {
      assert Pick(rs, [k] + order) == [rs[k]] + Pick(rs, order);
    }
  }

  /** The positions of the first `n` records that can be selected, in output order. */
  function StableOrder(rs: seq<Rec>, n: nat): (p: seq<nat>)
    requires n <= |rs|
    ensures forall i :: 0 <= i < |p| ==> p[i] < n
    ensures forall k :: k in p <==> 0 <= k < n && Selectable(rs[k])
  {
    if n == 0 then []
    else if Selectable(rs[n - 1]) then Place(rs, n - 1, StableOrder(rs, n - 1))
    else StableOrder(rs, n - 1)
  }

  lemma {:induction false} StableOrderSorts(rs: seq<Rec>, n: nat)
    requires n <= |rs|
    ensures Ordered(rs, StableOrder(rs, n))
    ensures Pick(rs, StableOrder(rs, n)) == StableSort(Selectables(rs[..n]))
  {
    if n > 0 {
      StableOrderSorts(rs, n - 1);
      assert rs[..n][..n - 1] == rs[..n - 1];
      if Selectable(rs[n - 1]) {
        PlaceOrdered(rs, n - 1, StableOrder(rs, n - 1));
        PlaceInserts(rs, n - 1, StableOrder(rs, n - 1));
        var s := Selectables(rs[..n - 1]);
        assert Selectables(rs[..n]) == s + [rs[n - 1]];
        assert (s + [rs[n - 1]])[..|s|] == s;
      } else {
        assert Selectables(rs[..n]) == Selectables(rs[..n - 1]);
      }
    }
  }

  /** A complete order of the selectable records picks out the reference result. */
  lemma {:induction false} OrderIsStableSort(rs: seq<Rec>, order: seq<nat>)
    requires Positions(rs, order) && Ordered(rs, order)
    requires forall k :: k in order <==> 0 <= k < |rs| && Selectable(rs[k])
    ensures Pick(rs, order) == StableSort(Selectables(rs))
  {
    StableOrderSorts(rs, |rs|);
    OrderUnique(rs, order, StableOrder(rs, |rs|));
    assert rs[..|rs|] == rs;
  }

  /** Of a trace whose records can all be selected, the result is the whole of it, sorted, and records
      of the same age keep their order. */
  lemma SortsWholeTrace(rs: seq<Rec>) returns (order: seq<nat>)
    requires forall k :: 0 <= k < |rs| ==> Selectable(rs[k])
    ensures var out := StableSort(Selectables(rs)); SortedByTime(out) && multiset(out) == multiset(rs)
    ensures Positions(rs, order) && Ordered(rs, order) && Pick(rs, order) == StableSort(Selectables(rs))
    ensures forall k :: k in order <==> 0 <= k < |rs|
  {
    AllSelected(rs);
    StableSortSorts(rs);
    order := StableOrder(rs, |rs|);
    StableOrderSorts(rs, |rs|);
    assert rs[..|rs|] == rs;
  }

  /** A record with a length and a normalised time can always be selected. */
  lemma NormalSelectable(r: Rec)
    requires r.len > 0 && r.ts.psec < 1_000_000_000_000
    ensures Selectable(r)
  {
  }

  /** So a trace of such records is written as a whole, sorted and stable. */
  lemma SortsNormalTrace(rs: seq<Rec>) returns (order: seq<nat>)
    requires forall k :: 0 <= k < |rs| ==> rs[k].len > 0 && rs[k].ts.psec < 1_000_000_000_000
    ensures var out := StableSort(Selectables(rs)); SortedByTime(out) && multiset(out) == multiset(rs)
    ensures Positions(rs, order) && Ordered(rs, order) && Pick(rs, order) == StableSort(Selectables(rs))
  {
    forall k | 0 <= k < |rs| ensures Selectable(rs[k]) {
      NormalSelectable(rs[k]);
    }
    order := SortsWholeTrace(rs);
  }

  lemma {:induction false} AllSelected(rs: seq<Rec>)
    requires forall k :: 0 <= k < |rs| ==> Selectable(rs[k])
    ensures Selectables(rs) == rs
  {
    if rs != [] {
      AllSelected(rs[..|rs| - 1]);
    }
  }

  /** The trace with the records at some positions marked as written. */
  ghost predicate Marked(now: seq<Rec>, rs: seq<Rec>, order: seq<nat>) {
    |now| == |rs| && forall k :: 0 <= k < |rs| ==> now[k] == if k in order then rs[k].(len := 0) else rs[k]
  }

  /** What has been written is in order and precedes everything selectable that has not. */
  ghost predicate Progress(rs: seq<Rec>, order: seq<nat>)
    requires Positions(rs, order)
  {
    && Ordered(rs, order)
    && (forall i :: 0 <= i < |order| ==> Selectable(rs[order[i]]))
    && (forall i, k :: 0 <= i < |order| && 0 <= k < |rs| && Selectable(rs[k]) && k !in order ==>
      Before(rs, order[i], k))
  }

  /** `k` is the next position in output order. */
  ghost predicate IsNext(rs: seq<Rec>, order: seq<nat>, k: nat) {
    && k < |rs| && Selectable(rs[k]) && k !in order
    && forall j :: 0 <= j < |rs| && Selectable(rs[j]) && j !in order && j != k ==> Before(rs, k, j)
  }

  lemma ProgressNext(rs: seq<Rec>, order: seq<nat>, k: nat)
    requires Positions(rs, order) && Progress(rs, order) && IsNext(rs, order, k)
    ensures Positions(rs, order + [k]) && Progress(rs, order + [k])
  {
  }

  /** The scan for the smallest timestamp, from the first record not yet passed over. */
  method FindOldest(a: array<Rec>, begin: nat, ghost rs: seq<Rec>, ghost order: seq<nat>)
    returns (found: bool, pkt: nat)
    requires begin <= a.Length && Marked(a[..], rs, order)
    requires forall k :: 0 <= k < begin ==> a[k].len == 0
    ensures found ==> begin <= pkt && IsNext(rs, order, pkt)
    ensures !found ==> forall k :: 0 <= k < |rs| && Selectable(rs[k]) ==> k in order
  {
    found, pkt := false, 0;
    var cur, ptr := SENTINEL, begin;
    while ptr < a.Length
      invariant begin <= ptr <= a.Length
      invariant found ==> begin <= pkt < ptr && Selectable(a[pkt]) && cur == a[pkt].ts
      invariant !found ==> cur == SENTINEL
      invariant forall k :: 0 <= k < ptr && Selectable(a[k]) ==>
        found && (k == pkt || TimeCmp(cur, a[k].ts) < 0 || (cur == a[k].ts && pkt < k))
    {
      if a[ptr].len > 0 && TimeCmp(cur, a[ptr].ts) > 0 {
        TimeCmpOrders(a[ptr].ts, cur, SENTINEL);
        found, pkt, cur := true, ptr, a[ptr].ts;
      }
      ptr := ptr + 1;
    }
    assert forall k :: 0 <= k < a.Length ==> a[k] == a[..][k];
  }

  /** The sort loop. Records that were empty from the start or carry the largest possible timestamp
      are never selected; all others are written, oldest first, those of the same age in the order
      of the trace. */
  method Sort(a: array<Rec>) returns (out: seq<Rec>)
    requires a.Length > 0
    modifies a
    ensures out == StableSort(Selectables(old(a[..])))
    ensures forall k :: 0 <= k < a.Length ==> !Selectable(a[k])
  {
    ghost var rs := a[..];
    ghost var order: seq<nat> := [];
    ghost var waiting := set k | 0 <= k < |rs| && Selectable(rs[k]);
    var begin := 0;
    out := [];
    while true
      invariant begin < a.Length && Marked(a[..], rs, order)
      invariant Positions(rs, order) && Progress(rs, order) && out == Pick(rs, order)
      invariant forall k :: 0 <= k < begin ==> a[k].len == 0
      invariant waiting == set k | 0 <= k < |rs| && Selectable(rs[k]) && k !in order
      decreases waiting
    {
      while begin < a.Length && a[begin].len == 0
        invariant begin <= a.Length
        invariant forall k :: 0 <= k < begin ==> a[k].len == 0
      {
        begin := begin + 1;
      }
      var found, pkt := FindOldest(a, begin, rs, order);
      if !found {
        break;
      }
      ProgressNext(rs, order, pkt);
      out := out + [a[pkt]];
      a[pkt] := a[pkt].(len := 0);
      order, waiting := order + [pkt], waiting - {pkt};
    }
    OrderIsStableSort(rs, order);
  }
}
