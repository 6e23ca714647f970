/** Selecting frames by number: a list of ranges of which only the first is ever tested, and from
    which at most one range is dropped after each frame. */
module FrameRanges {

  /** An upper end of -1 leaves the range open; the C code treats every upper end below 1 so. */
  datatype Range = Range(lower: int, upper: int) {
    predicate Contains(k: int) {
      lower <= k && (upper > 0 ==> k <= upper)
    }

    /** filter_match drops the range after a frame past its end. */
    predicate Spent(k: int) {
      upper > 0 && k > upper
    }
  }

  /** The forms in which a range is written: "23", "23-59", "-59" and "23-". */
  datatype Form = Single(n: nat) | Between(a: nat, b: nat) | UpTo(b: nat) | From(a: nat)

  /** What parse_frame_range makes of them. */
  function RangeOf(f: Form): Range {
    match f
    case Single(n) => Range(n, n)
    case Between(a, b) => Range(a, b)
    case UpTo(b) => if b == 0 then Range(0, -1) else Range(-1, b)
    case From(a) => Range(a, -1)
  }

  /** The frames the manual promises. */
  predicate Promised(f: Form, k: nat) {
    match f
    case Single(n) => k == n
    case Between(a, b) => a <= k <= b
    case UpTo(b) => k <= b
    case From(a) => a <= k
  }

  predicate EndsAtZero(f: Form) {
    match f
    case Single(n) => n == 0
    case Between(_, b) => b == 0
    case UpTo(b) => b == 0
    case From(_) => false
  }

  /** A range selects what the manual promises, unless its last frame is given as 0: then it is open. */
  lemma FormMeans(f: Form)
    ensures (forall k: nat :: k >= 1 ==> (RangeOf(f).Contains(k) <==> Promised(f, k))) <==> !EndsAtZero(f)
  {
    if EndsAtZero(f) {
      var k := match f case Between(a, _) => a + 1 case _ => 1;
      assert RangeOf(f).Contains(k) && !Promised(f, k);
    }
  }

  /** filter_frame_num. */
  predicate TestHead(rs: seq<Range>, k: int) {
    rs != [] && rs[0].Contains(k)
  }

  function Prune(rs: seq<Range>, k: int): seq<Range> {
    if rs != [] && rs[0].Spent(k) then rs[1..] else rs
  }

  /** The list left when frame `k` is tested; frames are numbered from 1. */
  function ListAt(rs: seq<Range>, k: nat): seq<Range>
    requires k >= 1
  {
    if k == 1 then rs else Prune(ListAt(rs, k - 1), k - 1)
  }

  predicate Accepts(rs: seq<Range>, k: nat)
    requires k >= 1
  {
    TestHead(ListAt(rs, k), k)
  }

  function Max(a: int, b: int): int {
    if a < b then b else a
  }

  /** The first frame tested against range `i`, if the ones before it are all closed: the frame
      after the one at which range `i - 1` was found to be spent. */
  function Start(rs: seq<Range>, i: nat): nat
    requires i <= |rs|
  {
    if i == 0 then 1 else Max(Start(rs, i - 1), rs[i - 1].upper + 1) + 1
  }

  ghost predicate AllClosed(rs: seq<Range>, i: nat)
    requires i <= |rs|
  {
    forall j :: 0 <= j < i ==> rs[j].upper > 0
  }

  /** Range `i` is the one that frame `k` is tested against. */
  ghost predicate HeadAt(rs: seq<Range>, i: nat, k: nat) {
    && i < |rs| && AllClosed(rs, i) && Start(rs, i) <= k
    && (rs[i].upper > 0 ==> k < Start(rs, i + 1))
  }

  /** Every range has been dropped by frame `k`. */
  ghost predicate Exhausted(rs: seq<Range>, k: nat) {
    AllClosed(rs, |rs|) && Start(rs, |rs|) <= k
  }

  lemma {:induction false} ListAtExact(rs: seq<Range>, k: nat) returns (i: nat)
    requires k >= 1
    ensures i <= |rs| && ListAt(rs, k) == rs[i..]
    ensures if i < |rs| then HeadAt(rs, i, k) else Exhausted(rs, k)
    decreases k
  {
    if k == 1 {
      i := 0;
      assert rs[0..] == rs;
    } else {
      i := ListAtExact(rs, k - 1);
      if i < |rs| && rs[i].Spent(k - 1) {
        assert rs[i..][1..] == rs[i + 1..];
        i := i + 1;
      }
    }
  }

  lemma {:induction false} StartGrows(rs: seq<Range>, i: nat, j: nat)
    requires i <= j <= |rs|
    ensures Start(rs, i) + (j - i) <= Start(rs, j)
    decreases j - i
  {
    if i < j {
      StartGrows(rs, i, j - 1);
    }
  }

  lemma HeadUnique(rs: seq<Range>, i: nat, j: nat, k: nat)
    requires HeadAt(rs, i, k) && (HeadAt(rs, j, k) || (j == |rs| && Exhausted(rs, k)))
    ensures i == j
  {
    if i < j {
      StartGrows(rs, i + 1, j);
    } else if j < i {
      StartGrows(rs, j + 1, i);
    }
  }

  lemma AcceptsByHead(rs: seq<Range>, k: nat) returns (i: nat)
    requires k >= 1
    ensures i <= |rs| && (if i < |rs| then HeadAt(rs, i, k) else Exhausted(rs, k))
    ensures Accepts(rs, k) <==> i < |rs| && rs[i].Contains(k)
  {
    i := ListAtExact(rs, k);
  }

  /** Which frames the pruned list accepts: those inside the range that is up when they are seen. */
  lemma AcceptsExact(rs: seq<Range>, k: nat)
    requires k >= 1
    ensures Accepts(rs, k) <==> exists i: nat :: HeadAt(rs, i, k) && rs[i].Contains(k)
  {
    var i := AcceptsByHead(rs, k);
    forall j: nat | HeadAt(rs, j, k) ensures i == j {
      HeadUnique(rs, j, i, k);
    }
  }

  /** What the manual promises: the frame lies in one of the ranges. */
  ghost predicate InUnion(rs: seq<Range>, k: nat) {
    exists i :: 0 <= i < |rs| && rs[i].Contains(k)
  }

  /** Non-empty ranges in increasing order without overlap, only the last of them open. */
  ghost predicate Ascending(rs: seq<Range>) {
    && (forall i :: 0 <= i < |rs| ==> if rs[i].upper > 0 then rs[i].lower <= rs[i].upper else i == |rs| - 1)
    && (forall i, j :: 0 <= i < j < |rs| ==> rs[i].upper < rs[j].lower)
  }

  ghost predicate NoneAdjacent(rs: seq<Range>) {
    forall i :: 0 < i < |rs| ==> rs[i].lower != rs[i - 1].upper + 1
  }

  lemma {:induction false} StartOfAscending(rs: seq<Range>, i: nat)
    requires Ascending(rs) && NoneAdjacent(rs) && 0 < i < |rs|
    ensures Start(rs, i) == rs[i - 1].upper + 2 <= rs[i].lower
    decreases i
  {
    if i > 1 {
      StartOfAscending(rs, i - 1);
    }
  }

  /** No list accepts a frame outside its ranges. */
  lemma AcceptsOnlyUnion(rs: seq<Range>, k: nat)
    requires k >= 1 && Accepts(rs, k)
    ensures InUnion(rs, k)
  {
    var i := AcceptsByHead(rs, k);
  }

  lemma UnionAccepted(rs: seq<Range>, k: nat)
    requires Ascending(rs) && NoneAdjacent(rs) && k >= 1 && InUnion(rs, k)
    ensures Accepts(rs, k)
  {
    var i :| 0 <= i < |rs| && rs[i].Contains(k);
    if i > 0 {
      StartOfAscending(rs, i);
    }
    assert Start(rs, i + 1) == Max(Start(rs, i), rs[i].upper + 1) + 1;
    assert HeadAt(rs, i, k);
    var j := AcceptsByHead(rs, k);
    HeadUnique(rs, i, j, k);
  }

  /** The frame on which two adjacent ranges meet is tested against the first and lost. */
  lemma AdjacentLoses(rs: seq<Range>, i: nat)
    requires Ascending(rs) && 0 < i < |rs| && rs[i].lower == rs[i - 1].upper + 1
    ensures rs[i].lower >= 1 && InUnion(rs, rs[i].lower) && !Accepts(rs, rs[i].lower)
  {
    var k := rs[i].lower;
    assert rs[i - 1].upper > 0;
    assert rs[i].Contains(k);
    var j := AcceptsByHead(rs, k);
    assert Start(rs, i) > k && (j > i ==> Start(rs, j) >= rs[j - 1].upper + 2);
  }

  ghost predicate Faithful(rs: seq<Range>) {
    forall k: nat :: k >= 1 ==> (Accepts(rs, k) <==> InUnion(rs, k))
  }

  /** For every ascending list, the frames accepted are those of the ranges if and only if no two
      ranges are adjacent: "5,6" loses frame 6, "5-6" does not. */
  lemma UnionIff(rs: seq<Range>)
    requires Ascending(rs)
    ensures Faithful(rs) <==> NoneAdjacent(rs)
  {
    if NoneAdjacent(rs) {
      forall k: nat | k >= 1 ensures Accepts(rs, k) <==> InUnion(rs, k) {
        if Accepts(rs, k) {
          AcceptsOnlyUnion(rs, k);
        } else if InUnion(rs, k) {
          UnionAccepted(rs, k);
        }
      }
    } else {
      var i :| 0 < i < |rs| && rs[i].lower == rs[i - 1].upper + 1;
      AdjacentLoses(rs, i);
    }
  }

  // -- Lists of any shape --

  /** Some frame from `a` to `b` lies in the range. */
  predicate Meets(r: Range, a: int, b: int) {
    var k := Max(a, r.lower);
    k <= b && (r.upper > 0 ==> k <= r.upper)
  }

  /** Some frame from `a` on does. */
  predicate MeetsFrom(r: Range, a: int) {
    r.upper > 0 ==> Max(a, r.lower) <= r.upper
  }

  /** The last frame that is tested against range `i` before the range begins. */
  function WaitEnd(rs: seq<Range>, i: nat): int
    requires i < |rs|
  {
    if rs[i].upper > 0 && Start(rs, i + 1) < rs[i].lower then Start(rs, i + 1) - 1 else rs[i].lower - 1
  }

  /** The frames that are tested in vain: while range `i` has not begun, on the one that finds it spent, and
      after the last range. */
  ghost predicate Barren(rs: seq<Range>, k: nat) {
    || (exists i: nat :: i < |rs| && AllClosed(rs, i) && BarrenAt(rs, i, k))
    || Exhausted(rs, k)
  }

  ghost predicate BarrenAt(rs: seq<Range>, i: nat, k: nat)
    requires i < |rs|
  {
    Start(rs, i) <= k <= WaitEnd(rs, i) || (rs[i].upper > 0 && k == Start(rs, i + 1) - 1)
  }

  lemma BarrenHead(rs: seq<Range>, i: nat, k: nat)
    requires i < |rs| && AllClosed(rs, i)
    ensures BarrenAt(rs, i, k) <==> HeadAt(rs, i, k) && !rs[i].Contains(k)
  {
  }

  /** The frames that are lost from any list, ascending or not: those of its ranges that are tested in vain. */
  lemma LostExactly(rs: seq<Range>, k: nat)
    requires k >= 1
    ensures Accepts(rs, k) <==> InUnion(rs, k) && !Barren(rs, k)
  {
    var i := AcceptsByHead(rs, k);
    if i < |rs| {
      BarrenHead(rs, i, k);
      if Accepts(rs, k) {
        AcceptsOnlyUnion(rs, k);
        if Exhausted(rs, k) {
          HeadUnique(rs, i, |rs|, k);
        }
        forall j: nat | j < |rs| && AllClosed(rs, j) ensures !BarrenAt(rs, j, k) {
          BarrenHead(rs, j, k);
          if HeadAt(rs, j, k) {
            HeadUnique(rs, j, i, k);
          }
        }
      }
    }
  }

  /** No range holds a frame that is tested in vain; a condition on the ends of the ranges. */
  ghost predicate NoneBarren(rs: seq<Range>) {
    && (forall i: nat, j: nat :: i < |rs| && j < |rs| && AllClosed(rs, i) ==> Fruitful(rs, i, rs[j]))
    && (AllClosed(rs, |rs|) ==> forall j :: 0 <= j < |rs| ==> !MeetsFrom(rs[j], Start(rs, |rs|)))
  }

  ghost predicate Fruitful(rs: seq<Range>, i: nat, r: Range)
    requires i < |rs|
  {
    !Meets(r, Start(rs, i), WaitEnd(rs, i)) && (rs[i].upper > 0 ==> !r.Contains(Start(rs, i + 1) - 1))
  }

  lemma FruitfulIff(rs: seq<Range>, i: nat, r: Range)
    requires i < |rs|
    ensures Fruitful(rs, i, r) <==> forall k: nat :: k >= 1 && r.Contains(k) ==> !BarrenAt(rs, i, k)
  {
    StartGrows(rs, 0, i);
    if !Fruitful(rs, i, r) {
      var k: nat := if Meets(r, Start(rs, i), WaitEnd(rs, i)) then Max(Start(rs, i), r.lower) else Start(rs, i + 1) - 1;
      assert k >= 1 && r.Contains(k) && BarrenAt(rs, i, k);
    }
  }

  /** A list of any shape accepts exactly the union of its ranges if and only if no range meets a frame that
      is tested in vain: "6,5" loses frame 5, and "1-5,3-8" frame 6. */
  lemma FaithfulIff(rs: seq<Range>)
    ensures Faithful(rs) <==> NoneBarren(rs)
  {
    if NoneBarren(rs) {
      forall k: nat | k >= 1 ensures Accepts(rs, k) <==> InUnion(rs, k) {
        LostExactly(rs, k);
        if InUnion(rs, k) {
          NotBarren(rs, k);
        }
      }
    } else {
      var k := SomeLost(rs);
      LostExactly(rs, k);
    }
  }

  lemma NotBarren(rs: seq<Range>, k: nat)
    requires NoneBarren(rs) && k >= 1 && InUnion(rs, k)
    ensures !Barren(rs, k)
  {
    var j :| 0 <= j < |rs| && rs[j].Contains(k);
    forall i: nat | i < |rs| && AllClosed(rs, i) ensures !BarrenAt(rs, i, k) {
      FruitfulIff(rs, i, rs[j]);
    }
  }

  lemma SomeLost(rs: seq<Range>) returns (k: nat)
    requires !NoneBarren(rs)
    ensures k >= 1 && InUnion(rs, k) && Barren(rs, k)
  {
    if i: nat, j: nat :| i < |rs| && j < |rs| && AllClosed(rs, i) && !Fruitful(rs, i, rs[j]) {
      FruitfulIff(rs, i, rs[j]);
      k :| k >= 1 && rs[j].Contains(k) && BarrenAt(rs, i, k);
    } else {
      var j :| 0 <= j < |rs| && MeetsFrom(rs[j], Start(rs, |rs|));
      StartGrows(rs, 0, |rs|);
      k := Max(Start(rs, |rs|), rs[j].lower);
    }
  }
}
