/** The sixteen tests of a filter and the word in which filter_core collects their results. */
module FilterBits {

  /** The tests, in the order in which filter_core makes them, which is that of their offsets. */
  datatype Test =
    | DstPort | SrcPort | IpDst | IpSrc | IpProto | EthDst | EthSrc | EthType | Vlan | Iface
    | MampId | EndTime | StartTime | Port | FrameMaxDt | FrameNum

  const TESTS: seq<Test> := [
    DstPort, SrcPort, IpDst, IpSrc, IpProto, EthDst, EthSrc, EthType, Vlan, Iface,
    MampId, EndTime, StartTime, Port, FrameMaxDt, FrameNum]

  function Offset(t: Test): (k: nat)
    ensures k < 16
  {
    match t
    case DstPort => 0
    case SrcPort => 1
    case IpDst => 2
    case IpSrc => 3
    case IpProto => 4
    case EthDst => 5
    case EthSrc => 6
    case EthType => 7
    case Vlan => 8
    case Iface => 9
    case MampId => 10
    case EndTime => 11
    case StartTime => 12
    case Port => 13
    case FrameMaxDt => 14
    case FrameNum => 15
  }

  lemma TestAt(t: Test)
    ensures TESTS[Offset(t)] == t
  {
  }

  lemma OffsetAt(k: nat)
    requires k < 16
    ensures Offset(TESTS[k]) == k
  {
  }

  // -- Words and their bits --

  /** Bit `k` of a word. */
  predicate BitAt(w: nat, k: nat)
    decreases k
  {
    if k == 0 then w % 2 == 1 else BitAt(w / 2, k - 1)
  }

  /** 1 << k. */
  function Shifted(k: nat): (w: nat)
    ensures w > 0
  {
    if k == 0 then 1 else 2 * Shifted(k - 1)
  }

  /** The bitwise or of two words. */
  function BitOr(x: nat, y: nat): nat {
    if x == 0 then y else if y == 0 then x else
      2 * BitOr(x / 2, y / 2) + (if x % 2 == 1 || y % 2 == 1 then 1 else 0)
  }

  lemma {:induction false} ZeroBit(k: nat)
    ensures !BitAt(0, k)
  {
    if k > 0 {
      ZeroBit(k - 1);
    }
  }

  lemma {:induction false} OrBit(x: nat, y: nat, k: nat)
    ensures BitAt(BitOr(x, y), k) <==> BitAt(x, k) || BitAt(y, k)
    decreases k
  {
    ZeroBit(k);
    if x != 0 && y != 0 {
      var w := BitOr(x, y);
      assert w / 2 == BitOr(x / 2, y / 2) && (w % 2 == 1 <==> x % 2 == 1 || y % 2 == 1);
      if k > 0 {
        OrBit(x / 2, y / 2, k - 1);
      }
    }
  }

  lemma {:induction false} ShiftedBit(j: nat, k: nat)
    ensures BitAt(Shifted(j), k) <==> j == k
    decreases k
  {
    if j == 0 && k > 0 {
      ZeroBit(k - 1);
    } else if j > 0 {
      assert Shifted(j) / 2 == Shifted(j - 1) && Shifted(j) % 2 == 0;
      if k > 0 {
        ShiftedBit(j - 1, k - 1);
      }
    }
  }

  /** A word is known by its bits. */
  lemma {:induction false} SameBits(x: nat, y: nat)
    requires forall k: nat :: BitAt(x, k) <==> BitAt(y, k)
    ensures x == y
    decreases x + y
  {
    assert BitAt(x, 0) <==> BitAt(y, 0);
    if x + y > 0 {
      forall k: nat ensures BitAt(x / 2, k) <==> BitAt(y / 2, k) {
        assert BitAt(x, k + 1) <==> BitAt(y, k + 1);
      }
      SameBits(x / 2, y / 2);
    }
  }

  ghost predicate NoneFrom(w: nat, n: nat) {
    forall k: nat :: k >= n ==> !BitAt(w, k)
  }

  lemma NoneFromHalf(w: nat, n: nat)
    requires n > 0
    ensures NoneFrom(w, n) <==> NoneFrom(w / 2, n - 1)
  {
    if NoneFrom(w, n) {
      forall k: nat | k >= n - 1 ensures !BitAt(w / 2, k) {
        assert !BitAt(w, k + 1);
      }
    }
    if NoneFrom(w / 2, n - 1) {
      forall k: nat | k >= n ensures !BitAt(w, k) {
        assert !BitAt(w / 2, k - 1);
      }
    }
  }

  /** A word is below 1 << n exactly if it has no bit from n on. */
  lemma {:induction false} BoundBits(w: nat, n: nat)
    ensures w < Shifted(n) <==> NoneFrom(w, n)
    decreases n, w
  {
    if w == 0 {
      forall k: nat ensures !BitAt(w, k) {
        ZeroBit(k);
      }
    } else if n == 0 {
      var k := SomeBit(w);
    } else {
      BoundBits(w / 2, n - 1);
      NoneFromHalf(w, n);
      assert Shifted(n) == 2 * Shifted(n - 1);
    }
  }

  lemma {:induction false} SomeBit(w: nat) returns (k: nat)
    requires w > 0
    ensures BitAt(w, k)
  {
    if w % 2 == 1 {
      k := 0;
    } else {
      var j := SomeBit(w / 2);
      k := j + 1;
    }
  }

  /** A word has only bits of tests exactly if it is below 1 << 16. */
  lemma LowBits(w: nat)
    ensures w < 0x1_0000 <==> NoneFrom(w, 16)
  {
    assert Shifted(4) == 0x10;
    assert Shifted(8) == 0x100;
    assert Shifted(12) == 0x1000;
    BoundBits(w, 16);
  }

  // -- The word of a filter --

  function Mask(t: Test): nat {
    Shifted(Offset(t))
  }

  /** The tests whose bits are set in a word. */
  predicate Has(w: nat, t: Test) {
    BitAt(w, Offset(t))
  }

  /** The results of the tests. */
  type Outcomes = Test -> bool

  /** Each result or-ed in at the offset of its test. */
  function WordOf(o: Outcomes, ts: seq<Test>): nat {
    if ts == [] then 0 else
      var last := ts[|ts| - 1];
      BitOr(WordOf(o, ts[..|ts| - 1]), if o(last) then Mask(last) else 0)
  }

  /** The word filter_core collects. */
  function Word(o: Outcomes): nat {
    WordOf(o, TESTS)
  }

  lemma {:induction false} WordOfBit(o: Outcomes, ts: seq<Test>, k: nat)
    ensures BitAt(WordOf(o, ts), k) <==> exists t :: t in ts && o(t) && Offset(t) == k
  {
    ZeroBit(k);
    if ts != [] {
      var front, last := ts[..|ts| - 1], ts[|ts| - 1];
      WordOfBit(o, front, k);
      OrBit(WordOf(o, front), if o(last) then Mask(last) else 0, k);
      ShiftedBit(Offset(last), k);
      assert ts == front + [last];
    }
  }

  /** Each bit of the word tells the result of its test, and there are no others. */
  lemma {:induction false} WordBit(o: Outcomes, k: nat)
    ensures BitAt(Word(o), k) <==> k < 16 && o(TESTS[k])
  {
    WordOfBit(o, TESTS, k);
    if k < 16 && o(TESTS[k]) {
      OffsetAt(k);
      assert TESTS[k] in TESTS;
    }
    forall t: Test | Offset(t) == k ensures TESTS[k] == t {
      TestAt(t);
    }
  }

  /** A word of sixteen results compared with an index, and with zero. */
  lemma WordCompared(o: Outcomes, w: nat)
    ensures Word(o) == w <==> w < 0x1_0000 && forall t: Test :: o(t) <==> Has(w, t)
    ensures Word(o) > 0 <==> exists t: Test :: o(t)
  {
    forall k: nat ensures BitAt(Word(o), k) <==> k < 16 && o(TESTS[k]) {
      WordBit(o, k);
    }
    WordIs(o, Word(o), w);
    WordIs(o, Word(o), 0);
    forall k: nat ensures !BitAt(0, k) {
      ZeroBit(k);
    }
  }

  lemma WordIs(o: Outcomes, m: nat, w: nat)
    requires forall k: nat :: BitAt(m, k) <==> k < 16 && o(TESTS[k])
    ensures m == w <==> w < 0x1_0000 && forall t: Test :: o(t) <==> Has(w, t)
  {
    LowBits(m);
    LowBits(w);
    forall t: Test ensures o(t) <==> Has(m, t) {
      TestAt(t);
    }
    if w < 0x1_0000 && forall t: Test :: o(t) <==> Has(w, t) {
      forall k: nat ensures BitAt(m, k) <==> BitAt(w, k) {
        if k < 16 {
          OffsetAt(k);
          assert o(TESTS[k]) <==> Has(w, TESTS[k]);
        }
      }
      SameBits(m, w);
    }
  }

  /** Results that repeat the index, for tests that look at their own bit (all but one do) and at
      a condition `h`. */
  lemma RepeatsIndex(o: Outcomes, w: nat, h: Test -> bool)
    requires forall t: Test :: o(t) <==> (t.FrameNum? || Has(w, t)) && h(t)
    ensures Word(o) == w <==>
      w < 0x1_0000 && (forall t: Test :: Has(w, t) ==> h(t)) && (h(FrameNum) ==> Has(w, FrameNum))
  {
    WordCompared(o, w);
  }

  lemma SameOutcomes(o: Outcomes, q: Outcomes)
    requires forall t: Test :: o(t) == q(t)
    ensures Word(o) == Word(q)
  {
    WordCompared(q, Word(q));
    WordCompared(o, Word(q));
  }

  lemma ZeroHasNone(t: Test)
    ensures !Has(0, t)
  {
    ZeroBit(Offset(t));
  }

  lemma OffsetsApart(t: Test, u: Test)
    ensures Offset(t) == Offset(u) <==> t == u
  {
    TestAt(t);
    TestAt(u);
  }

  lemma {:induction false} HasShifted(j: nat, t: Test)
    ensures Has(Shifted(j), t) <==> j == Offset(t)
  {
    var k := Offset(t);
    ShiftedBit(j, k);
  }

  lemma MaskHas(t: Test, u: Test)
    ensures Has(Mask(t), u) <==> t == u
  {
    var j := Offset(t);
    HasShifted(j, u);
    OffsetsApart(t, u);
  }

  lemma MaskLow(t: Test)
    ensures Mask(t) < 0x1_0000
  {
    LowBits(Mask(t));
    forall k: nat | k >= 16 ensures !BitAt(Mask(t), k) {
      ShiftedBit(Offset(t), k);
    }
  }


  /** The values of the flags. */
  lemma MaskValues()
    ensures Mask(DstPort) == 0x1 && Mask(SrcPort) == 0x2 && Mask(IpDst) == 0x4 && Mask(IpSrc) == 0x8
    ensures Mask(IpProto) == 0x10 && Mask(EthDst) == 0x20 && Mask(EthSrc) == 0x40 && Mask(EthType) == 0x80
    ensures Mask(Vlan) == 0x100 && Mask(Iface) == 0x200 && Mask(MampId) == 0x400 && Mask(EndTime) == 0x800
    ensures Mask(StartTime) == 0x1000 && Mask(Port) == 0x2000
    ensures Mask(FrameMaxDt) == 0x4000 && Mask(FrameNum) == 0x8000
  {
    assert Shifted(2) == 0x4 && Shifted(4) == 0x10 && Shifted(6) == 0x40 && Shifted(8) == 0x100;
    assert Shifted(10) == 0x400 && Shifted(12) == 0x1000 && Shifted(14) == 0x4000;
  }
}
