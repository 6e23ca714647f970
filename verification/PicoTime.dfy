/** Picosecond timestamps (src/picotime.c): a 32-bit second and a 64-bit picosecond field. The C
    code carries with the double constant 1e12; here the same arithmetic is exact, modulo the width
    of the fields. */
module PicoTime {
  import opened Bytes

  const PICODIVIDER := 1_000_000_000_000

  datatype TimePico = TimePico(sec: u32, psec: u64) {
    predicate Normal() {
      psec < PICODIVIDER
    }

    /** The timestamp in picoseconds. */
    function Value(): nat {
      sec * PICODIVIDER + psec
    }
  }

  /** timecmp. */
  function TimeCmp(a: TimePico, b: TimePico): int {
    if a.sec < b.sec then -1
    else if a.sec > b.sec then 1
    else if a.psec < b.psec then -1
    else if a.psec > b.psec then 1
    else 0
  }

  /** On all timestamps the comparison is a total order; on normalised ones it is the order of the
      instants they denote. */
  lemma TimeCmpOrders(a: TimePico, b: TimePico, c: TimePico)
    ensures TimeCmp(a, b) == -TimeCmp(b, a)
    ensures TimeCmp(a, b) == 0 <==> a == b
    ensures TimeCmp(a, b) <= 0 && TimeCmp(b, c) <= 0 ==> TimeCmp(a, c) <= 0
    ensures a.Value() == a.sec * 1_000_000_000_000 + a.psec && (a.Normal() <==> a.psec < 1_000_000_000_000)
    ensures a.Normal() && b.Normal() ==> (TimeCmp(a, b) < 0 <==> a.Value() < b.Value())
    ensures a.Normal() && b.Normal() ==> (TimeCmp(a, b) == 0 <==> a.Value() == b.Value())
  {
  }

  /** timepico_sub. */
  function Sub(x: TimePico, y: TimePico): (r: TimePico) {
    var y1 :=
      if x.psec < y.psec then
        var k := (y.psec - x.psec) / PICODIVIDER + 1;
        TimePico((y.sec + k) % U32, (y.psec - PICODIVIDER * k) % U64)
      else y;
    var diff := (x.psec - y1.psec) % U64;
    var y2 :=
      if diff > PICODIVIDER then
        TimePico((y1.sec - diff / PICODIVIDER) % U32, (y1.psec + PICODIVIDER * (diff / PICODIVIDER)) % U64)
      else y1;
    TimePico((x.sec - y2.sec) % U32, (x.psec - y2.psec) % U64)
  }

  lemma WrapSub32(a: int, b: int)
    ensures (a - b % U32) % U32 == (a - b) % U32
  {
    assert a - b % U32 == a - b + U32 * (b / U32);
    Multiple32(a - b, b / U32);
  }

  lemma Multiple32(v: int, k: int)
    ensures (v + U32 * k) % U32 == v % U32
  {
  }

  /** A small difference survives the wrapping of a negative intermediate result. */
  lemma WrapSub64(a: int, b: int)
    requires 0 <= a - b < U64
    ensures (a - b % U64) % U64 == a - b
  {
    var q := b / U64;
    assert a - b % U64 == a - b + U64 * q;
    assert (a - b + U64 * q) % U64 == (a - b) % U64;
  }

  lemma WholeSeconds(x: u64, y: u64)
    requires x < y
    ensures 0 < x - y + PICODIVIDER * ((y - x) / PICODIVIDER + 1) <= PICODIVIDER
  {
  }

  /** The whole picoseconds taken from or given to the second field. */
  function Borrow(x: u64, y: u64): int {
    if x < y then (y - x) / PICODIVIDER + 1
    else if x - y > PICODIVIDER then -((x - y) / PICODIVIDER)
    else 0
  }

  /** The wrapping steps of the subtraction amount to this. */
  lemma SubFields(x: TimePico, y: TimePico)
    ensures Sub(x, y).psec == x.psec - y.psec + PICODIVIDER * Borrow(x.psec, y.psec)
    ensures Sub(x, y).sec == (x.sec - y.sec - Borrow(x.psec, y.psec)) % U32
    ensures Sub(x, y).psec <= PICODIVIDER
  {
    if x.psec < y.psec {
      SubBorrows(x, y);
    } else {
      SubCarries(x, y);
    }
  }

  lemma SubBorrows(x: TimePico, y: TimePico)
    requires x.psec < y.psec
    ensures Sub(x, y).psec == x.psec - y.psec + PICODIVIDER * Borrow(x.psec, y.psec) <= PICODIVIDER
    ensures Sub(x, y).sec == (x.sec - y.sec - Borrow(x.psec, y.psec)) % U32
  {
    var k := (y.psec - x.psec) / PICODIVIDER + 1;
    WholeSeconds(x.psec, y.psec);
    WrapSub64(x.psec, y.psec - PICODIVIDER * k);
    WrapSub32(x.sec, y.sec + k);
  }

  lemma SubCarries(x: TimePico, y: TimePico)
    requires x.psec >= y.psec
    ensures Sub(x, y).psec == x.psec - y.psec + PICODIVIDER * Borrow(x.psec, y.psec) <= PICODIVIDER
    ensures Sub(x, y).sec == (x.sec - y.sec - Borrow(x.psec, y.psec)) % U32
  {
    var d := x.psec - y.psec;
    Within64(d);
    if d > PICODIVIDER {
      var k := d / PICODIVIDER;
      Within64(y.psec + PICODIVIDER * k);
      Within64(d - PICODIVIDER * k);
      var r := Sub(x, y);
      assert r.psec == d - PICODIVIDER * k;
      assert r.sec == (x.sec - (y.sec - k) % U32) % U32;
      WrapSub32(x.sec, y.sec - k);
    }
  }

  lemma Within64(v: int)
    requires 0 <= v < U64
    ensures v % U64 == v
  {
  }

  /** Subtraction is exact modulo the range of the second field, for all timestamps. */
  lemma SubExact(x: TimePico, y: TimePico)
    ensures exists n: int :: Sub(x, y).Value() == x.Value() - y.Value() + n * (U32 * PICODIVIDER)
    ensures x.Normal() && y.Normal() ==> Sub(x, y).Normal()
    ensures x.Normal() && y.Normal() && TimeCmp(x, y) >= 0 ==> Sub(x, y).Value() == x.Value() - y.Value()
  {
    var n := SubModulo(x, y);
    if x.Normal() && y.Normal() {
      SubNormal(x, y);
    }
  }

  lemma SubModulo(x: TimePico, y: TimePico) returns (n: int)
    ensures Sub(x, y).Value() == x.Value() - y.Value() + n * (U32 * PICODIVIDER)
  {
    SubFields(x, y);
    var v := x.sec - y.sec - Borrow(x.psec, y.psec);
    n := -(v / U32);
    assert Sub(x, y).sec == v + n * U32;
  }

  /** On normalised times at most one second is borrowed. */
  lemma SubNormal(x: TimePico, y: TimePico)
    requires x.Normal() && y.Normal()
    ensures Sub(x, y).Normal()
    ensures TimeCmp(x, y) >= 0 ==> Sub(x, y).Value() == x.Value() - y.Value()
  {
    SubFields(x, y);
    var b := if x.psec < y.psec then 1 else 0;
    assert Borrow(x.psec, y.psec) == b;
    if TimeCmp(x, y) >= 0 {
      Within32(x.sec - y.sec - b);
    }
  }

  lemma Within32(v: int)
    requires 0 <= v < U32
    ensures v % U32 == v
  {
  }

  /** What the addition comes to: whole seconds are carried until at most one is left, so a sum of
      exactly one second of picoseconds stays uncarried. */
  function Add(a: TimePico, b: TimePico): (r: TimePico) {
    var p := (a.psec + b.psec) % U64;
    var k := if p == 0 then 0 else (p - 1) / PICODIVIDER;
    TimePico((a.sec + b.sec + k) % U32, p - PICODIVIDER * k)
  }

  /** timepico_add. */
  method TimePicoAdd(a: TimePico, b: TimePico) returns (r: TimePico)
    ensures r == Add(a, b)
  {
    var sec, psec := (a.sec + b.sec) % U32, (a.psec + b.psec) % U64;
    ghost var p, carried := psec, 0;
    while psec > PICODIVIDER
      invariant psec >= 0 && p == psec + PICODIVIDER * carried
      invariant sec == (a.sec + b.sec + carried) % U32
      invariant carried >= 0 && (carried > 0 ==> psec > 0)
      decreases psec
    {
      Increment32(a.sec + b.sec + carried);
      sec, psec, carried := (sec + 1) % U32, psec - PICODIVIDER, carried + 1;
    }
    Carried(p, carried, psec);
    r := TimePico(sec, psec);
  }

  lemma Increment32(v: int)
    ensures (v % U32 + 1) % U32 == (v + 1) % U32
  {
    assert v % U32 + 1 == v + 1 + U32 * -(v / U32);
    Multiple32(v + 1, -(v / U32));
  }

  lemma Carried(p: nat, c: nat, left: nat)
    requires p == left + PICODIVIDER * c && left <= PICODIVIDER && (c > 0 ==> left > 0)
    ensures c == if p == 0 then 0 else (p - 1) / PICODIVIDER
  {
  }

  /** Addition keeps the value modulo the range of the second field as long as the picoseconds do
      not overflow, which on normalised timestamps they never do. */
  lemma AddExact(a: TimePico, b: TimePico)
    requires a.psec + b.psec < U64
    ensures exists n: int :: Add(a, b).Value() == a.Value() + b.Value() - n * (U32 * PICODIVIDER)
    ensures Add(a, b).psec <= PICODIVIDER
    ensures a.Normal() && b.Normal() ==> (Add(a, b).Normal() <==> a.psec + b.psec != PICODIVIDER)
  {
    var p := a.psec + b.psec;
    var k := if p == 0 then 0 else (p - 1) / PICODIVIDER;
    var v := a.sec + b.sec + k;
    var n := v / U32;
    assert Add(a, b).sec == v - n * U32;
    assert Add(a, b).Value() == a.Value() + b.Value() - n * (U32 * PICODIVIDER);
  }

  /** Subtracting what was added gives back the original, also across the uncarried second. */
  lemma SubUndoesAdd(a: TimePico, b: TimePico)
    requires a.Normal() && b.Normal()
    ensures Sub(Add(a, b), b) == a
  {
    var p := a.psec + b.psec;
    var k := if p > PICODIVIDER then 1 else 0;
    AddNormal(a, b);
    var s := Add(a, b);
    SubFields(s, b);
    assert Borrow(s.psec, b.psec) == k;
    WrapBack32(a.sec, b.sec + k);
  }

  lemma AddNormal(a: TimePico, b: TimePico)
    requires a.Normal() && b.Normal()
    ensures var k := if a.psec + b.psec > PICODIVIDER then 1 else 0;
      Add(a, b) == TimePico((a.sec + (b.sec + k)) % U32, a.psec + b.psec - PICODIVIDER * k)
  {
  }

  lemma WrapBack32(a: u32, b: int)
    ensures ((a + b) % U32 - b) % U32 == a
  {
    var q := (a + b) / U32;
    assert (a + b) % U32 - b == a + U32 * -q;
    Multiple32(a, -q);
  }
}
