/** Bytes, machine-width integers and the host's little-endian and the network's big-endian
    readings of them. */
module Bytes {

  type byte = x: int | 0 <= x < 0x100
  type u16 = x: int | 0 <= x < 0x1_0000
  type u32 = x: int | 0 <= x < 0x1_0000_0000
  type u64 = x: int | 0 <= x < 0x1_0000_0000_0000_0000

  /** Memory that may be read past the captured bytes: total, so that every read the C code
      makes has a value, and arbitrary, so that no result may rely on that value. */
  type Memory = nat -> byte

  const U32 := 0x1_0000_0000
  const U64 := 0x1_0000_0000_0000_0000

  /** Two memories hold the same bytes below `upto`. */
  ghost predicate Agree(m: Memory, k: Memory, upto: nat) {
    forall i: nat :: i < upto ==> m(i) == k(i)
  }

  function Le32(m: Memory, at: nat): (v: u32) {
    (m(at) as int) + 0x100 * (m(at + 1) as int) + 0x1_0000 * (m(at + 2) as int) + 0x100_0000 * (m(at + 3) as int)
  }

  function Be32(m: Memory, at: nat): (v: u32) {
    0x100_0000 * (m(at) as int) + 0x1_0000 * (m(at + 1) as int) + 0x100 * (m(at + 2) as int) + (m(at + 3) as int)
  }

  function Be16(m: Memory, at: nat): (v: u16) {
    0x100 * m(at) + m(at + 1)
  }

  function Min(a: int, b: int): (m: int) {
    if a < b then a else b
  }

  /** The bitwise and of two numbers. */
  function BitAnd(x: nat, y: nat): nat {
    if x == 0 || y == 0 then 0 else 2 * BitAnd(x / 2, y / 2) + (if x % 2 == 1 && y % 2 == 1 then 1 else 0)
  }

  /** `n` one bits. */
  function Ones(n: nat): nat {
    if n == 0 then 0 else 2 * Ones(n - 1) + 1
  }

  lemma {:induction false} BitAndOnes(n: nat, y: nat)
    requires y <= Ones(n)
    ensures BitAnd(Ones(n), y) == y
  {
    if n > 0 && y > 0 {
      assert Ones(n) / 2 == Ones(n - 1) && Ones(n) % 2 == 1;
      BitAndOnes(n - 1, y / 2);
    }
  }

  lemma Ones16()
    ensures Ones(16) == 0xFFFF
  {
    assert Ones(2) == 3 && Ones(4) == 0xF;
    assert Ones(6) == 0x3F;
    assert Ones(8) == 0xFF;
    assert Ones(10) == 0x3FF;
    assert Ones(12) == 0xFFF;
    assert Ones(14) == 0x3FFF;
  }
}
