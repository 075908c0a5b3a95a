/** Unsigned machine words as bounded integers, with wrap-around and the bit operations
    written out. */
module Words {

  const TWO_32: int := 0x1_0000_0000

  type Byte = b: int | 0 <= b < 256
  type Word = w: int | 0 <= w < TWO_32

  function Add(x: Word, y: Word): Word { (x + y) % TWO_32 }

  lemma AddCommutes(x: Word, y: Word)
    ensures Add(x, y) == Add(y, x)
  {
  }

  lemma AddAssociates(x: Word, y: Word, z: Word)
    ensures Add(Add(x, y), z) == Add(x, Add(y, z))
  {
    var low, high := x + y, y + z;
    assert Add(x, y) == if low < TWO_32 then low else low - TWO_32;
    assert Add(y, z) == if high < TWO_32 then high else high - TWO_32;
  }

  function Pow2(n: nat): (p: nat)
    ensures p >= 1
  {
    if n == 0 then 1 else 2 * Pow2(n - 1)
  }

  lemma Pow2Of32()
    ensures Pow2(32) == TWO_32
  {
    assert Pow2(8) == 256;
    assert Pow2(16) == 65536;
    assert Pow2(24) == 0x100_0000;
  }

  // ----- Bit operations on the low `n` bits, lowest bit first -----

  function BitsAnd(n: nat, x: nat, y: nat): (r: nat)
    ensures r < Pow2(n)
  {
    if n == 0 then 0
    else (if x % 2 == 1 && y % 2 == 1 then 1 else 0) + 2 * BitsAnd(n - 1, x / 2, y / 2)
  }

  function BitsOr(n: nat, x: nat, y: nat): (r: nat)
    ensures r < Pow2(n)
  {
    if n == 0 then 0
    else (if x % 2 == 1 || y % 2 == 1 then 1 else 0) + 2 * BitsOr(n - 1, x / 2, y / 2)
  }

  function BitsXor(n: nat, x: nat, y: nat): (r: nat)
    ensures r < Pow2(n)
  {
    if n == 0 then 0
    else (if x % 2 != y % 2 then 1 else 0) + 2 * BitsXor(n - 1, x / 2, y / 2)
  }

  function BitsNot(n: nat, x: nat): (r: nat)
    ensures r < Pow2(n)
  {
    if n == 0 then 0 else (1 - x % 2) + 2 * BitsNot(n - 1, x / 2)
  }

  function And(x: Word, y: Word): Word { Pow2Of32(); BitsAnd(32, x, y) }
  function Or(x: Word, y: Word): Word { Pow2Of32(); BitsOr(32, x, y) }
  function Xor(x: Word, y: Word): Word { Pow2Of32(); BitsXor(32, x, y) }
  function Not(x: Word): Word { Pow2Of32(); BitsNot(32, x) }

  function ShiftLeft(x: Word, s: nat): Word { (x * Pow2(s)) % TWO_32 }

  function ShiftRight(x: Word, s: nat): Word
  {
    ShrinksByDivision(x, Pow2(s));
    x / Pow2(s)
  }

  lemma ShrinksByDivision(x: nat, p: nat)
    requires p >= 1
    ensures 0 <= x / p <= x
  {
  }

  /** The selection `y` where `x` has a one and `z` where it has a zero, with one
      operation saved. */
  lemma {:induction false} SelectionBySaving(n: nat, x: nat, y: nat, z: nat)
    ensures BitsXor(n, z, BitsAnd(n, x, BitsXor(n, y, z)))
         == BitsOr(n, BitsAnd(n, x, y), BitsAnd(n, BitsNot(n, x), z))
  {
    if n > 0 {
      SelectionBySaving(n - 1, x / 2, y / 2, z / 2);
      var difference := BitsXor(n, y, z);
      assert difference / 2 == BitsXor(n - 1, y / 2, z / 2);
      var masked := BitsAnd(n, x, difference);
      assert masked / 2 == BitsAnd(n - 1, x / 2, difference / 2);
      var complement := BitsNot(n, x);
      assert complement / 2 == BitsNot(n - 1, x / 2);
      var left, right := BitsAnd(n, x, y), BitsAnd(n, complement, z);
      assert left / 2 == BitsAnd(n - 1, x / 2, y / 2);
      assert right / 2 == BitsAnd(n - 1, complement / 2, z / 2);
      assert BitsXor(n, z, masked) == BitsOr(n, left, right);
    }
  }

  lemma {:induction false} BitsAndCommutes(n: nat, x: nat, y: nat)
    ensures BitsAnd(n, x, y) == BitsAnd(n, y, x)
  {
    if n > 0 {
      BitsAndCommutes(n - 1, x / 2, y / 2);
    }
  }
}
