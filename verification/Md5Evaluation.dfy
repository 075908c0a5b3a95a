/** Words as single bits, on which the steps of MD5 can be worked out one by one. */
module Md5Evaluation {
  import opened Words
  import opened Md5Spec

  /** A hexadecimal digit, highest bit first. */
  datatype Hex = Hex(b3: bool, b2: bool, b1: bool, b0: bool)

  /** A word, highest digit first. */
  datatype Bits = Bits(h7: Hex, h6: Hex, h5: Hex, h4: Hex, h3: Hex, h2: Hex, h1: Hex, h0: Hex)

  function Digit(h: Hex): (d: nat)
    ensures d < 16
  {
    (if h.b3 then 8 else 0) + (if h.b2 then 4 else 0) + (if h.b1 then 2 else 0) + (if h.b0 then 1 else 0)
  }

  function Value(w: Bits): Word
  {
    Digit(w.h0) + 0x10 * Digit(w.h1) + 0x100 * Digit(w.h2) + 0x1000 * Digit(w.h3)
    + 0x1_0000 * Digit(w.h4) + 0x10_0000 * Digit(w.h5) + 0x100_0000 * Digit(w.h6) + 0x1000_0000 * Digit(w.h7)
  }

  /** A number with one more bit, or one more digit, at its low end. */
  function Low(b: bool, x: nat): nat { (if b then 1 else 0) + 2 * x }

  function LowDigit(h: Hex, x: nat): nat { Low(h.b0, Low(h.b1, Low(h.b2, Low(h.b3, x)))) }

  function Number(w: Bits): nat
  {
    LowDigit(w.h0, LowDigit(w.h1, LowDigit(w.h2, LowDigit(w.h3,
    LowDigit(w.h4, LowDigit(w.h5, LowDigit(w.h6, LowDigit(w.h7, 0))))))))
  }

  lemma LowDigitIs(h: Hex, x: nat)
    ensures LowDigit(h, x) == Digit(h) + 16 * x
  {
  }

  lemma NumberIsValue(w: Bits)
    ensures Number(w) == Value(w)
  {
    hide LowDigit, Digit;
    var x7 := LowDigit(w.h7, 0);
    var x6 := LowDigit(w.h6, x7);
    var x5 := LowDigit(w.h5, x6);
    var x4 := LowDigit(w.h4, x5);
    var x3 := LowDigit(w.h3, x4);
    var x2 := LowDigit(w.h2, x3);
    var x1 := LowDigit(w.h1, x2);
    LowDigitIs(w.h7, 0);
    LowDigitIs(w.h6, x7);
    LowDigitIs(w.h5, x6);
    LowDigitIs(w.h4, x5);
    LowDigitIs(w.h3, x4);
    LowDigitIs(w.h2, x3);
    LowDigitIs(w.h1, x2);
    LowDigitIs(w.h0, x1);
  }

  // ----- The bit operations -----

  function HexAnd(x: Hex, y: Hex): Hex { Hex(x.b3 && y.b3, x.b2 && y.b2, x.b1 && y.b1, x.b0 && y.b0) }
  function HexOr(x: Hex, y: Hex): Hex { Hex(x.b3 || y.b3, x.b2 || y.b2, x.b1 || y.b1, x.b0 || y.b0) }
  function HexXor(x: Hex, y: Hex): Hex { Hex(x.b3 != y.b3, x.b2 != y.b2, x.b1 != y.b1, x.b0 != y.b0) }
  function HexNot(x: Hex): Hex { Hex(!x.b3, !x.b2, !x.b1, !x.b0) }

  function AndBits(x: Bits, y: Bits): Bits
  {
    Bits(HexAnd(x.h7, y.h7), HexAnd(x.h6, y.h6), HexAnd(x.h5, y.h5), HexAnd(x.h4, y.h4),
         HexAnd(x.h3, y.h3), HexAnd(x.h2, y.h2), HexAnd(x.h1, y.h1), HexAnd(x.h0, y.h0))
  }

  function OrBits(x: Bits, y: Bits): Bits
  {
    Bits(HexOr(x.h7, y.h7), HexOr(x.h6, y.h6), HexOr(x.h5, y.h5), HexOr(x.h4, y.h4),
         HexOr(x.h3, y.h3), HexOr(x.h2, y.h2), HexOr(x.h1, y.h1), HexOr(x.h0, y.h0))
  }

  function XorBits(x: Bits, y: Bits): Bits
  {
    Bits(HexXor(x.h7, y.h7), HexXor(x.h6, y.h6), HexXor(x.h5, y.h5), HexXor(x.h4, y.h4),
         HexXor(x.h3, y.h3), HexXor(x.h2, y.h2), HexXor(x.h1, y.h1), HexXor(x.h0, y.h0))
  }

  function NotBits(x: Bits): Bits
  {
    Bits(HexNot(x.h7), HexNot(x.h6), HexNot(x.h5), HexNot(x.h4),
         HexNot(x.h3), HexNot(x.h2), HexNot(x.h1), HexNot(x.h0))
  }

  lemma NoBits()
    ensures BitsAnd(0, 0, 0) == BitsOr(0, 0, 0) == BitsXor(0, 0, 0) == BitsNot(0, 0) == 0
  {
  }

  lemma AndLow(n: nat, b: bool, c: bool, x: nat, y: nat)
    ensures BitsAnd(n + 1, Low(b, x), Low(c, y)) == Low(b && c, BitsAnd(n, x, y))
  {
    assert Low(b, x) / 2 == x && Low(c, y) / 2 == y;
  }

  lemma AndDigit(n: nat, h: Hex, k: Hex, x: nat, y: nat)
    ensures BitsAnd(n + 4, LowDigit(h, x), LowDigit(k, y)) == LowDigit(HexAnd(h, k), BitsAnd(n, x, y))
  {
    hide BitsAnd, Low;
    var x3, y3 := Low(h.b3, x), Low(k.b3, y);
    var x2, y2 := Low(h.b2, x3), Low(k.b2, y3);
    AndLow(n, h.b3, k.b3, x, y);
    AndLow(n + 1, h.b2, k.b2, x3, y3);
    AndLow(n + 2, h.b1, k.b1, x2, y2);
    AndLow(n + 3, h.b0, k.b0, Low(h.b1, x2), Low(k.b1, y2));
  }

  lemma AndOfBits(x: Bits, y: Bits)
    ensures And(Value(x), Value(y)) == Value(AndBits(x, y))
  {
    hide BitsAnd, LowDigit, HexAnd, Value;
    NumberIsValue(x);
    NumberIsValue(y);
    NumberIsValue(AndBits(x, y));
    var x7, y7 := LowDigit(x.h7, 0), LowDigit(y.h7, 0);
    var x6, y6 := LowDigit(x.h6, x7), LowDigit(y.h6, y7);
    var x5, y5 := LowDigit(x.h5, x6), LowDigit(y.h5, y6);
    var x4, y4 := LowDigit(x.h4, x5), LowDigit(y.h4, y5);
    var x3, y3 := LowDigit(x.h3, x4), LowDigit(y.h3, y4);
    var x2, y2 := LowDigit(x.h2, x3), LowDigit(y.h2, y3);
    NoBits();
    AndDigit(0, x.h7, y.h7, 0, 0);
    AndDigit(4, x.h6, y.h6, x7, y7);
    AndDigit(8, x.h5, y.h5, x6, y6);
    AndDigit(12, x.h4, y.h4, x5, y5);
    AndDigit(16, x.h3, y.h3, x4, y4);
    AndDigit(20, x.h2, y.h2, x3, y3);
    AndDigit(24, x.h1, y.h1, x2, y2);
    AndDigit(28, x.h0, y.h0, LowDigit(x.h1, x2), LowDigit(y.h1, y2));
  }

  lemma OrLow(n: nat, b: bool, c: bool, x: nat, y: nat)
    ensures BitsOr(n + 1, Low(b, x), Low(c, y)) == Low(b || c, BitsOr(n, x, y))
  {
    assert Low(b, x) / 2 == x && Low(c, y) / 2 == y;
  }

  lemma OrDigit(n: nat, h: Hex, k: Hex, x: nat, y: nat)
    ensures BitsOr(n + 4, LowDigit(h, x), LowDigit(k, y)) == LowDigit(HexOr(h, k), BitsOr(n, x, y))
  {
    hide BitsOr, Low;
    var x3, y3 := Low(h.b3, x), Low(k.b3, y);
    var x2, y2 := Low(h.b2, x3), Low(k.b2, y3);
    OrLow(n, h.b3, k.b3, x, y);
    OrLow(n + 1, h.b2, k.b2, x3, y3);
    OrLow(n + 2, h.b1, k.b1, x2, y2);
    OrLow(n + 3, h.b0, k.b0, Low(h.b1, x2), Low(k.b1, y2));
  }

  lemma OrOfBits(x: Bits, y: Bits)
    ensures Or(Value(x), Value(y)) == Value(OrBits(x, y))
  {
    hide BitsOr, LowDigit, HexOr, Value;
    NumberIsValue(x);
    NumberIsValue(y);
    NumberIsValue(OrBits(x, y));
    var x7, y7 := LowDigit(x.h7, 0), LowDigit(y.h7, 0);
    var x6, y6 := LowDigit(x.h6, x7), LowDigit(y.h6, y7);
    var x5, y5 := LowDigit(x.h5, x6), LowDigit(y.h5, y6);
    var x4, y4 := LowDigit(x.h4, x5), LowDigit(y.h4, y5);
    var x3, y3 := LowDigit(x.h3, x4), LowDigit(y.h3, y4);
    var x2, y2 := LowDigit(x.h2, x3), LowDigit(y.h2, y3);
    NoBits();
    OrDigit(0, x.h7, y.h7, 0, 0);
    OrDigit(4, x.h6, y.h6, x7, y7);
    OrDigit(8, x.h5, y.h5, x6, y6);
    OrDigit(12, x.h4, y.h4, x5, y5);
    OrDigit(16, x.h3, y.h3, x4, y4);
    OrDigit(20, x.h2, y.h2, x3, y3);
    OrDigit(24, x.h1, y.h1, x2, y2);
    OrDigit(28, x.h0, y.h0, LowDigit(x.h1, x2), LowDigit(y.h1, y2));
  }

  lemma XorLow(n: nat, b: bool, c: bool, x: nat, y: nat)
    ensures BitsXor(n + 1, Low(b, x), Low(c, y)) == Low(b != c, BitsXor(n, x, y))
  {
    assert Low(b, x) / 2 == x && Low(c, y) / 2 == y;
  }

  lemma XorDigit(n: nat, h: Hex, k: Hex, x: nat, y: nat)
    ensures BitsXor(n + 4, LowDigit(h, x), LowDigit(k, y)) == LowDigit(HexXor(h, k), BitsXor(n, x, y))
  {
    hide BitsXor, Low;
    var x3, y3 := Low(h.b3, x), Low(k.b3, y);
    var x2, y2 := Low(h.b2, x3), Low(k.b2, y3);
    XorLow(n, h.b3, k.b3, x, y);
    XorLow(n + 1, h.b2, k.b2, x3, y3);
    XorLow(n + 2, h.b1, k.b1, x2, y2);
    XorLow(n + 3, h.b0, k.b0, Low(h.b1, x2), Low(k.b1, y2));
  }

  lemma XorOfBits(x: Bits, y: Bits)
    ensures Xor(Value(x), Value(y)) == Value(XorBits(x, y))
  {
    hide BitsXor, LowDigit, HexXor, Value;
    NumberIsValue(x);
    NumberIsValue(y);
    NumberIsValue(XorBits(x, y));
    var x7, y7 := LowDigit(x.h7, 0), LowDigit(y.h7, 0);
    var x6, y6 := LowDigit(x.h6, x7), LowDigit(y.h6, y7);
    var x5, y5 := LowDigit(x.h5, x6), LowDigit(y.h5, y6);
    var x4, y4 := LowDigit(x.h4, x5), LowDigit(y.h4, y5);
    var x3, y3 := LowDigit(x.h3, x4), LowDigit(y.h3, y4);
    var x2, y2 := LowDigit(x.h2, x3), LowDigit(y.h2, y3);
    NoBits();
    XorDigit(0, x.h7, y.h7, 0, 0);
    XorDigit(4, x.h6, y.h6, x7, y7);
    XorDigit(8, x.h5, y.h5, x6, y6);
    XorDigit(12, x.h4, y.h4, x5, y5);
    XorDigit(16, x.h3, y.h3, x4, y4);
    XorDigit(20, x.h2, y.h2, x3, y3);
    XorDigit(24, x.h1, y.h1, x2, y2);
    XorDigit(28, x.h0, y.h0, LowDigit(x.h1, x2), LowDigit(y.h1, y2));
  }

  lemma NotLow(n: nat, b: bool, x: nat)
    ensures BitsNot(n + 1, Low(b, x)) == Low(!b, BitsNot(n, x))
  {
    assert Low(b, x) / 2 == x;
  }

  lemma NotDigit(n: nat, h: Hex, x: nat)
    ensures BitsNot(n + 4, LowDigit(h, x)) == LowDigit(HexNot(h), BitsNot(n, x))
  {
    hide BitsNot, Low;
    var x3 := Low(h.b3, x);
    var x2 := Low(h.b2, x3);
    NotLow(n, h.b3, x);
    NotLow(n + 1, h.b2, x3);
    NotLow(n + 2, h.b1, x2);
    NotLow(n + 3, h.b0, Low(h.b1, x2));
  }

  lemma NotOfBits(x: Bits)
    ensures Not(Value(x)) == Value(NotBits(x))
  {
    hide BitsNot, LowDigit, HexNot, Value;
    NumberIsValue(x);
    NumberIsValue(NotBits(x));
    var x7 := LowDigit(x.h7, 0);
    var x6 := LowDigit(x.h6, x7);
    var x5 := LowDigit(x.h5, x6);
    var x4 := LowDigit(x.h4, x5);
    var x3 := LowDigit(x.h3, x4);
    var x2 := LowDigit(x.h2, x3);
    NoBits();
    NotDigit(0, x.h7, 0);
    NotDigit(4, x.h6, x7);
    NotDigit(8, x.h5, x6);
    NotDigit(12, x.h4, x5);
    NotDigit(16, x.h3, x4);
    NotDigit(20, x.h2, x3);
    NotDigit(24, x.h1, x2);
    NotDigit(28, x.h0, LowDigit(x.h1, x2));
  }

  /** The auxiliary functions. */
  function AuxiliaryBits(round: nat, x: Bits, y: Bits, z: Bits): Bits
  {
    if round == 0 then OrBits(AndBits(x, y), AndBits(NotBits(x), z))
    else if round == 1 then OrBits(AndBits(x, z), AndBits(y, NotBits(z)))
    else if round == 2 then XorBits(XorBits(x, y), z)
    else XorBits(y, OrBits(x, NotBits(z)))
  }

  lemma AuxiliaryOfBits(round: nat, x: Bits, y: Bits, z: Bits)
    ensures Auxiliary(round, Value(x), Value(y), Value(z)) == Value(AuxiliaryBits(round, x, y, z))
  {
    hide And, Or, Xor, Not, Value, AndBits, OrBits, XorBits, NotBits;
    NotOfBits(x);
    NotOfBits(z);
    AndOfBits(x, y);
    AndOfBits(NotBits(x), z);
    OrOfBits(AndBits(x, y), AndBits(NotBits(x), z));
    AndOfBits(x, z);
    AndOfBits(y, NotBits(z));
    OrOfBits(AndBits(x, z), AndBits(y, NotBits(z)));
    XorOfBits(x, y);
    XorOfBits(XorBits(x, y), z);
    OrOfBits(x, NotBits(z));
    XorOfBits(y, OrBits(x, NotBits(z)));
  }

  // ----- Rotation -----

  lemma {:induction false} Pow2Adds(m: nat, n: nat)
    ensures Pow2(m + n) == Pow2(m) * Pow2(n)
  {
    if m > 0 {
      Pow2Adds(m - 1, n);
      assert Pow2(m) * Pow2(n) == 2 * (Pow2(m - 1) * Pow2(n));
    }
  }

  lemma {:induction false} OrNothing(n: nat, h: nat)
    requires h < Pow2(n)
    ensures BitsOr(n, h, 0) == h
  {
    if n > 0 {
      OrNothing(n - 1, h / 2);
    }
  }

  /** Two numbers that share no bit. */
  lemma {:induction false} OrAbove(n: nat, s: nat, h: nat, l: nat)
    requires l < Pow2(s) && h * Pow2(s) + l < Pow2(n)
    ensures BitsOr(n, h * Pow2(s), l) == h * Pow2(s) + l
    decreases s
  {
    if s == 0 {
      OrNothing(n, h);
    } else {
      var half := h * Pow2(s - 1);
      assert h * Pow2(s) == 2 * half;
      if n == 0 {
        assert half == 0 && l == 0;
      } else {
        OrAbove(n - 1, s - 1, h, l / 2);
      }
    }
  }

  lemma Quotient(t: nat, q: nat, p: nat, r: nat)
    requires r < p && t == q * p + r
    ensures t / p == q && t % p == r
  {
    var d := t / p - q;
    assert t == (t / p) * p + t % p;
    assert d * p == r - t % p by { assert (t / p) * p == q * p + d * p; }
    assert d >= 1 ==> d * p >= p;
    assert d <= -1 ==> d * p + p <= 0;
  }

  lemma Shifted(q: nat, p: nat, rest: nat, s: nat, n: nat)
    requires n == p * s && rest < p
    ensures (q * p + rest) * s == q * n + rest * s && rest * s + s <= n
  {
    assert (q * p + rest) * s == q * (p * s) + rest * s;
    assert (rest + 1) * s <= p * s;
  }

  /** The high part of a word comes to its low end. */
  lemma Rotated(t: Word, q: nat, rest: nat, s: nat)
    requires s <= 32 && q < Pow2(s) && rest < Pow2(32 - s) && t == q * Pow2(32 - s) + rest
    ensures rest * Pow2(s) + q < TWO_32
    ensures RotateLeft(t, s) == rest * Pow2(s) + q
  {
    hide Pow2, BitsOr;
    Pow2Of32();
    Pow2Adds(32 - s, s);
    Shifted(q, Pow2(32 - s), rest, Pow2(s), TWO_32);
    var high := rest * Pow2(s);
    Quotient(t * Pow2(s), q, TWO_32, high);
    Quotient(t, q, Pow2(32 - s), rest);
    OrAbove(32, s, rest, q);
  }

  // ----- One step -----

  function ChainOf(a: Bits, b: Bits, c: Bits, d: Bits): Chain
  {
    Chain(Value(a), Value(b), Value(c), Value(d))
  }

  /** The chaining words after the first `i` steps of a round on the block `x` of a message. */
  ghost predicate Reached(round: nat, i: nat, x: seq<Word>, a: Bits, b: Bits, c: Bits, d: Bits)
  {
    i <= 16 && |x| == 16 && Steps(round, i, Rounds(round, INITIAL, x), x) == ChainOf(a, b, c, d)
  }

  /** Step `i` of a round, with everything that goes into it worked out: the sum is q * p' + rest
      with a carry, where p and p' are the powers of the rotation, and `vr` is the new word. */
  lemma Worked(round: nat, i: nat, x: seq<Word>, a: Bits, b: Bits, c: Bits, d: Bits, r: Bits,
               va: Word, vb: Word, vf: Word, vx: Word, vt: Word, vr: Word, p: nat, p': nat,
               carry: nat, q: nat, rest: nat, carry': nat)
    requires i < 16 && Reached(round, i, x, a, b, c, d)
    requires va == Value(a) && vb == Value(b) && vf == Value(AuxiliaryBits(round, b, c, d)) && vr == Value(r)
    requires vx == x[WordIndex(round, i)] && vt == Sine(round, i)
    requires p == Pow2(Rotation(round, i)) && p' == Pow2(32 - Rotation(round, i)) && q < p && rest < p'
    requires va + vf + vx + vt == 0x1_0000_0000 * carry + q * p' + rest
    requires vb + rest * p + q == 0x1_0000_0000 * carry' + vr
    ensures Reached(round, i + 1, x, d, r, b, c)
  {
    hide Value, AuxiliaryBits, RotateLeft, Auxiliary, Sine, Rotation, Pow2, WordIndex, Add, Rounds;
    var s := Rotation(round, i);
    Pow2Of32();
    Pow2Adds(s, 32 - s);
    Bounded(q, p', rest, p);
    AuxiliaryOfBits(round, b, c, d);
    SumOfFour(va, vf, vx, vt);
    Quotient(va + vf + vx + vt, carry, TWO_32, q * p' + rest);
    Rotated(q * p' + rest, q, rest, s);
    Quotient(vb + rest * p + q, carry', TWO_32, vr);
    AddedLast(vb, rest * p + q);
  }

  lemma Bounded(q: nat, p': nat, rest: nat, p: nat)
    requires q < p && rest < p'
    ensures q * p' + rest < p * p'
  {
    assert (q + 1) * p' <= p * p';
  }

  lemma AddedLast(b: Word, t: Word)
    ensures Add(b, t) == (b + t) % TWO_32
  {
  }

  lemma SumOfFour(a: Word, f: Word, x: Word, t: Word)
    ensures Add(Add(Add(a, f), x), t) == (a + f + x + t) % TWO_32
  {
    AddReduced(a + f, x);
    AddReduced(a + f + x, t);
  }

  lemma AddReduced(m: nat, x: Word)
    ensures Add(m % TWO_32, x) == (m + x) % TWO_32
  {
    var s := m % TWO_32 + x;
    var c := if s < TWO_32 then 0 else 1;
    Quotient(m + x, m / TWO_32 + c, TWO_32, s - TWO_32 * c);
  }

  lemma NextRound(round: nat, x: seq<Word>, a: Bits, b: Bits, c: Bits, d: Bits)
    requires Reached(round, 16, x, a, b, c, d)
    ensures Reached(round + 1, 0, x, a, b, c, d)
  {
    hide RoundStep, Value;
  }
}
