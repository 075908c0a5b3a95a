/** A known answer of the test suite in section A.5 of RFC 1321, worked out step by step. */
module Md5KnownAnswer {
  import opened Words
  import opened Md5Spec
  import opened Md5Evaluation

  const x0 := Hex(false, false, false, false)
  const x1 := Hex(false, false, false, true)
  const x2 := Hex(false, false, true, false)
  const x3 := Hex(false, false, true, true)
  const x4 := Hex(false, true, false, false)
  const x5 := Hex(false, true, false, true)
  const x6 := Hex(false, true, true, false)
  const x7 := Hex(false, true, true, true)
  const x8 := Hex(true, false, false, false)
  const x9 := Hex(true, false, false, true)
  const xA := Hex(true, false, true, false)
  const xB := Hex(true, false, true, true)
  const xC := Hex(true, true, false, false)
  const xD := Hex(true, true, false, true)
  const xE := Hex(true, true, true, false)
  const xF := Hex(true, true, true, true)

  /** The padded alphabet, as words. */
  function Alphabet(k: nat): Word
  {
    match k
    case 0 => 0x64636261 case 1 => 0x68676665 case 2 => 0x6c6b6a69 case 3 => 0x706f6e6d
    case 4 => 0x74737271 case 5 => 0x78777675 case 6 => 0x00807a79 case 14 => 0x000000d0 case _ => 0
  }

  ghost predicate IsAlphabet(x: seq<Word>)
  {
    |x| == 16 && forall k | 0 <= k < 16 :: x[k] == Alphabet(k)
  }

  lemma Powers()
    ensures Pow2(4) == 0x10 && Pow2(5) == 0x20 && Pow2(6) == 0x40 && Pow2(7) == 0x80
    ensures Pow2(9) == 0x200 && Pow2(10) == 0x400 && Pow2(11) == 0x800 && Pow2(12) == 0x1000
    ensures Pow2(14) == 0x4000 && Pow2(15) == 0x8000 && Pow2(16) == 0x10000 && Pow2(17) == 0x20000
    ensures Pow2(18) == 0x40000 && Pow2(20) == 0x100000 && Pow2(21) == 0x200000 && Pow2(22) == 0x400000
    ensures Pow2(23) == 0x800000 && Pow2(25) == 0x2000000 && Pow2(26) == 0x4000000 && Pow2(27) == 0x8000000
    ensures Pow2(28) == 0x10000000
  {
  }

  lemma NoStep(round: nat, s: Chain, x: seq<Word>)
    requires |x| == 16
    ensures Steps(round, 0, s, x) == s
  {
  }

  /** The registers: four to start with and then the one that each step writes. */
  const w0 := Bits(x6, x7, x4, x5, x2, x3, x0, x1)
  const w1 := Bits(x1, x0, x3, x2, x5, x4, x7, x6)
  const w2 := Bits(x9, x8, xB, xA, xD, xC, xF, xE)
  const w3 := Bits(xE, xF, xC, xD, xA, xB, x8, x9)
  const w4 := Bits(xD, x6, xD, x1, x1, x7, xA, x6)
  const w5 := Bits(xA, xA, xB, x1, xA, xA, xA, xA)
  const w6 := Bits(x2, x2, x7, xD, x8, xC, xF, x1)
  const w7 := Bits(x4, x5, x0, x3, xB, x8, x1, x2)
  const w8 := Bits(xF, xE, x1, x5, xF, x7, x8, x7)
  const w9 := Bits(xA, x8, x1, x1, xB, x2, x7, x8)
  const w10 := Bits(xB, x7, x1, x1, x2, x2, xF, xC)
  const w11 := Bits(xD, xA, x9, xB, xB, xB, x0, xD)
  const w12 := Bits(xA, xE, x7, x5, x2, x8, x9, x9)
  const w13 := Bits(x2, xB, xB, xE, x7, x5, x7, xF)
  const w14 := Bits(x7, xD, x4, xB, xD, x8, x0, xB)
  const w15 := Bits(x5, x6, xC, xF, xA, x5, xC, xB)
  const w16 := Bits(x1, x7, x5, x4, xA, x3, x1, x6)
  const w17 := Bits(x8, x5, x5, x6, x7, xD, x9, x0)
  const w18 := Bits(x0, x0, xD, xF, x7, x4, xD, x5)
  const w19 := Bits(x6, x0, x8, xD, x6, xB, x7, xE)
  const w20 := Bits(x2, xD, x8, x0, x7, x1, xC, xC)
  const w21 := Bits(x5, xD, xC, xE, xE, x1, x1, x9)
  const w22 := Bits(xE, xD, xF, xE, x7, xE, x4, xB)
  const w23 := Bits(x4, xC, x2, x1, x4, x5, xB, x3)
  const w24 := Bits(x5, x7, x0, xC, x4, x3, xE, x0)
  const w25 := Bits(x9, x7, x7, xE, xF, xD, x2, xA)
  const w26 := Bits(xC, x2, x8, xA, xB, x4, x9, xD)
  const w27 := Bits(xC, x9, xF, x1, x6, x2, xD, x4)
  const w28 := Bits(x2, x5, xB, xF, xA, xE, x3, xB)
  const w29 := Bits(x8, x9, x9, x8, x0, x1, x0, x4)
  const w30 := Bits(xF, x8, xC, x8, x3, x6, x5, xF)
  const w31 := Bits(xE, x6, xD, x3, xB, x3, x9, x8)
  const w32 := Bits(xF, x5, x4, xD, x8, x7, x1, x0)
  const w33 := Bits(x9, x2, x7, xB, x7, x2, xE, x2)
  const w34 := Bits(x2, xE, x6, x9, xA, xF, xC, x7)
  const w35 := Bits(xA, xE, xB, x3, x5, x7, x6, x6)
  const w36 := Bits(xB, x4, xB, xF, x6, x8, x0, xE)
  const w37 := Bits(x4, xC, x8, xF, xF, xA, x8, x0)
  const w38 := Bits(x2, x3, x6, x1, xE, xD, x0, xA)
  const w39 := Bits(x0, x6, xA, x5, xE, x2, x1, x1)
  const w40 := Bits(xB, x9, xC, x0, xC, x7, x3, x3)
  const w41 := Bits(xF, x1, xE, x6, xD, xC, x7, xA)
  const w42 := Bits(x2, x3, xA, x9, x4, x5, x1, xB)
  const w43 := Bits(x8, xD, x4, x1, xB, xF, x9, x9)
  const w44 := Bits(xA, x3, xE, x8, x8, xE, xA, xD)
  const w45 := Bits(x0, x2, xC, x0, xB, x1, x1, xC)
  const w46 := Bits(x6, x6, xF, x6, x4, x6, x8, xD)
  const w47 := Bits(x9, x0, xA, x3, x5, xA, xF, x5)
  const w48 := Bits(xB, x5, xD, x4, x1, xF, x9, xC)
  const w49 := Bits(xA, x0, x4, xB, x4, x9, x0, x4)
  const w50 := Bits(x7, x0, x3, xD, x5, x4, xD, x8)
  const w51 := Bits(x7, x1, xD, x1, x0, x3, x6, x7)
  const w52 := Bits(xF, xC, x3, x2, xD, xD, x6, xE)
  const w53 := Bits(x6, x5, x4, x5, x6, xB, x3, x4)
  const w54 := Bits(xB, x3, x5, x6, x0, x2, xC, xB)
  const w55 := Bits(x3, x3, xE, xD, xB, x1, x9, x7)
  const w56 := Bits(xC, x1, xE, x9, x4, x2, xF, x1)
  const w57 := Bits(xD, x9, xB, xB, x9, x8, x7, xC)
  const w58 := Bits(x2, x3, xA, x6, x8, x0, x4, x8)
  const w59 := Bits(x8, x3, x8, x7, x7, xD, x1, xB)
  const w60 := Bits(x0, x0, x7, x7, xC, x2, x0, x8)
  const w61 := Bits(x8, x4, x7, xF, xC, x2, xE, x7)
  const w62 := Bits(xA, x3, xE, x2, x2, x4, x7, xF)
  const w63 := Bits(x5, xE, x6, xB, xC, x9, x3, x0)
  const w64 := Bits(x7, x0, x8, xE, xD, x9, xC, x2)
  const w65 := Bits(x2, xB, xA, xF, x1, x3, x5, x4)
  const w66 := Bits(xD, x3, x8, xF, x1, xE, x7, xF)
  const w67 := Bits(x1, x1, x1, x6, xE, x6, xD, x8)

  // Two steps at a time, with what each of them computes as literals: its operands, the power of
  // two of its rotation, and the carries and the quotient that the rotation splits off.

  lemma Steps0(x: seq<Word>)
    requires IsAlphabet(x) && Reached(0, 0, x, w0, w3, w2, w1)
    ensures Reached(0, 2, x, w2, w5, w4, w3)
  {
    hide Reached, Pow2;
    Powers();
    assert AuxiliaryBits(0, w3, w2, w1) == Bits(x9, x8, xB, xA, xD, xC, xF, xE);
    assert AuxiliaryBits(0, w4, w3, w2) == Bits(xC, xE, xE, xB, xC, xB, xD, x8);
    hide AuxiliaryBits;
    Worked(0, 0, x, w0, w3, w2, w1, w4,
      0x67452301, 0xefcdab89, 0x98badcfe, 0x64636261, 0xd76aa478, 0xd6d117a6, 0x80, 0x2000000, 2, 0x1d, 0x1ce06d8, 1);
    Worked(0, 1, x, w1, w4, w3, w2, w5,
      0x10325476, 0xd6d117a6, 0xceebcbd8, 0x68676665, 0xe8c7b756, 0xaab1aaaa, 0x1000, 0x100000, 2, 0x304, 0xd3e09, 1);
  }

  lemma Steps2(x: seq<Word>)
    requires IsAlphabet(x) && Reached(0, 2, x, w2, w5, w4, w3)
    ensures Reached(0, 4, x, w4, w7, w6, w5)
  {
    hide Reached, Pow2;
    Powers();
    assert AuxiliaryBits(0, w5, w4, w3) == Bits(xC, x7, xD, xD, x0, x3, xA, x3);
    assert AuxiliaryBits(0, w6, w5, w4) == Bits(xF, x6, xB, x1, x9, xB, xA, x6);
    hide AuxiliaryBits;
    Worked(0, 2, x, w2, w5, w4, w3, w6,
      0x98badcfe, 0xaab1aaaa, 0xc7dd03a3, 0x6c6b6a69, 0x242070db, 0x227d8cf1, 0x20000, 0x8000, 1, 0x1e247, 0x3be5, 1);
    Worked(0, 3, x, w3, w6, w5, w4, w7,
      0xefcdab89, 0x227d8cf1, 0xf6b19ba6, 0x706f6e6d, 0xc1bdceee, 0x4503b812, 0x400000, 0x400, 3, 0x62b21, 0x8a, 0);
  }

  lemma Steps4(x: seq<Word>)
    requires IsAlphabet(x) && Reached(0, 4, x, w4, w7, w6, w5)
    ensures Reached(0, 6, x, w6, w9, w8, w7)
  {
    hide Reached, Pow2;
    Powers();
    assert AuxiliaryBits(0, w7, w6, w5) == Bits(xA, xA, xB, x1, x8, xA, xB, x8);
    assert AuxiliaryBits(0, w8, w7, w6) == Bits(x4, x4, x6, x9, xB, x8, x7, x2);
    hide AuxiliaryBits;
    Worked(0, 4, x, w4, w7, w6, w5, w8,
      0xd6d117a6, 0x4503b812, 0xaab18ab8, 0x74737271, 0xf57c0faf, 0xfe15f787, 0x80, 0x2000000, 2, 0x75, 0x172247e, 0);
    Worked(0, 5, x, w5, w8, w7, w6, w9,
      0xaab1aaaa, 0xfe15f787, 0x4469b872, 0x78777675, 0x4787c62a, 0xa811b278, 0x1000, 0x100000, 1, 0xaf1, 0xa9fbb, 1);
  }

  lemma Steps6(x: seq<Word>)
    requires IsAlphabet(x) && Reached(0, 6, x, w6, w9, w8, w7)
    ensures Reached(0, 8, x, w8, w11, w10, w9)
  {
    hide Reached, Pow2;
    Powers();
    assert AuxiliaryBits(0, w9, w8, w7) == Bits(xE, xD, x1, x3, xB, xA, x0, x2);
    assert AuxiliaryBits(0, w10, w9, w8) == Bits(xE, x8, x1, x5, xF, x7, x7, xB);
    hide AuxiliaryBits;
    Worked(0, 6, x, w6, w9, w8, w7, w10,
      0x227d8cf1, 0xa811b278, 0xed13ba02, 0x807a79, 0xa8304613, 0xb71122fc, 0x20000, 0x8000, 1, 0x17084, 0x77f, 0);
    Worked(0, 7, x, w7, w10, w9, w8, w11,
      0x4503b812, 0xb71122fc, 0xe815f77b, 0x0, 0xfd469501, 0xda9bbb0d, 0x400000, 0x400, 2, 0xa9811, 0x8e, 0);
  }

  lemma Steps8(x: seq<Word>)
    requires IsAlphabet(x) && Reached(0, 8, x, w8, w11, w10, w9)
    ensures Reached(0, 10, x, w10, w13, w12, w11)
  {
    hide Reached, Pow2;
    Powers();
    assert AuxiliaryBits(0, w11, w10, w9) == Bits(xB, x2, x1, x1, x2, x2, x7, xC);
    assert AuxiliaryBits(0, w12, w11, w10) == Bits(x9, xB, x1, x1, x2, xA, x6, xD);
    hide AuxiliaryBits;
    Worked(0, 8, x, w8, w11, w10, w9, w12,
      0xfe15f787, 0xda9bbb0d, 0xb211227c, 0x0, 0x698098d8, 0xae752899, 0x80, 0x2000000, 2, 0xc, 0x1a7b2db, 1);
    Worked(0, 9, x, w9, w12, w11, w10, w13,
      0xa811b278, 0xae752899, 0x9b112a6d, 0x0, 0x8b44f7af, 0x2bbe757f, 0x1000, 0x100000, 1, 0xce6, 0x7d494, 1);
  }

  lemma Steps10(x: seq<Word>)
    requires IsAlphabet(x) && Reached(0, 10, x, w10, w13, w12, w11)
    ensures Reached(0, 12, x, w12, w15, w14, w13)
  {
    hide Reached, Pow2;
    Powers();
    assert AuxiliaryBits(0, w13, w12, w11) == Bits(xF, xA, x3, x5, xA, xA, x1, x9);
    assert AuxiliaryBits(0, w14, w13, w12) == Bits(xA, xB, x3, xE, x7, x0, x9, xB);
    hide AuxiliaryBits;
    Worked(0, 10, x, w10, w13, w12, w11, w14,
      0xb71122fc, 0x2bbe757f, 0xfa35aa19, 0x0, 0xffff5bb1, 0x7d4bd80b, 0x20000, 0x8000, 2, 0x1628c, 0x28c6, 0);
    Worked(0, 11, x, w11, w14, w13, w12, w15,
      0xda9bbb0d, 0x7d4bd80b, 0xab3e709b, 0x0, 0x895cd7be, 0x56cfa5cb, 0x400000, 0x400, 2, 0x3cdc0, 0x366, 1);
  }

  lemma Steps12(x: seq<Word>)
    requires IsAlphabet(x) && Reached(0, 12, x, w12, w15, w14, w13)
    ensures Reached(0, 14, x, w14, w17, w16, w15)
  {
    hide Reached, Pow2;
    Powers();
    assert AuxiliaryBits(0, w15, w14, w13) == Bits(x7, xD, x7, xB, xD, x0, x3, xF);
    assert AuxiliaryBits(0, w16, w15, w14) == Bits(x7, xE, x4, xF, xF, x9, x0, xB);
    hide AuxiliaryBits;
    Worked(0, 12, x, w12, w15, w14, w13, w16,
      0xae752899, 0x56cfa5cb, 0x7d7bd03f, 0x0, 0x6b901122, 0x1754a316, 0x80, 0x2000000, 1, 0x4b, 0x18109fa, 1);
    Worked(0, 13, x, w13, w16, w15, w14, w17,
      0x2bbe757f, 0x1754a316, 0x7e4ff90b, 0x0, 0xfd987193, 0x85567d90, 0x1000, 0x100000, 1, 0xa7a, 0x6e01d, 0);
  }

  lemma Steps14(x: seq<Word>)
    requires IsAlphabet(x) && Reached(0, 14, x, w14, w17, w16, w15)
    ensures Reached(0, 16, x, w16, w19, w18, w17)
  {
    hide Reached, Pow2;
    Powers();
    assert AuxiliaryBits(0, w17, w16, w15) == Bits(x5, x7, xD, xD, xA, x1, x5, xB);
    assert AuxiliaryBits(0, w18, w17, w16) == Bits(x1, x7, x5, x6, xF, x7, x9, x2);
    hide AuxiliaryBits;
    Worked(0, 14, x, w14, w17, w16, w15, w18,
      0x7d4bd80b, 0x85567d90, 0x57dda15b, 0xd0, 0xa679438e, 0xdf74d5, 0x20000, 0x8000, 1, 0xf745, 0x3dc4, 1);
    Worked(0, 15, x, w15, w18, w17, w16, w19,
      0x56cfa5cb, 0xdf74d5, 0x1756f792, 0x0, 0x49b40821, 0x608d6b7e, 0x400000, 0x400, 0, 0x2df6a9, 0x17e, 0);
  }

  lemma Steps16(x: seq<Word>)
    requires IsAlphabet(x) && Reached(1, 0, x, w16, w19, w18, w17)
    ensures Reached(1, 2, x, w18, w21, w20, w19)
  {
    hide Reached, Pow2;
    Powers();
    assert AuxiliaryBits(1, w19, w18, w17) == Bits(x0, x0, x8, xD, x6, x9, x5, x5);
    assert AuxiliaryBits(1, w20, w19, w18) == Bits(x6, x0, x8, x0, x7, xB, xE, xE);
    hide AuxiliaryBits;
    Worked(1, 0, x, w16, w19, w18, w17, w20,
      0x1754a316, 0x608d6b7e, 0x8d6955, 0x68676665, 0xf61e2562, 0x2d8071cc, 0x20, 0x8000000, 1, 0xe, 0x6679832, 1);
    Worked(1, 1, x, w17, w20, w19, w18, w21,
      0x85567d90, 0x2d8071cc, 0x60807bee, 0x807a79, 0xc040b340, 0x5dcee119, 0x200, 0x800000, 1, 0x14d, 0x182737, 0);
  }

  lemma Steps18(x: seq<Word>)
    requires IsAlphabet(x) && Reached(1, 2, x, w18, w21, w20, w19)
    ensures Reached(1, 4, x, w20, w23, w22, w21)
  {
    hide Reached, Pow2;
    Powers();
    assert AuxiliaryBits(1, w21, w20, w19) == Bits(x4, xD, x8, xC, x7, x1, x9, x8);
    assert AuxiliaryBits(1, w22, w21, w20) == Bits(x7, xD, xC, xE, xF, x0, x5, x9);
    hide AuxiliaryBits;
    Worked(1, 2, x, w18, w21, w20, w19, w22,
      0xdf74d5, 0x5dcee119, 0x4d8c7198, 0x0, 0x265e5a51, 0xedfe7e4b, 0x4000, 0x40000, 0, 0x1d32, 0x240be, 0);
    Worked(1, 3, x, w19, w22, w21, w20, w23,
      0x608d6b7e, 0xedfe7e4b, 0x7dcef059, 0x64636261, 0xe9b6c7aa, 0x4c2145b3, 0x100000, 0x1000, 2, 0x2c768, 0x5e2, 1);
  }

  lemma Steps20(x: seq<Word>)
    requires IsAlphabet(x) && Reached(1, 4, x, w20, w23, w22, w21)
    ensures Reached(1, 6, x, w22, w25, w24, w23)
  {
    hide Reached, Pow2;
    Powers();
    assert AuxiliaryBits(1, w23, w22, w21) == Bits(xE, xC, x3, x0, x5, xF, x5, x3);
    assert AuxiliaryBits(1, w24, w23, w22) == Bits(x4, x5, x0, xD, x4, x3, xF, x0);
    hide AuxiliaryBits;
    Worked(1, 4, x, w20, w23, w22, w21, w24,
      0x2d8071cc, 0x4c2145b3, 0xec305f53, 0x78777675, 0xd62f105d, 0x570c43e0, 0x20, 0x8000000, 2, 0xd, 0x5757f1, 0);
    Worked(1, 5, x, w21, w24, w23, w22, w25,
      0x5dcee119, 0x570c43e0, 0x450d43f0, 0x0, 0x2441453, 0x977efd2a, 0x200, 0x800000, 0, 0x14a, 0x20395c, 0);
  }

  lemma Steps22(x: seq<Word>)
    requires IsAlphabet(x) && Reached(1, 6, x, w22, w25, w24, w23)
    ensures Reached(1, 8, x, w24, w27, w26, w25)
  {
    hide Reached, Pow2;
    Powers();
    assert AuxiliaryBits(1, w25, w24, w23) == Bits(x1, x7, x2, xC, x4, x7, x6, x2);
    assert AuxiliaryBits(1, w26, w25, w24) == Bits(xC, x2, x7, xA, xB, xC, x8, xA);
    hide AuxiliaryBits;
    Worked(1, 6, x, w22, w25, w24, w23, w26,
      0xedfe7e4b, 0x977efd2a, 0x172c4762, 0x0, 0xd8a1e681, 0xc28ab49d, 0x4000, 0x40000, 1, 0x3773, 0xac2e, 0);
    Worked(1, 7, x, w23, w26, w25, w24, w27,
      0x4c2145b3, 0xc28ab49d, 0xc27abc8a, 0x74737271, 0xe7d3fbc8, 0xc9f162d4, 0x100000, 0x1000, 2, 0x6ae37, 0x76, 0);
  }

  lemma Steps24(x: seq<Word>)
    requires IsAlphabet(x) && Reached(1, 8, x, w24, w27, w26, w25)
    ensures Reached(1, 10, x, w26, w29, w28, w27)
  {
    hide Reached, Pow2;
    Powers();
    assert AuxiliaryBits(1, w27, w26, w25) == Bits(xC, x1, xF, x0, x6, x0, x9, x5);
    assert AuxiliaryBits(1, w28, w27, w26) == Bits(x0, x9, xF, xB, xE, x6, x5, x9);
    hide AuxiliaryBits;
    Worked(1, 8, x, w24, w27, w26, w25, w28,
      0x570c43e0, 0xc9f162d4, 0xc1f06095, 0x0, 0x21e1cde6, 0x25bfae3b, 0x20, 0x8000000, 1, 0x7, 0x2de725b, 1);
    Worked(1, 9, x, w25, w28, w27, w26, w29,
      0x977efd2a, 0x25bfae3b, 0x9fbe659, 0xd0, 0xc33707d6, 0x89980104, 0x200, 0x800000, 1, 0xc9, 0x31ec29, 0);
  }

  lemma Steps26(x: seq<Word>)
    requires IsAlphabet(x) && Reached(1, 10, x, w26, w29, w28, w27)
    ensures Reached(1, 12, x, w28, w31, w30, w29)
  {
    hide Reached, Pow2;
    Powers();
    assert AuxiliaryBits(1, w29, w28, w27) == Bits(xA, xD, x9, xE, x8, xC, x2, xF);
    assert AuxiliaryBits(1, w30, w29, w28) == Bits(xA, x8, x8, x8, x2, x7, x1, xF);
    hide AuxiliaryBits;
    Worked(1, 10, x, w26, w29, w28, w27, w30,
      0xc28ab49d, 0x89980104, 0xad9e8c2f, 0x706f6e6d, 0xf4d50d87, 0xf8c8365f, 0x4000, 0x40000, 2, 0x355b, 0x1bcc0, 0);
    Worked(1, 11, x, w27, w30, w29, w28, w31,
      0xc9f162d4, 0xf8c8365f, 0xa888271f, 0x0, 0x455a14ed, 0xe6d3b398, 0x100000, 0x1000, 1, 0xb7d39, 0xee0, 1);
  }

  lemma Steps28(x: seq<Word>)
    requires IsAlphabet(x) && Reached(1, 12, x, w28, w31, w30, w29)
    ensures Reached(1, 14, x, w30, w33, w32, w31)
  {
    hide Reached, Pow2;
    Powers();
    assert AuxiliaryBits(1, w31, w30, w29) == Bits(xF, x0, xD, x0, x3, x7, x5, xB);
    assert AuxiliaryBits(1, w32, w31, w30) == Bits(xF, x6, x5, xB, x8, x7, x9, x0);
    hide AuxiliaryBits;
    Worked(1, 12, x, w28, w31, w30, w29, w32,
      0x25bfae3b, 0xe6d3b398, 0xf0d0375b, 0x0, 0xa9e3e905, 0xf54d8710, 0x20, 0x8000000, 1, 0x18, 0x73ce9b, 0);
    Worked(1, 13, x, w29, w32, w31, w30, w33,
      0x89980104, 0xf54d8710, 0xf65b8790, 0x6c6b6a69, 0xfcefa3f8, 0x927b72e2, 0x200, 0x800000, 2, 0x1d2, 0x4e96f5, 1);
  }

  lemma Steps30(x: seq<Word>)
    requires IsAlphabet(x) && Reached(1, 14, x, w30, w33, w32, w31)
    ensures Reached(1, 16, x, w32, w35, w34, w33)
  {
    hide Reached, Pow2;
    Powers();
    assert AuxiliaryBits(1, w33, w32, w31) == Bits(x9, x3, x5, xF, x3, x6, x8, x0);
    assert AuxiliaryBits(1, w34, w33, w32) == Bits(x2, x6, x7, xB, xF, x7, xE, x2);
    hide AuxiliaryBits;
    Worked(1, 14, x, w30, w33, w32, w31, w34,
      0xf8c8365f, 0x927b72e2, 0x935f3680, 0x0, 0x676f02d9, 0x2e69afc7, 0x4000, 0x40000, 1, 0x3ce5, 0x26fb8, 1);
    Worked(1, 15, x, w31, w34, w33, w32, w35,
      0xe6d3b398, 0x2e69afc7, 0x267bf7e2, 0x0, 0x8d2a4c8a, 0xaeb35766, 0x100000, 0x1000, 1, 0x9a79f, 0x804, 0);
  }

  lemma Steps32(x: seq<Word>)
    requires IsAlphabet(x) && Reached(2, 0, x, w32, w35, w34, w33)
    ensures Reached(2, 2, x, w34, w37, w36, w35)
  {
    hide Reached, Pow2;
    Powers();
    assert AuxiliaryBits(2, w35, w34, w33) == Bits(x1, x2, xA, x1, x8, xA, x4, x3);
    assert AuxiliaryBits(2, w36, w35, w34) == Bits(x3, x4, x6, x5, x9, x0, xA, xF);
    hide AuxiliaryBits;
    Worked(2, 0, x, w32, w35, w34, w33, w36,
      0xf54d8710, 0xaeb35766, 0x12a18a43, 0x78777675, 0xfffa3942, 0xb4bf680e, 0x10, 0x10000000, 2, 0x8, 0x60c10a, 0);
    Worked(2, 1, x, w33, w36, w35, w34, w37,
      0x927b72e2, 0xb4bf680e, 0x346590af, 0x0, 0x8771f681, 0x4c8ffa80, 0x800, 0x200000, 1, 0x272, 0x12fa12, 1);
  }

  lemma Steps34(x: seq<Word>)
    requires IsAlphabet(x) && Reached(2, 2, x, w34, w37, w36, w35)
    ensures Reached(2, 4, x, w36, w39, w38, w37)
  {
    hide Reached, Pow2;
    Powers();
    assert AuxiliaryBits(2, w37, w36, w35) == Bits(x5, x6, x8, x3, xC, x5, xE, x8);
    assert AuxiliaryBits(2, w38, w37, w36) == Bits(xD, xB, x5, x1, x7, xF, x8, x4);
    hide AuxiliaryBits;
    Worked(2, 2, x, w34, w37, w36, w35, w38,
      0x2e69afc7, 0x4c8ffa80, 0x5683c5e8, 0x0, 0x6d9d6122, 0x2361ed0a, 0x10000, 0x10000, 0, 0xf28a, 0xd6d1, 1);
    Worked(2, 3, x, w35, w38, w37, w36, w39,
      0xaeb35766, 0x2361ed0a, 0xdb517f84, 0xd0, 0xfde5380c, 0x6a5e211, 0x800000, 0x200, 2, 0x43f507, 0x1c6, 1);
  }

  lemma Steps36(x: seq<Word>)
    requires IsAlphabet(x) && Reached(2, 4, x, w36, w39, w38, w37)
    ensures Reached(2, 6, x, w38, w41, w40, w39)
  {
    hide Reached, Pow2;
    Powers();
    assert AuxiliaryBits(2, w39, w38, w37) == Bits(x6, x9, x4, xB, xF, x5, x9, xB);
    assert AuxiliaryBits(2, w40, w39, w38) == Bits(x9, xC, x0, x4, xC, x8, x2, x8);
    hide AuxiliaryBits;
    Worked(2, 4, x, w36, w39, w38, w37, w40,
      0xb4bf680e, 0x6a5e211, 0x694bf59b, 0x68676665, 0xa4beea44, 0xb9c0c733, 0x10, 0x10000000, 2, 0x2, 0xb31ae52, 0);
    Worked(2, 5, x, w37, w40, w39, w38, w41,
      0x4c8ffa80, 0xb9c0c733, 0x9c04c828, 0x74737271, 0x4bdecfa9, 0xf1e6dc7a, 0x800, 0x200000, 1, 0x547, 0x704c2, 0);
  }

  lemma Steps38(x: seq<Word>)
    requires IsAlphabet(x) && Reached(2, 6, x, w38, w41, w40, w39)
    ensures Reached(2, 8, x, w40, w43, w42, w41)
  {
    hide Reached, Pow2;
    Powers();
    assert AuxiliaryBits(2, w41, w40, w39) == Bits(x4, xE, x8, x3, xF, x9, x5, x8);
    assert AuxiliaryBits(2, w42, w41, w40) == Bits(x6, xB, x8, xF, x5, xE, x5, x2);
    hide AuxiliaryBits;
    Worked(2, 6, x, w38, w41, w40, w39, w42,
      0x2361ed0a, 0xf1e6dc7a, 0x4e83f958, 0x0, 0xf6bb4b60, 0x23a9451b, 0x10000, 0x10000, 1, 0x68a1, 0x31c2, 1);
    Worked(2, 7, x, w39, w42, w41, w40, w43,
      0x6a5e211, 0x23a9451b, 0x6b8f5e52, 0x0, 0xbebfbc70, 0x8d41bf99, 0x800000, 0x200, 1, 0x187a7e, 0xd3, 0);
  }

  lemma Steps40(x: seq<Word>)
    requires IsAlphabet(x) && Reached(2, 8, x, w40, w43, w42, w41)
    ensures Reached(2, 10, x, w42, w45, w44, w43)
  {
    hide Reached, Pow2;
    Powers();
    assert AuxiliaryBits(2, w43, w42, w41) == Bits(x5, xF, x0, xE, x2, x6, xF, x8);
    assert AuxiliaryBits(2, w44, w43, w42) == Bits(x0, xD, x0, x0, x7, x4, x2, xF);
    hide AuxiliaryBits;
    Worked(2, 8, x, w40, w43, w42, w41, w44,
      0xb9c0c733, 0x8d41bf99, 0x5f0e26f8, 0x0, 0x289b7ec6, 0xa3e88ead, 0x10, 0x10000000, 1, 0x4, 0x16a6cf1, 0);
    Worked(2, 9, x, w41, w44, w43, w42, w45,
      0xf1e6dc7a, 0xa3e88ead, 0xd00742f, 0x64636261, 0xeaa127fa, 0x2c0b11c, 0x800, 0x200000, 2, 0x26f, 0xbdb04, 1);
  }

  lemma Steps42(x: seq<Word>)
    requires IsAlphabet(x) && Reached(2, 10, x, w42, w45, w44, w43)
    ensures Reached(2, 12, x, w44, w47, w46, w45)
  {
    hide Reached, Pow2;
    Powers();
    assert AuxiliaryBits(2, w45, w44, w43) == Bits(x2, xC, x6, x9, x8, x0, x2, x8);
    assert AuxiliaryBits(2, w46, w45, w44) == Bits(xC, x7, xD, xE, x7, x9, x3, xC);
    hide AuxiliaryBits;
    Worked(2, 10, x, w42, w45, w44, w43, w46,
      0x23a9451b, 0x2c0b11c, 0x2c698028, 0x706f6e6d, 0xd4ef3085, 0x66f6468d, 0x10000, 0x10000, 1, 0x9571, 0x6435, 0);
    Worked(2, 11, x, w43, w46, w45, w44, w47,
      0x8d41bf99, 0x66f6468d, 0xc7de793c, 0x807a79, 0x4881d05, 0x90a35af5, 0x800000, 0x200, 1, 0x2d1468, 0x53, 0);
  }

  lemma Steps44(x: seq<Word>)
    requires IsAlphabet(x) && Reached(2, 12, x, w44, w47, w46, w45)
    ensures Reached(2, 14, x, w46, w49, w48, w47)
  {
    hide Reached, Pow2;
    Powers();
    assert AuxiliaryBits(2, w47, w46, w45) == Bits(xF, x4, x9, x5, xA, xD, x6, x4);
    assert AuxiliaryBits(2, w48, w47, w46) == Bits(x4, x3, x8, x1, x0, x3, xE, x4);
    hide AuxiliaryBits;
    Worked(2, 12, x, w44, w47, w46, w45, w48,
      0xa3e88ead, 0x90a35af5, 0xf495ad64, 0x0, 0xd9d4d039, 0xb5d41f9c, 0x10, 0x10000000, 2, 0x7, 0x2530c4a, 0);
    Worked(2, 13, x, w45, w48, w47, w46, w49,
      0x2c0b11c, 0xb5d41f9c, 0x438103e4, 0x0, 0xe6db99e5, 0xa04b4904, 0x800, 0x200000, 1, 0x168, 0x1d4ee5, 1);
  }

  lemma Steps46(x: seq<Word>)
    requires IsAlphabet(x) && Reached(2, 14, x, w46, w49, w48, w47)
    ensures Reached(2, 16, x, w48, w51, w50, w49)
  {
    hide Reached, Pow2;
    Powers();
    assert AuxiliaryBits(2, w49, w48, w47) == Bits(x8, x5, x3, xC, x0, xC, x6, xD);
    assert AuxiliaryBits(2, w50, w49, w48) == Bits(x6, x5, xA, x2, x0, x2, x4, x0);
    hide AuxiliaryBits;
    Worked(2, 14, x, w46, w49, w48, w47, w50,
      0x66f6468d, 0xa04b4904, 0x853c0c6d, 0x0, 0x1fa27cf8, 0x703d54d8, 0x10000, 0x10000, 1, 0xbd4, 0xcff2, 1);
    Worked(2, 15, x, w47, w50, w49, w48, w51,
      0x90a35af5, 0x703d54d8, 0x65a20240, 0x6c6b6a69, 0xc4ac5665, 0x71d10367, 0x800000, 0x200, 2, 0x13ae8f, 0x3, 0);
  }

  lemma Steps48(x: seq<Word>)
    requires IsAlphabet(x) && Reached(3, 0, x, w48, w51, w50, w49)
    ensures Reached(3, 2, x, w50, w53, w52, w51)
  {
    hide Reached, Pow2;
    Powers();
    assert AuxiliaryBits(3, w51, w50, w49) == Bits(x0, xF, xC, x8, xE, x3, x2, x7);
    assert AuxiliaryBits(3, w52, w51, w50) == Bits(x8, xE, x2, x3, xF, xC, x0, x8);
    hide AuxiliaryBits;
    Worked(3, 0, x, w48, w51, w50, w49, w52,
      0xb5d41f9c, 0x71d10367, 0xfc8e327, 0x64636261, 0xf4292244, 0xfc32dd6e, 0x40, 0x4000000, 2, 0x7, 0x2298768, 0);
    Worked(3, 1, x, w49, w52, w51, w50, w53,
      0xa04b4904, 0xfc32dd6e, 0x8e23fc08, 0x0, 0x432aff97, 0x65456b34, 0x400, 0x400000, 1, 0x1c6, 0x1a44a3, 1);
  }

  lemma Steps50(x: seq<Word>)
    requires IsAlphabet(x) && Reached(3, 2, x, w50, w53, w52, w51)
    ensures Reached(3, 4, x, w52, w55, w54, w53)
  {
    hide Reached, Pow2;
    Powers();
    assert AuxiliaryBits(3, w53, w52, w51) == Bits(x1, x3, x5, xD, x2, x2, xD, x2);
    assert AuxiliaryBits(3, w54, w53, w52) == Bits(xD, x6, x9, xA, x4, x9, xE, xF);
    hide AuxiliaryBits;
    Worked(3, 2, x, w50, w53, w52, w51, w54,
      0x703d54d8, 0x65456b34, 0x135d22d2, 0xd0, 0xab9423a7, 0xb35602cb, 0x8000, 0x20000, 1, 0x1797, 0x9c21, 0);
    Worked(3, 3, x, w51, w54, w53, w52, w55,
      0x71d10367, 0xb35602cb, 0xd69a49ef, 0x78777675, 0xfc93a039, 0x33edb197, 0x200000, 0x800, 2, 0x17aecc, 0x404, 1);
  }

  lemma Steps52(x: seq<Word>)
    requires IsAlphabet(x) && Reached(3, 4, x, w52, w55, w54, w53)
    ensures Reached(3, 6, x, w54, w57, w56, w55)
  {
    hide Reached, Pow2;
    Powers();
    assert AuxiliaryBits(3, w55, w54, w53) == Bits(x0, x8, xA, x9, xB, x7, x1, x4);
    assert AuxiliaryBits(3, w56, w55, w54) == Bits(xF, xE, x0, x4, x4, xE, x6, x2);
    hide AuxiliaryBits;
    Worked(3, 4, x, w52, w55, w54, w53, w56,
      0xfc32dd6e, 0x33edb197, 0x8a9b714, 0x0, 0x655b59c3, 0xc1e942f1, 0x40, 0x4000000, 1, 0x1a, 0x237ee45, 0);
    Worked(3, 5, x, w53, w56, w55, w54, w57,
      0x65456b34, 0xc1e942f1, 0xfe044e62, 0x706f6e6d, 0x8f0ccc92, 0xd9bb987c, 0x400, 0x400000, 2, 0x18b, 0x5f495, 0);
  }

  lemma Steps54(x: seq<Word>)
    requires IsAlphabet(x) && Reached(3, 6, x, w54, w57, w56, w55)
    ensures Reached(3, 8, x, w56, w59, w58, w57)
  {
    hide Reached, Pow2;
    Powers();
    assert AuxiliaryBits(3, w57, w56, w55) == Bits(x1, xC, x5, x2, x9, xC, x8, xD);
    assert AuxiliaryBits(3, w58, w57, w56) == Bits(xE, x6, x0, xD, x2, x5, x3, x2);
    hide AuxiliaryBits;
    Worked(3, 6, x, w54, w57, w56, w55, w58,
      0xb35602cb, 0xd9bb987c, 0x1c529c8d, 0x0, 0xffeff47d, 0x23a68048, 0x8000, 0x20000, 1, 0x67cc, 0x93d5, 1);
    Worked(3, 7, x, w55, w58, w57, w56, w59,
      0x33edb197, 0x23a68048, 0xe60d2532, 0x68676665, 0x85845dd1, 0x83877d1b, 0x200000, 0x800, 2, 0xfcd3, 0x2ff, 0);
  }

  lemma Steps56(x: seq<Word>)
    requires IsAlphabet(x) && Reached(3, 8, x, w56, w59, w58, w57)
    ensures Reached(3, 10, x, w58, w61, w60, w59)
  {
    hide Reached, Pow2;
    Powers();
    assert AuxiliaryBits(3, w59, w58, w57) == Bits(x8, x4, x6, x1, xF, xF, xD, x3);
    assert AuxiliaryBits(3, w60, w59, w58) == Bits(x5, xF, xF, x8, x8, x2, xA, x4);
    hide AuxiliaryBits;
    Worked(3, 8, x, w56, w59, w58, w57, w60,
      0xc1e942f1, 0x83877d1b, 0x8461ffd3, 0x0, 0x6fa87e4f, 0x77c208, 0x40, 0x4000000, 1, 0x2d, 0x1f3c113, 1);
    Worked(3, 9, x, w57, w60, w59, w58, w61,
      0xd9bb987c, 0x77c208, 0x5ff882a4, 0x0, 0xfe2ce6e0, 0x847fc2e7, 0x400, 0x400000, 2, 0xdf, 0x210200, 0);
  }

  lemma Steps58(x: seq<Word>)
    requires IsAlphabet(x) && Reached(3, 10, x, w58, w61, w60, w59)
    ensures Reached(3, 12, x, w60, w63, w62, w61)
  {
    hide Reached, Pow2;
    Powers();
    assert AuxiliaryBits(3, w61, w60, w59) == Bits(xF, xC, x0, x8, x0, x0, xE, xF);
    assert AuxiliaryBits(3, w62, w61, w60) == Bits(x7, xB, x9, x5, xF, xF, x1, x8);
    hide AuxiliaryBits;
    Worked(3, 10, x, w58, w61, w60, w59, w62,
      0x23a68048, 0x847fc2e7, 0xfc0800ef, 0x807a79, 0xa3014314, 0xa3e2247f, 0x8000, 0x20000, 1, 0x6198, 0x3ec4, 0);
    Worked(3, 11, x, w59, w62, w61, w60, w63,
      0x83877d1b, 0xa3e2247f, 0x7b95ff18, 0x0, 0x4e0811a1, 0x5e6bc930, 0x200000, 0x800, 1, 0x9a4b1, 0x5d4, 1);
  }

  lemma Steps60(x: seq<Word>)
    requires IsAlphabet(x) && Reached(3, 12, x, w60, w63, w62, w61)
    ensures Reached(3, 14, x, w62, w65, w64, w63)
  {
    hide Reached, Pow2;
    Powers();
    assert AuxiliaryBits(3, w63, w62, w61) == Bits(xD, xC, x0, x9, xD, x9, x4, x7);
    assert AuxiliaryBits(3, w64, w63, w62) == Bits(x2, x2, xF, x4, x1, x2, xF, x2);
    hide AuxiliaryBits;
    Worked(3, 12, x, w60, w63, w62, w61, w64,
      0x77c208, 0x5e6bc930, 0xdc09d947, 0x74737271, 0xf7537e82, 0x708ed9c2, 0x40, 0x4000000, 2, 0x12, 0x488c42, 0);
    Worked(3, 13, x, w61, w64, w63, w62, w65,
      0x847fc2e7, 0x708ed9c2, 0x22f412f2, 0x0, 0xbd3af235, 0x2baf1354, 0x400, 0x400000, 1, 0x192, 0x2ec80e, 1);
  }

  lemma Steps62(x: seq<Word>)
    requires IsAlphabet(x) && Reached(3, 14, x, w62, w65, w64, w63)
    ensures Reached(3, 16, x, w64, w67, w66, w65)
  {
    hide Reached, Pow2;
    Powers();
    assert AuxiliaryBits(3, w65, w64, w63) == Bits(xD, xB, x3, x1, xE, xE, x1, xD);
    assert AuxiliaryBits(3, w66, w65, w64) == Bits(xF, x4, x5, x0, x2, xD, x2, xB);
    hide AuxiliaryBits;
    Worked(3, 14, x, w62, w65, w64, w63, w66,
      0xa3e2247f, 0x2baf1354, 0xdb31ee1d, 0x6c6b6a69, 0x2ad7d2bb, 0xd38f1e7f, 0x8000, 0x20000, 2, 0xb2b, 0x14fc0, 0);
    Worked(3, 15, x, w63, w66, w65, w64, w67,
      0x5e6bc930, 0xd38f1e7f, 0xf4502d2b, 0x0, 0xeb86d391, 0x1116e6d8, 0x200000, 0x800, 2, 0x7c859, 0x1ec, 1);
  }

  /** All four rounds on the padded alphabet. */
  lemma AlphabetRounds(x: seq<Word>)
    requires IsAlphabet(x)
    ensures Rounds(4, INITIAL, x) == ChainOf(w64, w67, w66, w65)
  {
    hide RoundStep, IsAlphabet, Reached, Value;
    Begun(x);
    Steps0(x); Steps2(x); Steps4(x); Steps6(x); Steps8(x); Steps10(x); Steps12(x); Steps14(x);
    NextRound(0, x, w16, w19, w18, w17);
    Steps16(x); Steps18(x); Steps20(x); Steps22(x); Steps24(x); Steps26(x); Steps28(x); Steps30(x);
    NextRound(1, x, w32, w35, w34, w33);
    Steps32(x); Steps34(x); Steps36(x); Steps38(x); Steps40(x); Steps42(x); Steps44(x); Steps46(x);
    NextRound(2, x, w48, w51, w50, w49);
    Steps48(x); Steps50(x); Steps52(x); Steps54(x); Steps56(x); Steps58(x); Steps60(x); Steps62(x);
    NextRound(3, x, w64, w67, w66, w65);
    Ended(x);
  }

  lemma Begun(x: seq<Word>)
    requires IsAlphabet(x)
    ensures Reached(0, 0, x, w0, w3, w2, w1)
  {
  }

  lemma Ended(x: seq<Word>)
    requires Reached(4, 0, x, w64, w67, w66, w65)
    ensures Rounds(4, INITIAL, x) == ChainOf(w64, w67, w66, w65)
  {
    hide Value, Rounds;
  }

  lemma LastWords()
    ensures Value(w64) == 0x708ed9c2 && Value(w65) == 0x2baf1354 && Value(w66) == 0xd38f1e7f && Value(w67) == 0x1116e6d8
  {
  }

  lemma AlphabetTransform(x: seq<Word>)
    requires IsAlphabet(x)
    ensures Transform(INITIAL, x) == Chain(0xd7d3fcc3, 0x00e49261, 0x6c49fb7d, 0x3be167ca)
  {
    hide Rounds, Value, IsAlphabet;
    AlphabetRounds(x);
    LastWords();
  }

  /** The message "abcdefghijklmnopqrstuvwxyz". */
  function Letters(): (m: seq<Byte>)
    ensures |m| == 26 && forall i | 0 <= i < 26 :: m[i] == 0x61 + i
  {
    seq(26, i requires 0 <= i < 26 => 0x61 + i)
  }

  lemma PaddedLetters()
    ensures
      var block := Letters() + Padding(26);
      && |block| == 64
      && (forall i | 0 <= i < 64 ::
            block[i] == if i < 26 then 0x61 + i else if i == 26 then 0x80 else if i == 56 then 0xd0 else 0)
  {
    assert ZeroCount(26) == 29;
    assert StoreLow(LengthLow(26)) == [0xd0, 0, 0, 0] && StoreLow(LengthHigh(26)) == [0, 0, 0, 0];
    assert forall i | 0 <= i < 29 :: Zeros(29)[i] == 0;
  }

  lemma LettersAreAlphabet()
    ensures |Letters() + Padding(26)| == 64 && IsAlphabet(BlockWords(Letters() + Padding(26)))
  {
    hide Letters, Padding;
    PaddedLetters();
    var block := Letters() + Padding(26);
    forall k | 0 <= k < 16
      ensures BlockWords(block)[k] == Alphabet(k)
    {
      assert BlockWords(block)[k] == LoadLow(block[4 * k..4 * k + 4]);
    }
  }

  /** MD5 ("abcdefghijklmnopqrstuvwxyz") = c3fcd3d76192e4007dfb496cca67e13b */
  lemma AlphabetDigest()
    ensures Md5(Letters())
         == [0xc3, 0xfc, 0xd3, 0xd7, 0x61, 0x92, 0xe4, 0x00, 0x7d, 0xfb, 0x49, 0x6c, 0xca, 0x67, 0xe1, 0x3b]
  {
    hide Transform, BlockWords, Padding, Letters, IsAlphabet, DigestBytes, Absorb;
    LettersAreAlphabet();
    var block := Letters() + Padding(26);
    assert [] + block == block;
    AbsorbBlock(INITIAL, [], block);
    NothingAbsorbed();
    AlphabetTransform(BlockWords(block));
    AlphabetBytes();
  }

  lemma NothingAbsorbed()
    ensures Absorb(INITIAL, []) == INITIAL
  {
  }

  lemma AlphabetBytes()
    ensures DigestBytes(Chain(0xd7d3fcc3, 0x00e49261, 0x6c49fb7d, 0x3be167ca))
         == [0xc3, 0xfc, 0xd3, 0xd7, 0x61, 0x92, 0xe4, 0x00, 0x7d, 0xfb, 0x49, 0x6c, 0xca, 0x67, 0xe1, 0x3b]
  {
  }
}
