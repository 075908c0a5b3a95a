/** The unrolled block transform of base/md5.cc. */
module Md5Transform {
  import opened Words
  import opened Md5Spec

  // The core functions as the code writes them, F1 and F2 with one operation fewer.

  function F1(x: Word, y: Word, z: Word): (r: Word)
    ensures r == F(x, y, z)
  {
    SelectionBySaving(32, x, y, z);
    Xor(z, And(x, Xor(y, z)))
  }

  function F2(x: Word, y: Word, z: Word): (r: Word)
    ensures r == G(x, y, z)
  {
    BitsAndCommutes(32, x, z);
    BitsAndCommutes(32, y, Not(z));
    F1(z, x, y)
  }

  /** MD5STEP as step `i` of a round, on block word `k`: adds into `w`, rotates it, and
      adds `x`. `f` is the value of the core function. In the moving words of the
      specification, the word replaced is the first and becomes the second. */
  method Step(round: nat, i: nat, ghost start: Chain, block: seq<Word>,
              f: Word, w: Word, x: Word, ghost y: Word, ghost z: Word, k: nat, t: Word, s: nat)
    returns (r: Word)
    requires i < 16 && |block| == 16
    requires k == WordIndex(round, i) && t == Sine(round, i) && s == Rotation(round, i)
    requires f == Auxiliary(round, x, y, z)
    requires Chain(w, x, y, z) == Steps(round, i, start, block)
    ensures Chain(z, r, x, y) == Steps(round, i + 1, start, block)
  {
    hide Or, ShiftLeft, ShiftRight, Auxiliary, Sine, Add;
    AddAssociates(f, block[k], t);
    AddAssociates(w, Add(f, block[k]), t);
    AddAssociates(w, f, block[k]);
    r := Add(w, Add(f, Add(block[k], t)));
    r := Or(ShiftLeft(r, s), ShiftRight(r, 32 - s));
    AddCommutes(r, x);
    r := Add(r, x);
  }

  lemma NoStep(round: nat, s: Chain, x: seq<Word>)
    requires |x| == 16
    ensures s == Steps(round, 0, s, x)
  {
  }

  // The sixty-four lines, eight to a method.

  method Round1A(s: Chain, x: seq<Word>) returns (r: Chain)
    requires |x| == 16
    ensures r == Steps(0, 8, s, x)
  {
    hide F, G, H, I, F1, F2, Steps;
    var a, b, c, d := s.a, s.b, s.c, s.d;
    NoStep(0, s, x);
    a := Step(0, 0, s, x, F1(b, c, d), a, b, c, d, 0, 0xd76aa478, 7);
    d := Step(0, 1, s, x, F1(a, b, c), d, a, b, c, 1, 0xe8c7b756, 12);
    c := Step(0, 2, s, x, F1(d, a, b), c, d, a, b, 2, 0x242070db, 17);
    b := Step(0, 3, s, x, F1(c, d, a), b, c, d, a, 3, 0xc1bdceee, 22);
    a := Step(0, 4, s, x, F1(b, c, d), a, b, c, d, 4, 0xf57c0faf, 7);
    d := Step(0, 5, s, x, F1(a, b, c), d, a, b, c, 5, 0x4787c62a, 12);
    c := Step(0, 6, s, x, F1(d, a, b), c, d, a, b, 6, 0xa8304613, 17);
    b := Step(0, 7, s, x, F1(c, d, a), b, c, d, a, 7, 0xfd469501, 22);
    r := Chain(a, b, c, d);
  }

  method Round1B(ghost start: Chain, s: Chain, x: seq<Word>) returns (r: Chain)
    requires |x| == 16
    requires s == Steps(0, 8, start, x)
    ensures r == Steps(0, 16, start, x)
  {
    hide F, G, H, I, F1, F2, Steps;
    var a, b, c, d := s.a, s.b, s.c, s.d;
    a := Step(0, 8, start, x, F1(b, c, d), a, b, c, d, 8, 0x698098d8, 7);
    d := Step(0, 9, start, x, F1(a, b, c), d, a, b, c, 9, 0x8b44f7af, 12);
    c := Step(0, 10, start, x, F1(d, a, b), c, d, a, b, 10, 0xffff5bb1, 17);
    b := Step(0, 11, start, x, F1(c, d, a), b, c, d, a, 11, 0x895cd7be, 22);
    a := Step(0, 12, start, x, F1(b, c, d), a, b, c, d, 12, 0x6b901122, 7);
    d := Step(0, 13, start, x, F1(a, b, c), d, a, b, c, 13, 0xfd987193, 12);
    c := Step(0, 14, start, x, F1(d, a, b), c, d, a, b, 14, 0xa679438e, 17);
    b := Step(0, 15, start, x, F1(c, d, a), b, c, d, a, 15, 0x49b40821, 22);
    r := Chain(a, b, c, d);
  }

  method Round2A(s: Chain, x: seq<Word>) returns (r: Chain)
    requires |x| == 16
    ensures r == Steps(1, 8, s, x)
  {
    hide F, G, H, I, F1, F2, Steps;
    var a, b, c, d := s.a, s.b, s.c, s.d;
    NoStep(1, s, x);
    a := Step(1, 0, s, x, F2(b, c, d), a, b, c, d, 1, 0xf61e2562, 5);
    d := Step(1, 1, s, x, F2(a, b, c), d, a, b, c, 6, 0xc040b340, 9);
    c := Step(1, 2, s, x, F2(d, a, b), c, d, a, b, 11, 0x265e5a51, 14);
    b := Step(1, 3, s, x, F2(c, d, a), b, c, d, a, 0, 0xe9b6c7aa, 20);
    a := Step(1, 4, s, x, F2(b, c, d), a, b, c, d, 5, 0xd62f105d, 5);
    d := Step(1, 5, s, x, F2(a, b, c), d, a, b, c, 10, 0x02441453, 9);
    c := Step(1, 6, s, x, F2(d, a, b), c, d, a, b, 15, 0xd8a1e681, 14);
    b := Step(1, 7, s, x, F2(c, d, a), b, c, d, a, 4, 0xe7d3fbc8, 20);
    r := Chain(a, b, c, d);
  }

  method Round2B(ghost start: Chain, s: Chain, x: seq<Word>) returns (r: Chain)
    requires |x| == 16
    requires s == Steps(1, 8, start, x)
    ensures r == Steps(1, 16, start, x)
  {
    hide F, G, H, I, F1, F2, Steps;
    var a, b, c, d := s.a, s.b, s.c, s.d;
    a := Step(1, 8, start, x, F2(b, c, d), a, b, c, d, 9, 0x21e1cde6, 5);
    d := Step(1, 9, start, x, F2(a, b, c), d, a, b, c, 14, 0xc33707d6, 9);
    c := Step(1, 10, start, x, F2(d, a, b), c, d, a, b, 3, 0xf4d50d87, 14);
    b := Step(1, 11, start, x, F2(c, d, a), b, c, d, a, 8, 0x455a14ed, 20);
    a := Step(1, 12, start, x, F2(b, c, d), a, b, c, d, 13, 0xa9e3e905, 5);
    d := Step(1, 13, start, x, F2(a, b, c), d, a, b, c, 2, 0xfcefa3f8, 9);
    c := Step(1, 14, start, x, F2(d, a, b), c, d, a, b, 7, 0x676f02d9, 14);
    b := Step(1, 15, start, x, F2(c, d, a), b, c, d, a, 12, 0x8d2a4c8a, 20);
    r := Chain(a, b, c, d);
  }

  method Round3A(s: Chain, x: seq<Word>) returns (r: Chain)
    requires |x| == 16
    ensures r == Steps(2, 8, s, x)
  {
    hide F, G, H, I, F1, F2, Steps;
    var a, b, c, d := s.a, s.b, s.c, s.d;
    NoStep(2, s, x);
    a := Step(2, 0, s, x, H(b, c, d), a, b, c, d, 5, 0xfffa3942, 4);
    d := Step(2, 1, s, x, H(a, b, c), d, a, b, c, 8, 0x8771f681, 11);
    c := Step(2, 2, s, x, H(d, a, b), c, d, a, b, 11, 0x6d9d6122, 16);
    b := Step(2, 3, s, x, H(c, d, a), b, c, d, a, 14, 0xfde5380c, 23);
    a := Step(2, 4, s, x, H(b, c, d), a, b, c, d, 1, 0xa4beea44, 4);
    d := Step(2, 5, s, x, H(a, b, c), d, a, b, c, 4, 0x4bdecfa9, 11);
    c := Step(2, 6, s, x, H(d, a, b), c, d, a, b, 7, 0xf6bb4b60, 16);
    b := Step(2, 7, s, x, H(c, d, a), b, c, d, a, 10, 0xbebfbc70, 23);
    r := Chain(a, b, c, d);
  }

  method Round3B(ghost start: Chain, s: Chain, x: seq<Word>) returns (r: Chain)
    requires |x| == 16
    requires s == Steps(2, 8, start, x)
    ensures r == Steps(2, 16, start, x)
  {
    hide F, G, H, I, F1, F2, Steps;
    var a, b, c, d := s.a, s.b, s.c, s.d;
    a := Step(2, 8, start, x, H(b, c, d), a, b, c, d, 13, 0x289b7ec6, 4);
    d := Step(2, 9, start, x, H(a, b, c), d, a, b, c, 0, 0xeaa127fa, 11);
    c := Step(2, 10, start, x, H(d, a, b), c, d, a, b, 3, 0xd4ef3085, 16);
    b := Step(2, 11, start, x, H(c, d, a), b, c, d, a, 6, 0x04881d05, 23);
    a := Step(2, 12, start, x, H(b, c, d), a, b, c, d, 9, 0xd9d4d039, 4);
    d := Step(2, 13, start, x, H(a, b, c), d, a, b, c, 12, 0xe6db99e5, 11);
    c := Step(2, 14, start, x, H(d, a, b), c, d, a, b, 15, 0x1fa27cf8, 16);
    b := Step(2, 15, start, x, H(c, d, a), b, c, d, a, 2, 0xc4ac5665, 23);
    r := Chain(a, b, c, d);
  }

  method Round4A(s: Chain, x: seq<Word>) returns (r: Chain)
    requires |x| == 16
    ensures r == Steps(3, 8, s, x)
  {
    hide F, G, H, I, F1, F2, Steps;
    var a, b, c, d := s.a, s.b, s.c, s.d;
    NoStep(3, s, x);
    a := Step(3, 0, s, x, I(b, c, d), a, b, c, d, 0, 0xf4292244, 6);
    d := Step(3, 1, s, x, I(a, b, c), d, a, b, c, 7, 0x432aff97, 10);
    c := Step(3, 2, s, x, I(d, a, b), c, d, a, b, 14, 0xab9423a7, 15);
    b := Step(3, 3, s, x, I(c, d, a), b, c, d, a, 5, 0xfc93a039, 21);
    a := Step(3, 4, s, x, I(b, c, d), a, b, c, d, 12, 0x655b59c3, 6);
    d := Step(3, 5, s, x, I(a, b, c), d, a, b, c, 3, 0x8f0ccc92, 10);
    c := Step(3, 6, s, x, I(d, a, b), c, d, a, b, 10, 0xffeff47d, 15);
    b := Step(3, 7, s, x, I(c, d, a), b, c, d, a, 1, 0x85845dd1, 21);
    r := Chain(a, b, c, d);
  }

  method Round4B(ghost start: Chain, s: Chain, x: seq<Word>) returns (r: Chain)
    requires |x| == 16
    requires s == Steps(3, 8, start, x)
    ensures r == Steps(3, 16, start, x)
  {
    hide F, G, H, I, F1, F2, Steps;
    var a, b, c, d := s.a, s.b, s.c, s.d;
    a := Step(3, 8, start, x, I(b, c, d), a, b, c, d, 8, 0x6fa87e4f, 6);
    d := Step(3, 9, start, x, I(a, b, c), d, a, b, c, 15, 0xfe2ce6e0, 10);
    c := Step(3, 10, start, x, I(d, a, b), c, d, a, b, 6, 0xa3014314, 15);
    b := Step(3, 11, start, x, I(c, d, a), b, c, d, a, 13, 0x4e0811a1, 21);
    a := Step(3, 12, start, x, I(b, c, d), a, b, c, d, 4, 0xf7537e82, 6);
    d := Step(3, 13, start, x, I(a, b, c), d, a, b, c, 11, 0xbd3af235, 10);
    c := Step(3, 14, start, x, I(d, a, b), c, d, a, b, 2, 0x2ad7d2bb, 15);
    b := Step(3, 15, start, x, I(c, d, a), b, c, d, a, 9, 0xeb86d391, 21);
    r := Chain(a, b, c, d);
  }

  lemma AfterRounds(s: Chain, r0: Chain, r1: Chain, r2: Chain, r3: Chain, x: seq<Word>)
    requires |x| == 16
    requires r0 == Steps(0, 16, s, x) && r1 == Steps(1, 16, r0, x)
    requires r2 == Steps(2, 16, r1, x) && r3 == Steps(3, 16, r2, x)
    ensures r3 == Rounds(4, s, x)
  {
    hide Steps;
    assert s == Rounds(0, s, x);
    assert r0 == Rounds(1, s, x);
    assert r1 == Rounds(2, s, x);
    assert r2 == Rounds(3, s, x);
  }

  /** MD5Transform. */
  method TransformBlock(s: Chain, x: seq<Word>) returns (r: Chain)
    requires |x| == 16
    ensures r == Transform(s, x)
  {
    hide Steps, Add;
    var r0 := Round1A(s, x);
    r0 := Round1B(s, r0, x);
    var r1 := Round2A(r0, x);
    r1 := Round2B(r0, r1, x);
    var r2 := Round3A(r1, x);
    r2 := Round3B(r1, r2, x);
    var r3 := Round4A(r2, x);
    r3 := Round4B(r2, r3, x);
    AfterRounds(s, r0, r1, r2, r3, x);
    var t := r3;
    r := Chain(Add(s.a, t.a), Add(s.b, t.b), Add(s.c, t.c), Add(s.d, t.d));
  }
}
