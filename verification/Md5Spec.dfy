/** The MD5 message digest as RFC 1321 states it: padding, 16-word blocks, four
    table-driven rounds, and a digest written low-order byte first. */
module Md5Spec {
  import opened Words

  const BLOCK_SIZE: nat := 64

  /** The four chaining words A, B, C and D. */
  datatype Chain = Chain(a: Word, b: Word, c: Word, d: Word)

  /** Section 3.3 of RFC 1321. */
  const INITIAL: Chain := Chain(0x67452301, 0xefcdab89, 0x98badcfe, 0x10325476)

  // ----- Section 3.4: the auxiliary functions and the round tables -----

  function F(x: Word, y: Word, z: Word): Word { Or(And(x, y), And(Not(x), z)) }
  function G(x: Word, y: Word, z: Word): Word { Or(And(x, z), And(y, Not(z))) }
  function H(x: Word, y: Word, z: Word): Word { Xor(Xor(x, y), z) }
  function I(x: Word, y: Word, z: Word): Word { Xor(y, Or(x, Not(z))) }

  /** The auxiliary function of a round (0 to 3). */
  function Auxiliary(round: nat, x: Word, y: Word, z: Word): Word
  {
    if round == 0 then F(x, y, z)
    else if round == 1 then G(x, y, z)
    else if round == 2 then H(x, y, z)
    else I(x, y, z)
  }

  /** The block word that step `i` of a round uses. */
  function WordIndex(round: nat, i: nat): nat
  {
    if round == 0 then i % 16
    else if round == 1 then (5 * i + 1) % 16
    else if round == 2 then (3 * i + 5) % 16
    else (7 * i) % 16
  }

  /** The rotation of step `i` of a round: each round cycles through four amounts. */
  function Rotation(round: nat, i: nat): (s: nat)
    ensures s <= 32
  {
    match (round, i % 4)
    case (0, 0) => 7 case (0, 1) => 12 case (0, 2) => 17 case (0, _) => 22
    case (1, 0) => 5 case (1, 1) => 9 case (1, 2) => 14 case (1, _) => 20
    case (2, 0) => 4 case (2, 1) => 11 case (2, 2) => 16 case (2, _) => 23
    case (_, 0) => 6 case (_, 1) => 10 case (_, 2) => 15 case (_, _) => 21
  }

  /** The sine table T[1..64], sixteen entries a round. */
  function Sine(round: nat, i: nat): Word
  {
    match 16 * round + i
    case 0 => 0xd76aa478 case 1 => 0xe8c7b756 case 2 => 0x242070db case 3 => 0xc1bdceee
    case 4 => 0xf57c0faf case 5 => 0x4787c62a case 6 => 0xa8304613 case 7 => 0xfd469501
    case 8 => 0x698098d8 case 9 => 0x8b44f7af case 10 => 0xffff5bb1 case 11 => 0x895cd7be
    case 12 => 0x6b901122 case 13 => 0xfd987193 case 14 => 0xa679438e case 15 => 0x49b40821
    case 16 => 0xf61e2562 case 17 => 0xc040b340 case 18 => 0x265e5a51 case 19 => 0xe9b6c7aa
    case 20 => 0xd62f105d case 21 => 0x02441453 case 22 => 0xd8a1e681 case 23 => 0xe7d3fbc8
    case 24 => 0x21e1cde6 case 25 => 0xc33707d6 case 26 => 0xf4d50d87 case 27 => 0x455a14ed
    case 28 => 0xa9e3e905 case 29 => 0xfcefa3f8 case 30 => 0x676f02d9 case 31 => 0x8d2a4c8a
    case 32 => 0xfffa3942 case 33 => 0x8771f681 case 34 => 0x6d9d6122 case 35 => 0xfde5380c
    case 36 => 0xa4beea44 case 37 => 0x4bdecfa9 case 38 => 0xf6bb4b60 case 39 => 0xbebfbc70
    case 40 => 0x289b7ec6 case 41 => 0xeaa127fa case 42 => 0xd4ef3085 case 43 => 0x04881d05
    case 44 => 0xd9d4d039 case 45 => 0xe6db99e5 case 46 => 0x1fa27cf8 case 47 => 0xc4ac5665
    case 48 => 0xf4292244 case 49 => 0x432aff97 case 50 => 0xab9423a7 case 51 => 0xfc93a039
    case 52 => 0x655b59c3 case 53 => 0x8f0ccc92 case 54 => 0xffeff47d case 55 => 0x85845dd1
    case 56 => 0x6fa87e4f case 57 => 0xfe2ce6e0 case 58 => 0xa3014314 case 59 => 0x4e0811a1
    case 60 => 0xf7537e82 case 61 => 0xbd3af235 case 62 => 0x2ad7d2bb case 63 => 0xeb86d391
    case _ => 0
  }

  function RotateLeft(x: Word, s: nat): Word
    requires s <= 32
  {
    Or(ShiftLeft(x, s), ShiftRight(x, 32 - s))
  }

  /** One operation [abcd k s i]: a = b + ((a + f + X[k] + T[i]) <<< s). */
  function Operation(a: Word, b: Word, f: Word, x: Word, t: Word, s: nat): Word
    requires s <= 32
  {
    Add(b, RotateLeft(Add(Add(Add(a, f), x), t), s))
  }

  /** Step `i` of a round. The four words move one place, so that the word to be
      replaced is always the first. */
  function RoundStep(round: nat, i: nat, s: Chain, x: seq<Word>): Chain
    requires i < 16 && |x| == 16
  {
    Chain(s.d,
          Operation(s.a, s.b, Auxiliary(round, s.b, s.c, s.d),
                    x[WordIndex(round, i)], Sine(round, i), Rotation(round, i)),
          s.b,
          s.c)
  }

  /** The first `n` steps of a round. */
  function Steps(round: nat, n: nat, s: Chain, x: seq<Word>): Chain
    requires n <= 16 && |x| == 16
  {
    if n == 0 then s else RoundStep(round, n - 1, Steps(round, n - 1, s, x), x)
  }

  /** The first `n` rounds. */
  function Rounds(n: nat, s: Chain, x: seq<Word>): Chain
    requires |x| == 16
  {
    if n == 0 then s else Steps(n - 1, 16, Rounds(n - 1, s, x), x)
  }

  /** Processing one 16-word block. */
  function Transform(s: Chain, x: seq<Word>): Chain
    requires |x| == 16
  {
    var t := Rounds(4, s, x);
    Chain(Add(s.a, t.a), Add(s.b, t.b), Add(s.c, t.c), Add(s.d, t.d))
  }

  // ----- Section 2: bytes and words, low-order byte first -----

  function LoadLow(b: seq<Byte>): Word
    requires |b| == 4
  {
    var b0: int, b1: int, b2: int, b3: int := b[0], b[1], b[2], b[3];
    b0 + 0x100 * b1 + 0x1_0000 * b2 + 0x100_0000 * b3
  }

  function StoreLow(w: Word): (b: seq<Byte>)
    ensures |b| == 4
  {
    [w % 0x100, w / 0x100 % 0x100, w / 0x1_0000 % 0x100, w / 0x100_0000]
  }

  lemma LoadAfterStore(w: Word)
    ensures LoadLow(StoreLow(w)) == w
  {
    var q1 := w / 0x100;
    var q2 := q1 / 0x100;
    var q3 := q2 / 0x100;
    assert w / 0x1_0000 == q2 && w / 0x100_0000 == q3;
    assert w == w % 0x100 + 0x100 * (q1 % 0x100 + 0x100 * (q2 % 0x100 + 0x100 * q3));
  }

  lemma StoreAfterLoad(b: seq<Byte>)
    requires |b| == 4
    ensures StoreLow(LoadLow(b)) == b
  {
    var b0: int, b1: int, b2: int, b3: int := b[0], b[1], b[2], b[3];
    var w := LoadLow(b);
    assert w == b0 + 0x100 * (b1 + 0x100 * b2 + 0x1_0000 * b3);
    assert w / 0x100 == b1 + 0x100 * (b2 + 0x100 * b3);
    assert w / 0x1_0000 == b2 + 0x100 * b3;
    assert w / 0x100_0000 == b3;
  }

  function BlockWords(block: seq<Byte>): (x: seq<Word>)
    requires |block| == BLOCK_SIZE
    ensures |x| == 16
  {
    seq(16, i requires 0 <= i < 16 => LoadLow(block[4 * i..4 * i + 4]))
  }

  // ----- Sections 3.1 to 3.5: padding, blocks and output -----

  /** The number of zero bytes after the byte 0x80. */
  function ZeroCount(length: nat): (k: nat)
    ensures k < BLOCK_SIZE && (length + 1 + k) % BLOCK_SIZE == 56
  {
    (119 - length % BLOCK_SIZE) % BLOCK_SIZE
  }

  function Zeros(n: nat): (z: seq<Byte>)
    ensures |z| == n
  {
    seq(n, _ => 0)
  }

  /** The length of a message in bits, as two words, low-order word first; only the low
      64 bits are used. */
  function LengthLow(length: nat): Word { 8 * length % TWO_32 }
  function LengthHigh(length: nat): Word { 8 * length / TWO_32 % TWO_32 }

  function Padding(length: nat): seq<Byte>
  {
    [0x80] + Zeros(ZeroCount(length)) + StoreLow(LengthLow(length)) + StoreLow(LengthHigh(length))
  }

  lemma PaddedToBlocks(length: nat)
    ensures (length + |Padding(length)|) % BLOCK_SIZE == 0
  {
    hide StoreLow, LengthLow, LengthHigh, ZeroCount;
    assert |Padding(length)| == 1 + ZeroCount(length) + 8;
  }

  /** The chaining words after every complete block of `m`. */
  function Absorb(s: Chain, m: seq<Byte>): Chain
    decreases |m|
  {
    if |m| < BLOCK_SIZE then s
    else Absorb(Transform(s, BlockWords(m[..BLOCK_SIZE])), m[BLOCK_SIZE..])
  }

  function DigestBytes(s: Chain): (d: seq<Byte>)
    ensures |d| == 16
  {
    StoreLow(s.a) + StoreLow(s.b) + StoreLow(s.c) + StoreLow(s.d)
  }

  function Md5(m: seq<Byte>): (d: seq<Byte>)
    ensures |d| == 16
  {
    DigestBytes(Absorb(INITIAL, m + Padding(|m|)))
  }

  // ----- What the constants are, as the RFC writes them -----

  lemma StoredBytes(w: Word, b0: Byte, b1: Byte, b2: Byte, b3: Byte)
    requires w == b0 + 0x100 * b1 + 0x1_0000 * b2 + 0x100_0000 * b3
    ensures StoreLow(w) == [b0, b1, b2, b3]
  {
    StoreAfterLoad([b0, b1, b2, b3]);
  }

  /** Section 3.3: the initial words, byte by byte: they count up by 0x22 from 0x01 to 0xef and
      down again from 0xfe to 0x10. */
  lemma InitialBytes(i: nat)
    requires i < 8
    ensures DigestBytes(INITIAL)[i] == 0x01 + 0x22 * i && DigestBytes(INITIAL)[15 - i] == 0x10 + 0x22 * i
  {
    StoredBytes(INITIAL.a, 0x01, 0x23, 0x45, 0x67);
    StoredBytes(INITIAL.b, 0x89, 0xab, 0xcd, 0xef);
    StoredBytes(INITIAL.c, 0xfe, 0xdc, 0xba, 0x98);
    StoredBytes(INITIAL.d, 0x76, 0x54, 0x32, 0x10);
    hide StoreLow;
  }

  /** Section 3.4: the words of the block in the order of the steps of the second round. */
  lemma SecondRoundWords(i: nat)
    requires i < 16
    ensures WordIndex(0, i) == i
    ensures WordIndex(1, i) == [1, 6, 11, 0, 5, 10, 15, 4, 9, 14, 3, 8, 13, 2, 7, 12][i]
  {
  }

  lemma ThirdRoundWords(i: nat)
    requires i < 16
    ensures WordIndex(2, i) == [5, 8, 11, 14, 1, 4, 7, 10, 13, 0, 3, 6, 9, 12, 15, 2][i]
  {
  }

  lemma FourthRoundWords(i: nat)
    requires i < 16
    ensures WordIndex(3, i) == [0, 7, 14, 5, 12, 3, 10, 1, 8, 15, 6, 13, 4, 11, 2, 9][i]
  {
  }

  /** Section 3.2: the two words hold the number of bits, modulo 2^64. */
  lemma LengthInBits(length: nat)
    ensures LengthLow(length) + TWO_32 * LengthHigh(length) == 8 * length % 0x1_0000_0000_0000_0000
  {
    var bits := 8 * length;
    var q := bits / TWO_32;
    var top := q / TWO_32;
    assert bits == TWO_32 * q + LengthLow(length);
    assert q == TWO_32 * top + LengthHigh(length);
    hide LengthLow, LengthHigh;
    Remainder64(bits, top, LengthLow(length) + TWO_32 * LengthHigh(length));
  }

  lemma Remainder64(n: nat, q: nat, r: nat)
    requires n == 0x1_0000_0000_0000_0000 * q + r && r < 0x1_0000_0000_0000_0000
    ensures n % 0x1_0000_0000_0000_0000 == r
  {
  }

  // ----- Absorbing in pieces -----

  lemma {:induction false} AbsorbPieces(s: Chain, m: seq<Byte>, n: seq<Byte>)
    requires |m| % BLOCK_SIZE == 0
    ensures Absorb(s, m + n) == Absorb(Absorb(s, m), n)
    decreases |m|
  {
    hide Transform, BlockWords;
    if m == [] {
      assert m + n == n;
    } else {
      var t := Transform(s, BlockWords(m[..BLOCK_SIZE]));
      assert (m + n)[..BLOCK_SIZE] == m[..BLOCK_SIZE];
      assert (m + n)[BLOCK_SIZE..] == m[BLOCK_SIZE..] + n;
      AbsorbPieces(t, m[BLOCK_SIZE..], n);
    }
  }

  lemma AbsorbBlock(s: Chain, m: seq<Byte>, block: seq<Byte>)
    requires |m| % BLOCK_SIZE == 0 && |block| == BLOCK_SIZE
    ensures Absorb(s, m + block) == Transform(Absorb(s, m), BlockWords(block))
  {
    hide Transform, BlockWords;
    AbsorbPieces(s, m, block);
    assert block[..BLOCK_SIZE] == block;
  }

  lemma AbsorbRemainder(s: Chain, m: seq<Byte>, rest: seq<Byte>)
    requires |m| % BLOCK_SIZE == 0 && |rest| < BLOCK_SIZE
    ensures Absorb(s, m + rest) == Absorb(s, m)
  {
    AbsorbPieces(s, m, rest);
  }
}
