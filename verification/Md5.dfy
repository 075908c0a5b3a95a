/** Incremental MD5 (base/md5.cc): a context takes a message in pieces of any size. */
module Md5 {
  import opened Words
  import opened Md5Spec
  import opened Md5Transform

  /** How the machine keeps a 32-bit word in memory. */
  datatype ByteOrder = LowFirst | HighFirst

  function Backwards(b: seq<Byte>): (r: seq<Byte>)
    requires |b| == 4
    ensures |r| == 4
  {
    [b[3], b[2], b[1], b[0]]
  }

  function LoadNative(order: ByteOrder, b: seq<Byte>): Word
    requires |b| == 4
  {
    if order == LowFirst then LoadLow(b) else LoadLow(Backwards(b))
  }

  function StoreNative(order: ByteOrder, w: Word): (b: seq<Byte>)
    ensures |b| == 4
  {
    if order == LowFirst then StoreLow(w) else Backwards(StoreLow(w))
  }

  lemma NativeLoadAfterStore(order: ByteOrder, w: Word)
    ensures LoadNative(order, StoreNative(order, w)) == w
  {
    hide LoadLow, StoreLow;
    LoadAfterStore(w);
    var b := StoreLow(w);
    assert Backwards(Backwards(b)) == b;
  }

  /** byteReverse on one stored word leaves it low-order byte first. */
  lemma ReversedWord(order: ByteOrder, w: Word)
    ensures StoreNative(order, LoadLow(StoreNative(order, w))) == StoreLow(w)
  {
    hide LoadLow, StoreLow;
    var b := StoreLow(w);
    LoadAfterStore(w);
    StoreAfterLoad(Backwards(b));
    assert Backwards(Backwards(b)) == b;
  }

  /** The sixteen words that a native pointer to 64 bytes reads. */
  function NativeWords(order: ByteOrder, b: seq<Byte>): (x: seq<Word>)
    requires |b| == BLOCK_SIZE
    ensures |x| == 16
  {
    seq(16, i requires 0 <= i < 16 => LoadNative(order, b[4 * i..4 * i + 4]))
  }

  /** Each of the first `longs` words, read low-order byte first, is now stored in the
      byte order of the machine, and nothing else changed. */
  predicate Reversed(order: ByteOrder, before: seq<Byte>, after: seq<Byte>, longs: nat)
    requires 4 * longs <= |before| == |after|
  {
    && (forall k | 0 <= k < longs ::
          after[4 * k..4 * k + 4] == StoreNative(order, LoadLow(before[4 * k..4 * k + 4])))
    && after[4 * longs..] == before[4 * longs..]
  }

  lemma ReversedExtends(order: ByteOrder, before: seq<Byte>, middle: seq<Byte>, after: seq<Byte>, i: nat)
    requires 4 * i + 4 <= |before| == |middle| == |after|
    requires Reversed(order, before, middle, i)
    requires after == middle[..4 * i] + StoreNative(order, LoadLow(middle[4 * i..4 * i + 4])) + middle[4 * i + 4..]
    ensures Reversed(order, before, after, i + 1)
  {
    hide LoadLow, StoreNative;
    assert middle[4 * i..4 * i + 4] == middle[4 * i..][..4] == before[4 * i..4 * i + 4];
    forall k | 0 <= k < i
      ensures after[4 * k..4 * k + 4] == middle[4 * k..4 * k + 4]
    {
    }
    assert after[4 * i + 4..] == middle[4 * i..][4..] == before[4 * i..][4..];
  }

  /** byteReverse. */
  method ByteReverse(order: ByteOrder, b: array<Byte>, longs: nat)
    requires 1 <= longs && 4 * longs <= b.Length
    modifies b
    ensures Reversed(order, old(b[..]), b[..], longs)
  {
    hide LoadLow, StoreNative, Reversed;
    var i := 0;
    assert Reversed(order, b[..], b[..], 0) by { NothingReversed(order, b[..]); }
    while i < longs
      invariant i <= longs
      invariant Reversed(order, old(b[..]), b[..], i)
    {
      ghost var middle := b[..];
      var stored := StoreNative(order, LoadLow(b[4 * i..4 * i + 4]));
      b[4 * i], b[4 * i + 1], b[4 * i + 2], b[4 * i + 3] := stored[0], stored[1], stored[2], stored[3];
      assert b[..] == middle[..4 * i] + stored + middle[4 * i + 4..];
      ReversedExtends(order, old(b[..]), middle, b[..], i);
      i := i + 1;
    }
  }

  lemma NothingReversed(order: ByteOrder, b: seq<Byte>)
    ensures Reversed(order, b, b, 0)
  {
  }

  /** A reversed block reads natively as the specification's block, in either byte order. */
  lemma ReversedBlock(order: ByteOrder, before: seq<Byte>, after: seq<Byte>)
    requires |before| == |after| == BLOCK_SIZE
    requires Reversed(order, before, after, 16)
    ensures NativeWords(order, after) == BlockWords(before)
  {
    hide LoadLow, LoadNative, StoreNative;
    forall k | 0 <= k < 16
      ensures NativeWords(order, after)[k] == BlockWords(before)[k]
    {
      NativeLoadAfterStore(order, LoadLow(before[4 * k..4 * k + 4]));
    }
  }

  /** The last block: fourteen reversed words, then the bit count copied as native words. */
  lemma ReversedLastBlock(order: ByteOrder, before: seq<Byte>, after: seq<Byte>, low: Word, high: Word)
    requires |before| == |after| == BLOCK_SIZE
    requires Reversed(order, before, after, 14)
    ensures NativeWords(order, after[..56] + StoreNative(order, low) + StoreNative(order, high))
         == BlockWords(before[..56] + StoreLow(low) + StoreLow(high))
  {
    hide LoadLow, LoadNative, StoreNative, StoreLow;
    var native := after[..56] + StoreNative(order, low) + StoreNative(order, high);
    var plain := before[..56] + StoreLow(low) + StoreLow(high);
    NativeLoadAfterStore(order, low);
    NativeLoadAfterStore(order, high);
    LoadAfterStore(low);
    LoadAfterStore(high);
    forall k | 0 <= k < 16
      ensures NativeWords(order, native)[k] == BlockWords(plain)[k]
    {
      if k < 14 {
        assert native[4 * k..4 * k + 4] == after[4 * k..4 * k + 4];
        assert plain[4 * k..4 * k + 4] == before[4 * k..4 * k + 4];
        NativeLoadAfterStore(order, LoadLow(before[4 * k..4 * k + 4]));
      } else if k == 14 {
        assert native[56..60] == StoreNative(order, low) && plain[56..60] == StoreLow(low);
      } else {
        assert native[60..64] == StoreNative(order, high) && plain[60..64] == StoreLow(high);
      }
    }
  }

  lemma FourWords(a: seq<Byte>, b: seq<Byte>, c: seq<Byte>, d: seq<Byte>)
    requires |a| == |b| == |c| == |d| == 4
    ensures (a + b + c + d)[0..4] == a && (a + b + c + d)[4..8] == b
    ensures (a + b + c + d)[8..12] == c && (a + b + c + d)[12..16] == d
  {
  }

  // ----- The bit count in two words -----

  lemma QuotientAndRemainder(x: int, q: int, r: int)
    requires x == TWO_32 * q + r && 0 <= r < TWO_32
    ensures x / TWO_32 == q && x % TWO_32 == r
  {
  }

  lemma ReducedSum(x: nat, y: nat)
    ensures Add(x % TWO_32, y % TWO_32) == (x + y) % TWO_32
  {
    var qx, qy := x / TWO_32, y / TWO_32;
    var s := x % TWO_32 + y % TWO_32;
    QuotientAndRemainder(s, s / TWO_32, s % TWO_32);
    QuotientAndRemainder(x + y, qx + qy + s / TWO_32, s % TWO_32);
  }

  /** A length in bits, low word: `static_cast<uint32_t>(len) << 3`. */
  lemma ShiftedLength(length: nat)
    ensures 8 * (length % TWO_32) % TWO_32 == 8 * (length % 0x2000_0000)
    ensures 8 * length == TWO_32 * (length / 0x2000_0000) + 8 * (length % 0x2000_0000)
  {
    var r := length % TWO_32;
    QuotientAndRemainder(8 * r, r / 0x2000_0000, 8 * (r % 0x2000_0000));
    assert length == 0x2000_0000 * (8 * (length / TWO_32) + r / 0x2000_0000) + r % 0x2000_0000;
    assert length % 0x2000_0000 == r % 0x2000_0000;
  }

  /** Adding `length` bytes to a bit count kept in two words, with the carry by hand. */
  lemma BitCountAdds(total: nat, length: nat)
    ensures var low := Add(LengthLow(total), 8 * (length % TWO_32) % TWO_32);
            var carry := low < LengthLow(total);
            && low == LengthLow(total + length)
            && LengthHigh(total + length)
               == Add(if carry then Add(LengthHigh(total), 1) else LengthHigh(total), length / 0x2000_0000 % TWO_32)
  {
    var t, n := 8 * total, 8 * length;
    var h, l := length / 0x2000_0000, 8 * (length % 0x2000_0000);
    ShiftedLength(length);
    var q, low := t / TWO_32, t % TWO_32;
    var carry := if low + l < TWO_32 then 0 else 1;
    QuotientAndRemainder(t + n, q + h + carry, low + l - TWO_32 * carry);
    assert 8 * (total + length) == t + n;
    assert Add(low, l) == low + l - TWO_32 * carry;
    ReducedSum(q, carry);
    ReducedSum(q + carry, h);
  }

  /** The bytes held over, from the low word of the bit count: `(t >> 3) & 0x3f`. */
  lemma HeldFromBitCount(total: nat)
    ensures LengthLow(total) / 8 % 64 == total % BLOCK_SIZE
  {
    var q := 8 * total / TWO_32;
    var e := total - 0x2000_0000 * q;
    assert LengthLow(total) == 8 * e;
    SameRemainder(e, 0x80_0000 * q);
  }

  lemma SameRemainder(x: int, k: int)
    ensures (64 * k + x) % 64 == x % 64
  {
  }

  /** The bytes of `m` after its last complete block. */
  function Tail(m: seq<Byte>): (t: seq<Byte>)
    ensures |t| == |m| % BLOCK_SIZE
  {
    m[|m| - |m| % BLOCK_SIZE..]
  }

  lemma SplitAtTail(m: seq<Byte>) returns (whole: seq<Byte>)
    ensures m == whole + Tail(m) && |whole| % BLOCK_SIZE == 0
  {
    whole := m[..|m| - |m| % BLOCK_SIZE];
    assert |whole| == BLOCK_SIZE * (|m| / BLOCK_SIZE);
  }

  lemma BlocksThenRest(whole: seq<Byte>, rest: seq<Byte>)
    requires |whole| % BLOCK_SIZE == 0 && |rest| < BLOCK_SIZE
    ensures Absorb(INITIAL, whole + rest) == Absorb(INITIAL, whole)
    ensures Tail(whole + rest) == rest
  {
    hide Absorb;
    AbsorbRemainder(INITIAL, whole, rest);
    assert |whole + rest| % BLOCK_SIZE == |rest|;
  }

  lemma AbsorbShort(m: seq<Byte>, data: seq<Byte>)
    requires |Tail(m)| + |data| < BLOCK_SIZE
    ensures Absorb(INITIAL, m + data) == Absorb(INITIAL, m)
    ensures Tail(m + data) == Tail(m) + data
  {
    hide Absorb, Tail;
    var whole := SplitAtTail(m);
    var tail := Tail(m);
    BlocksThenRest(whole, tail);
    BlocksThenRest(whole, tail + data);
    assert whole + (tail + data) == (whole + tail) + data;
  }

  lemma AbsorbTopUp(m: seq<Byte>, data: seq<Byte>)
    requires |m| % BLOCK_SIZE + |data| == BLOCK_SIZE
    ensures Absorb(INITIAL, m + data) == Transform(Absorb(INITIAL, m), BlockWords(Tail(m) + data))
    ensures |m + data| % BLOCK_SIZE == 0
  {
    hide Absorb, Transform, BlockWords;
    var whole := SplitAtTail(m);
    assert m + data == whole + (Tail(m) + data);
    AbsorbRemainder(INITIAL, whole, Tail(m));
    AbsorbBlock(INITIAL, whole, Tail(m) + data);
  }

  function LengthField(length: nat): (f: seq<Byte>)
    ensures |f| == 8
  {
    StoreLow(LengthLow(length)) + StoreLow(LengthHigh(length))
  }

  lemma PaddingInParts(length: nat)
    ensures Padding(length) == [0x80] + Zeros(ZeroCount(length)) + LengthField(length)
    ensures ZeroCount(length) == if length % BLOCK_SIZE <= 55 then 55 - length % BLOCK_SIZE else 119 - length % BLOCK_SIZE
  {
    hide StoreLow, LengthLow, LengthHigh;
  }

  /** The in-place padding when the tail leaves room for the length field: one block. */
  lemma PaddedInOneBlock(m: seq<Byte>, start: seq<Byte>)
    requires |Tail(m)| <= 55 && start == Tail(m) + [0x80] + Zeros(55 - |Tail(m)|)
    ensures Absorb(INITIAL, m + Padding(|m|)) == Transform(Absorb(INITIAL, m), BlockWords(start + LengthField(|m|)))
  {
    hide Absorb, Transform, BlockWords, LengthField, Tail, ZeroCount, Padding;
    var whole := SplitAtTail(m);
    var tail := Tail(m);
    BlocksThenRest(whole, tail);
    PaddingInParts(|m|);
    assert m + Padding(|m|) == whole + (start + LengthField(|m|));
    AbsorbBlock(INITIAL, whole, start + LengthField(|m|));
  }

  /** And when it does not: two. */
  lemma PaddedInTwoBlocks(m: seq<Byte>, first: seq<Byte>, start: seq<Byte>)
    requires |Tail(m)| > 55 && start == Zeros(56)
    requires first == Tail(m) + [0x80] + Zeros(63 - |Tail(m)|)
    ensures Absorb(INITIAL, m + Padding(|m|))
         == Transform(Transform(Absorb(INITIAL, m), BlockWords(first)), BlockWords(start + LengthField(|m|)))
  {
    hide Absorb, Transform, BlockWords, LengthField, Tail, ZeroCount, Padding;
    var whole := SplitAtTail(m);
    var tail := Tail(m);
    BlocksThenRest(whole, tail);
    PaddingInParts(|m|);
    assert Zeros(119 - |tail|) == Zeros(63 - |tail|) + Zeros(56);
    assert m + Padding(|m|) == (whole + first) + (start + LengthField(|m|));
    AbsorbBlock(INITIAL, whole, first);
    AbsorbBlock(INITIAL, whole + first, start + LengthField(|m|));
  }

  lemma NextChunk(m: seq<Byte>, data: seq<Byte>, at: nat)
    requires at + 64 <= |data| && (|m| + at) % BLOCK_SIZE == 0
    ensures (|m| + at + 64) % BLOCK_SIZE == 0
    ensures Absorb(INITIAL, m + data[..at + 64])
         == Transform(Absorb(INITIAL, m + data[..at]), BlockWords(data[at..at + 64]))
  {
    hide Absorb, Transform, BlockWords;
    AbsorbBlock(INITIAL, m + data[..at], data[at..at + 64]);
    assert m + data[..at + 64] == m + data[..at] + data[at..at + 64];
  }

  lemma CutAt(m: seq<Byte>, data: seq<Byte>, at: nat)
    requires at <= |data|
    ensures m + data == (m + data[..at]) + data[at..]
  {
  }

  lemma LastChunk(m: seq<Byte>, data: seq<Byte>, at: nat)
    requires at <= |data| < at + 64 && (|m| + at) % BLOCK_SIZE == 0
    ensures Absorb(INITIAL, m + data) == Absorb(INITIAL, m + data[..at])
    ensures Tail(m + data) == data[at..]
  {
    hide Absorb, Tail;
    var whole, rest := m + data[..at], data[at..];
    CutAt(m, data, at);
    BlocksThenRest(whole, rest);
  }

  // ----- The context -----

  class Context {
    const order: ByteOrder
    var buf: Chain
    var bitsLow: Word
    var bitsHigh: Word
    const input: array<Byte>

    /** Everything given to Update since Init. */
    ghost var message: seq<Byte>

    ghost function Held(): nat
      reads this
    {
      |message| % BLOCK_SIZE
    }

    ghost predicate Valid()
      reads this, input
    {
      && input.Length == BLOCK_SIZE
      && buf == Absorb(INITIAL, message)
      && bitsLow == LengthLow(|message|)
      && bitsHigh == LengthHigh(|message|)
      && input[..Held()] == Tail(message)
    }

    constructor (order: ByteOrder)
      ensures Valid() && message == [] && fresh(input) && this.order == order
    {
      this.order := order;
      buf := INITIAL;
      bitsLow := 0;
      bitsHigh := 0;
      input := new Byte[BLOCK_SIZE](_ => 0);
      message := [];
    }

    /** MD5Init: a context may be used again; the old contents of `input` stay. */
    method Init()
      requires input.Length == BLOCK_SIZE
      modifies this
      ensures Valid() && message == []
    {
      buf := INITIAL;
      bitsLow := 0;
      bitsHigh := 0;
      message := [];
    }

    /** memcpy into `input`. */
    method Fill(at: nat, bytes: seq<Byte>)
      requires at + |bytes| <= input.Length
      modifies input
      ensures input[..] == old(input[..at]) + bytes + old(input[at + |bytes|..])
    {
      forall i | 0 <= i < |bytes| {
        input[at + i] := bytes[i];
      }
    }

    /** byteReverse and MD5Transform on a full `input`. */
    method ProcessInput()
      requires input.Length == BLOCK_SIZE
      modifies this`buf, input
      ensures buf == Transform(old(buf), BlockWords(old(input[..])))
    {
      hide Transform, BlockWords, NativeWords, Reversed;
      ByteReverse(order, input, 16);
      ReversedBlock(order, old(input[..]), input[..]);
      buf := TransformBlock(buf, NativeWords(order, input[..]));
    }

    /** The bit count after `length` more bytes; returns the bytes held so far. */
    method CountBits(length: nat) returns (held: nat)
      requires bitsLow == LengthLow(|message|) && bitsHigh == LengthHigh(|message|)
      modifies this`bitsLow, this`bitsHigh
      ensures bitsLow == LengthLow(|message| + length) && bitsHigh == LengthHigh(|message| + length)
      ensures held == Held()
    {
      hide LengthLow, LengthHigh, Add;
      BitCountAdds(|message|, length);
      HeldFromBitCount(|message|);
      var t := bitsLow;
      bitsLow := Add(t, 8 * (length % TWO_32) % TWO_32);
      if bitsLow < t {
        bitsHigh := Add(bitsHigh, 1);
      }
      bitsHigh := Add(bitsHigh, length / 0x2000_0000 % TWO_32);
      held := t / 8 % 64;
    }

    /** The block loop and the remaining bytes, from position `start` of `data`. */
    method TakeBlocks(data: seq<Byte>, start: nat)
      requires input.Length == BLOCK_SIZE && start <= |data|
      requires (|message| + start) % BLOCK_SIZE == 0
      requires buf == Absorb(INITIAL, message + data[..start])
      modifies this`buf, this`message, input
      ensures message == old(message) + data
      ensures buf == Absorb(INITIAL, message)
      ensures input[..Held()] == Tail(message)
    {
      hide Absorb, Transform, BlockWords, Tail;
      var at := start;
      while |data| - at >= 64
        invariant 0 <= at <= |data| && message == old(message)
        invariant (|message| + at) % BLOCK_SIZE == 0
        invariant buf == Absorb(INITIAL, message + data[..at])
      {
        var chunk := data[at..at + 64];
        Fill(0, chunk);
        assert input[..] == chunk;
        ProcessInput();
        NextChunk(message, data, at);
        at := at + 64;
      }
      Fill(0, data[at..]);
      LastChunk(message, data, at);
      message := message + data;
    }

    /** MD5Update. */
    method Update(data: seq<Byte>)
      requires Valid()
      modifies this, input
      ensures Valid() && message == old(message) + data
    {
      hide Absorb, Transform, BlockWords, LengthLow, LengthHigh;
      var held := CountBits(|data|);
      if held == 0 {
        assert message + data[..0] == message;
        TakeBlocks(data, 0);
        return;
      }
      var room := 64 - held;
      if |data| < room {
        Fill(held, data);
        AbsorbShort(message, data);
        message := message + data;
        assert input[..held + |data|] == old(input[..held]) + data;
        return;
      }
      Fill(held, data[..room]);
      AbsorbTopUp(message, data[..room]);
      assert input[..] == Tail(message) + data[..room];
      ProcessInput();
      TakeBlocks(data, room);
    }

    /** The padding up to the length field, with a transform when it does not fit. */
    method PadInput()
      requires Valid()
      modifies this`buf, input
      ensures Transform(buf, BlockWords(input[..56] + LengthField(|message|)))
           == Absorb(INITIAL, message + Padding(|message|))
    {
      hide Absorb, Transform, BlockWords, LengthLow, LengthHigh, LengthField, StoreLow, Tail, Padding;
      HeldFromBitCount(|message|);
      var held := bitsLow / 8 % 64;
      ghost var tail := Tail(message);
      Fill(held, [0x80]);
      var count := 64 - 1 - held;
      if count < 8 {
        Fill(held + 1, Zeros(count));
        assert input[..] == tail + [0x80] + Zeros(count);
        ProcessInput();
        Fill(0, Zeros(56));
        assert input[..56] == Zeros(56);
        PaddedInTwoBlocks(message, tail + [0x80] + Zeros(count), input[..56]);
      } else {
        Fill(held + 1, Zeros(count - 8));
        assert input[..56] == tail + [0x80] + Zeros(count - 8);
        PaddedInOneBlock(message, input[..56]);
      }
    }

    /** MD5Final: pads in place, in one block or two, and wipes the context. */
    method Final() returns (digest: seq<Byte>)
      requires Valid()
      modifies this, input
      ensures digest == Md5(old(message))
      ensures buf == Chain(0, 0, 0, 0) && bitsLow == 0 && bitsHigh == 0
      ensures input[..] == Zeros(BLOCK_SIZE)
    {
      hide Absorb, Transform, BlockWords, NativeWords, Reversed, LengthLow, LengthHigh,
           StoreLow, StoreNative, DigestBytes, Padding, Tail;
      PadInput();
      ghost var before := input[..];
      assert before[..56] + LengthField(|message|) == before[..56] + StoreLow(bitsLow) + StoreLow(bitsHigh);
      ByteReverse(order, input, 14);
      ReversedLastBlock(order, before, input[..], bitsLow, bitsHigh);
      ghost var reversed := input[..56];
      Fill(56, StoreNative(order, bitsLow));
      Fill(60, StoreNative(order, bitsHigh));
      assert input[..] == reversed + StoreNative(order, bitsLow) + StoreNative(order, bitsHigh);
      buf := TransformBlock(buf, NativeWords(order, input[..]));
      digest := WriteDigest();
      buf := Chain(0, 0, 0, 0);
      bitsLow := 0;
      bitsHigh := 0;
      Fill(0, Zeros(BLOCK_SIZE));
    }

    /** byteReverse on the chaining words in memory, and the copy out. */
    method WriteDigest() returns (digest: seq<Byte>)
      ensures digest == DigestBytes(buf)
    {
      hide StoreLow, StoreNative, LoadLow;
      var memory := StoreNative(order, buf.a) + StoreNative(order, buf.b)
                  + StoreNative(order, buf.c) + StoreNative(order, buf.d);
      var b := new Byte[16](i requires 0 <= i < 16 => memory[i]);
      assert b[..] == memory;
      ByteReverse(order, b, 4);
      digest := b[..];
      ReversedWord(order, buf.a);
      ReversedWord(order, buf.b);
      ReversedWord(order, buf.c);
      ReversedWord(order, buf.d);
      FourWords(StoreNative(order, buf.a), StoreNative(order, buf.b),
                StoreNative(order, buf.c), StoreNative(order, buf.d));
      assert digest == digest[0..4] + digest[4..8] + digest[8..12] + digest[12..16];
      assert digest[4 * 0..4 * 0 + 4] == StoreLow(buf.a);
      assert digest[4 * 1..4 * 1 + 4] == StoreLow(buf.b);
      assert digest[4 * 2..4 * 2 + 4] == StoreLow(buf.c);
      assert digest[4 * 3..4 * 3 + 4] == StoreLow(buf.d);
    }

    /** The byte-for-byte copy that MD5IntermediateFinal takes. */
    constructor Copy(other: Context)
      requires other.Valid()
      ensures Valid() && message == other.message && fresh(input)
    {
      order := other.order;
      buf := other.buf;
      bitsLow := other.bitsLow;
      bitsHigh := other.bitsHigh;
      var bytes := other.input[..];
      input := new Byte[BLOCK_SIZE](i requires 0 <= i < BLOCK_SIZE => bytes[i]);
      message := other.message;
    }

    /** MD5IntermediateFinal: the digest so far, with the context left as it was. */
    method IntermediateFinal() returns (digest: seq<Byte>)
      requires Valid()
      ensures digest == Md5(message)
    {
      hide Md5, Absorb, LengthLow, LengthHigh, Tail;
      var copy := new Context.Copy(this);
      digest := copy.Final();
    }
  }

  // ----- Whole messages -----

  function Flatten(pieces: seq<seq<Byte>>): seq<Byte>
  {
    if pieces == [] then [] else Flatten(pieces[..|pieces| - 1]) + pieces[|pieces| - 1]
  }

  /** However a message is cut into Update calls, Final gives the digest of the whole, and
      every digest taken on the way is that of the pieces so far. */
  method DigestPieces(order: ByteOrder, pieces: seq<seq<Byte>>)
    returns (digest: seq<Byte>, along: seq<seq<Byte>>)
    ensures digest == Md5(Flatten(pieces))
    ensures |along| == |pieces|
    ensures forall i | 0 <= i < |pieces| :: along[i] == Md5(Flatten(pieces[..i + 1]))
  {
    hide Md5, Absorb, LengthLow, LengthHigh, Tail;
    var context := new Context(order);
    along := [];
    var k := 0;
    while k < |pieces|
      invariant k <= |pieces| && |along| == k
      invariant context.Valid() && fresh(context) && fresh(context.input)
      invariant context.message == Flatten(pieces[..k])
      invariant forall i | 0 <= i < k :: along[i] == Md5(Flatten(pieces[..i + 1]))
    {
      context.Update(pieces[k]);
      assert pieces[..k + 1][..k] == pieces[..k];
      var d := context.IntermediateFinal();
      along := along + [d];
      k := k + 1;
    }
    assert pieces[..k] == pieces;
    digest := context.Final();
  }

  /** MD5Sum. */
  method Sum(order: ByteOrder, data: seq<Byte>) returns (digest: seq<Byte>)
    ensures digest == Md5(data)
  {
    hide Md5, Absorb, LengthLow, LengthHigh, Tail;
    var context := new Context(order);
    context.Update(data);
    assert context.message == data;
    digest := context.Final();
  }

  // ----- Hexadecimal -----

  const HEX_DIGITS: string := "0123456789abcdef"

  function HexDigit(n: nat): char
    requires n < 16
  {
    HEX_DIGITS[n]
  }

  function HexValue(c: char): nat
  {
    if '0' <= c <= '9' then (c - '0') as nat
    else if 'a' <= c <= 'f' then (c - 'a') as nat + 10
    else 0
  }

  function Base16(digest: seq<Byte>): string
  {
    if digest == [] then ""
    else Base16(digest[..|digest| - 1])
         + [HexDigit(digest[|digest| - 1] / 16 % 16), HexDigit(digest[|digest| - 1] % 16)]
  }

  function FromBase16(text: string): seq<Byte>
  {
    if |text| < 2 then []
    else FromBase16(text[..|text| - 2])
         + [16 * HexValue(text[|text| - 2]) + HexValue(text[|text| - 1])]
  }

  lemma HexRoundTrip(n: nat)
    requires n < 16
    ensures HexValue(HexDigit(n)) == n
  {
  }

  /** The text identifies the digest. */
  lemma {:induction false} Base16RoundTrip(digest: seq<Byte>)
    ensures FromBase16(Base16(digest)) == digest
    ensures |Base16(digest)| == 2 * |digest|
  {
    hide HexDigit, HexValue;
    if digest != [] {
      var front, last := digest[..|digest| - 1], digest[|digest| - 1];
      Base16RoundTrip(front);
      HexRoundTrip(last / 16 % 16);
      HexRoundTrip(last % 16);
      assert Base16(digest)[..2 * |front|] == Base16(front);
    }
  }

  /** The digits are '0' to '9' and 'a' to 'f'. */
  lemma HexDigitIs(n: nat)
    requires n < 16
    ensures HexDigit(n) == if n < 10 then '0' + n as char else 'a' + (n - 10) as char
  {
  }

  /** Two digits for every byte, in the order of the bytes, the high one first. */
  lemma {:induction false} Base16At(digest: seq<Byte>, i: nat)
    requires i < |digest|
    ensures |Base16(digest)| == 2 * |digest|
    ensures Base16(digest)[2 * i] == HexDigit(digest[i] / 16)
    ensures Base16(digest)[2 * i + 1] == HexDigit(digest[i] % 16)
  {
    hide HexDigit, HexValue, FromBase16;
    Base16RoundTrip(digest);
    var front, last := digest[..|digest| - 1], digest[|digest| - 1];
    Base16RoundTrip(front);
    assert last / 16 % 16 == last / 16;
    assert Base16(digest) == Base16(front) + [HexDigit(last / 16 % 16), HexDigit(last % 16)];
    hide Base16;
    if i < |front| {
      Base16At(front, i);
    }
  }

  /** MD5DigestToBase16. */
  method DigestToBase16(digest: seq<Byte>) returns (text: string)
    requires |digest| == 16
    ensures text == Base16(digest)
  {
    text := "";
    var i := 0;
    while i < 16
      invariant i <= 16 && text == Base16(digest[..i])
    {
      var a := digest[i];
      text := text + [HexDigit(a / 16 % 16), HexDigit(a % 16)];
      assert digest[..i + 1][..i] == digest[..i];
      i := i + 1;
    }
    assert digest[..16] == digest;
  }
}
