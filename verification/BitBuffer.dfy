/** bitbuffer.cc: reading and writing numbers of any bit count at any bit offset. */
module BitBuffers {
  import opened Bits
  import opened Octets
  import opened Words
  import opened ExponentialGolomb

  // ---------- bytes ----------

  lemma ByteBits(b: nat, j: nat)
    requires b < 256 && j >= 8
    ensures !Bit(b, j)
  {
    assert Pow2(8) == 256;
    NoHighBits(b, 8, j);
  }

  /** The conversion to uint8_t. */
  function ToByte(x: nat): (b: Byte)
    ensures forall j: nat :: Bit(b, j) <==> j < 8 && Bit(x, j)
  {
    var b := Low(x, 8);
    assert forall j: nat :: Bit(b, j) <==> j < 8 && Bit(x, j) by {
      forall j: nat ensures Bit(b, j) <==> j < 8 && Bit(x, j) {
        BitOfLow(x, 8, j);
      }
    }
    assert b < 256 by {
      FewBits(b, 8);
      assert Pow2(8) == 256;
    }
    b
  }

  /** LowestBits: byte & ((1 << bit_count) - 1). */
  function LowestBits(b: Byte, bitCount: nat): nat
    requires bitCount <= 8
  {
    BitOfOnes(bitCount, 0);
    And(b, Shl(1, bitCount) - 1)
  }

  lemma LowestBitsAt(b: Byte, bitCount: nat, j: nat)
    requires bitCount <= 8
    ensures Bit(LowestBits(b, bitCount), j) <==> j < bitCount && Bit(b, j)
  {
    BitOfOnes(bitCount, j);
    BitOfAnd(b, Shl(1, bitCount) - 1, j);
  }

  /** HighestBits: (byte & mask) >> shift. */
  function HighestBits(b: nat, bitCount: nat): nat
    requires bitCount <= 8
  {
    var shift := 8 - bitCount;
    var mask := ToByte(Shl(0xFF, shift));
    Shr(And(b, mask), shift)
  }

  lemma OnesByte(j: nat)
    ensures Bit(0xFF, j) <==> j < 8
  {
    BitOfOnes(8, j);
    assert Shl(1, 8) == 256;
  }

  lemma HighestBitsAt(b: nat, bitCount: nat, j: nat)
    requires bitCount <= 8
    ensures Bit(HighestBits(b, bitCount), j) <==> j < bitCount && Bit(b, j + 8 - bitCount)
  {
    hide Bit, And, Shl, Shr;
    var shift := 8 - bitCount;
    var mask := ToByte(Shl(0xFF, shift));
    BitOfShr(And(b, mask), shift, j);
    BitOfAnd(b, mask, j + shift);
    BitOfShl(0xFF, shift, j + shift);
    OnesByte(j);
  }

  /** HighestByte: val >> 56. */
  function HighestByte(val: nat): Byte {
    ToByte(Shr(val, 56))
  }

  lemma HighestByteAt(val: nat, j: nat)
    ensures Bit(HighestByte(val), j) <==> j < 8 && Bit(val, 56 + j)
  {
    BitOfShr(val, 56, j);
  }

  /** WritePartialByte: the source is not masked, so its bits after the first `sourceCount` must be zero or fall out. */
  function WritePartialByte(source: Byte, sourceCount: nat, target: Byte, offset: nat): Byte
    requires offset < 8 && sourceCount <= 8 - offset
  {
    var mask := Shr(ToByte(Shl(0xFF, 8 - sourceCount)), offset);
    ToByte(Or(And(target, Not(mask, 8)), Shr(source, offset)))
  }

  lemma PartialByteAt(source: Byte, sourceCount: nat, target: Byte, offset: nat, b: nat)
    requires offset < 8 && sourceCount <= 8 - offset && b < 8
    requires sourceCount < 8 - offset ==> forall j: nat | j < 8 - sourceCount :: !Bit(source, j)
    ensures Bit(WritePartialByte(source, sourceCount, target, offset), 7 - b)
            <==> if offset <= b < offset + sourceCount then Bit(source, 7 - (b - offset)) else Bit(target, 7 - b)
  {
    hide Bit, And, Or, Not, Shl, Shr;
    var j := 7 - b;
    var shifted := ToByte(Shl(0xFF, 8 - sourceCount));
    var mask := Shr(shifted, offset);
    BitOfOr(And(target, Not(mask, 8)), Shr(source, offset), j);
    BitOfAnd(target, Not(mask, 8), j);
    BitOfNot(mask, 8, j);
    BitOfShr(shifted, offset, j);
    BitOfShl(0xFF, 8 - sourceCount, j + offset);
    if j + offset >= 8 - sourceCount {
      OnesByte(j + offset - (8 - sourceCount));
    }
    BitOfShr(source, offset, j);
    if j + offset >= 8 {
      ByteBits(source, j + offset);
    }
  }

  /** CountBits. */
  method CountBits(val: nat) returns (bitCount: nat)
    ensures bitCount == BitLength(val)
  {
    bitCount := 0;
    var v := val;
    while v != 0
      invariant bitCount + BitLength(v) == BitLength(val)
    {
      bitCount := bitCount + 1;
      v := v / 2;
    }
  }

  // ---------- the bits of a buffer ----------

  /** All bits of a buffer, the highest bit of each byte first. */
  ghost function BitsOf(bytes: seq<Byte>): (bits: seq<bool>)
    ensures |bits| == 8 * |bytes|
  {
    seq(8 * |bytes|, p requires 0 <= p < 8 * |bytes| => Bit(bytes[p / 8], 7 - p % 8))
  }

  lemma BitsOfAt(bytes: seq<Byte>, i: nat, b: nat)
    requires i < |bytes| && b < 8
    ensures BitsOf(bytes)[8 * i + b] <==> Bit(bytes[i], 7 - b)
  {
    assert (8 * i + b) / 8 == i && (8 * i + b) % 8 == b;
  }

  /** x has the bits from `start` to `end`, the last one lowest. */
  ghost predicate ReadsAs(x: nat, bits: seq<bool>, start: nat, end: nat)
    requires start <= end <= |bits|
  {
    forall j: nat :: Bit(x, j) <==> j < end - start && bits[end - 1 - j]
  }

  lemma ReadsAsNumber(x: nat, bits: seq<bool>, start: nat, end: nat)
    requires start <= end <= |bits| && ReadsAs(x, bits, start, end)
    ensures x == Number(bits[start..end])
  {
    hide Bit;
    IsNumber(x, bits[start..end]);
  }

  /** The end of a byte, from the bit at `offset` on. */
  lemma EndOfByte(bytes: seq<Byte>, i: nat, offset: nat)
    requires i < |bytes| && offset < 8
    ensures ReadsAs(LowestBits(bytes[i], 8 - offset), BitsOf(bytes), 8 * i + offset, 8 * i + 8)
  {
    hide Bit, LowestBits, BitsOf;
    var low := LowestBits(bytes[i], 8 - offset);
    forall j: nat ensures Bit(low, j) <==> j < 8 - offset && BitsOf(bytes)[8 * i + 7 - j] {
      LowestBitsAt(bytes[i], 8 - offset, j);
      if j < 8 - offset {
        BitsOfAt(bytes, i, 7 - j);
      }
    }
  }

  /** The first n bits of a byte. */
  lemma StartOfByte(bytes: seq<Byte>, i: nat, n: nat)
    requires i < |bytes| && n <= 8
    ensures ReadsAs(HighestBits(bytes[i], n), BitsOf(bytes), 8 * i, 8 * i + n)
  {
    hide Bit, HighestBits, BitsOf;
    forall j: nat ensures Bit(HighestBits(bytes[i], n), j) <==> j < n && BitsOf(bytes)[8 * i + n - 1 - j] {
      HighestBitsAt(bytes[i], n, j);
      if j < n {
        BitsOfAt(bytes, i, n - 1 - j);
      }
    }
  }

  lemma WholeByte(bytes: seq<Byte>, i: nat)
    requires i < |bytes|
    ensures ReadsAs(bytes[i], BitsOf(bytes), 8 * i, 8 * i + 8)
  {
    hide Bit, BitsOf;
    forall j: nat ensures Bit(bytes[i], j) <==> j < 8 && BitsOf(bytes)[8 * i + 7 - j] {
      if j < 8 {
        BitsOfAt(bytes, i, 7 - j);
      } else {
        ByteBits(bytes[i], j);
      }
    }
  }

  /** n bits in the middle of a byte, taken from what is left of it from the bit at `offset` on. */
  lemma MiddleOfByte(bytes: seq<Byte>, i: nat, offset: nat, n: nat)
    requires i < |bytes| && offset + n <= 8 && offset < 8
    ensures ReadsAs(HighestBits(LowestBits(bytes[i], 8 - offset), offset + n), BitsOf(bytes),
                    8 * i + offset, 8 * i + offset + n)
  {
    hide Bit, HighestBits, LowestBits, BitsOf;
    var low := LowestBits(bytes[i], 8 - offset);
    var middle := HighestBits(low, offset + n);
    forall j: nat ensures Bit(middle, j) <==> j < n && BitsOf(bytes)[8 * i + offset + n - 1 - j] {
      HighestBitsAt(low, offset + n, j);
      LowestBitsAt(bytes[i], 8 - offset, j + 8 - (offset + n));
      if j < n {
        BitsOfAt(bytes, i, offset + n - 1 - j);
      }
    }
  }

  /** The step of PeekBits: (bits << n) | y, in 32 bits. */
  lemma ShiftIn(x: nat, y: nat, bits: seq<bool>, start: nat, middle: nat, end: nat)
    requires start <= middle <= end <= |bits| && end - start <= 32
    requires ReadsAs(x, bits, start, middle) && ReadsAs(y, bits, middle, end)
    ensures ReadsAs(Or(Low(Shl(x, end - middle), 32), y), bits, start, end)
  {
    hide Bit, Or, Low, Shl;
    var n := end - middle;
    forall j: nat
      ensures Bit(Or(Low(Shl(x, n), 32), y), j) <==> j < end - start && bits[end - 1 - j]
    {
      BitOfOr(Low(Shl(x, n), 32), y, j);
      BitOfLow(Shl(x, n), 32, j);
      BitOfShl(x, n, j);
      if j >= n {
        assert Bit(x, j - n) <==> j - n < middle - start && bits[middle - 1 - (j - n)];
      }
    }
  }

  // ---------- the bytes as one number ----------

  /** The number whose bytes these are, the highest first. */
  function BigEndian(bytes: seq<Byte>): nat {
    if |bytes| == 0 then 0 else 256 * BigEndian(bytes[..|bytes| - 1]) + bytes[|bytes| - 1] as int
  }

  lemma {:induction false} NumberJoin(a: seq<bool>, b: seq<bool>)
    ensures Number(a + b) == Shl(Number(a), |b|) + Number(b)
  {
    if |b| == 0 {
      assert a + b == a;
    } else {
      NumberJoin(a, b[..|b| - 1]);
      assert (a + b)[..|a + b| - 1] == a + b[..|b| - 1];
    }
  }

  lemma {:induction false} NumberOfBytes(bytes: seq<Byte>)
    ensures Number(BitsOf(bytes)) == BigEndian(bytes)
  {
    hide BitsOf, Number, Shl;
    var n := |bytes| - 1;
    if |bytes| == 0 {
      EmptyNumber(BitsOf(bytes));
    } else {
      NumberOfBytes(bytes[..n]);
      LastByte(bytes);
      WholeByte(bytes, n);
      ReadsAsNumber(bytes[n], BitsOf(bytes), 8 * n, 8 * n + 8);
      assert BitsOf(bytes)[8 * n..8 * n + 8] == BitsOf(bytes)[8 * n..];
      NumberJoin(BitsOf(bytes[..n]), BitsOf(bytes)[8 * n..]);
      ShlEight(BigEndian(bytes[..n]));
    }
  }

  lemma EmptyNumber(bits: seq<bool>)
    requires |bits| == 0
    ensures Number(bits) == 0
  {
  }

  lemma ShlEight(x: nat)
    ensures Shl(x, 8) == 256 * x
  {
    ShlIsProduct(x, 8);
    assert Pow2(8) == 256;
  }

  lemma LastByte(bytes: seq<Byte>)
    requires |bytes| > 0
    ensures BitsOf(bytes) == BitsOf(bytes[..|bytes| - 1]) + BitsOf(bytes)[8 * (|bytes| - 1)..]
  {
  }

  /**
   * What reading n bits at offset p means: the whole buffer is one big-endian number, of which the bits behind them are
   * shifted out and the bits before them are cut off.
   */
  lemma NumberInBuffer(bytes: seq<Byte>, p: nat, n: nat)
    requires p + n <= 8 * |bytes|
    ensures Number(BitsOf(bytes)[p..p + n]) == Low(Shr(BigEndian(bytes), 8 * |bytes| - p - n), n)
  {
    hide BitsOf, Number, Shl, Shr, Low, Pow2, BigEndian;
    var bits := BitsOf(bytes);
    NumberOfBytes(bytes);
    var before, here, behind := bits[..p], bits[p..p + n], bits[p + n..];
    assert bits == (before + here) + behind;
    NumberJoin(before + here, behind);
    NumberJoin(before, here);
    ToBitsOfNumber(behind);
    ToBitsOfNumber(here);
    ShrInBlock(Number(before + here), |behind|, Number(behind));
    LowInBlock(Number(before), n, Number(here));
  }

  // ---------- what is written ----------

  /** The bit at position q after the lowest n bits of val have been written at p. */
  ghost predicate Target(bytes: seq<Byte>, p: nat, val: nat, n: nat, q: nat)
    requires q < 8 * |bytes|
  {
    if p <= q < p + n then Bit(val, n - 1 - (q - p)) else BitsOf(bytes)[q]
  }

  /** Bit b of byte i, from the top, is as it should be. */
  ghost predicate RightBit(byte: Byte, bytes: seq<Byte>, p: nat, val: nat, n: nat, i: nat, b: nat)
    requires i < |bytes| && b < 8
  {
    Bit(byte, 7 - b) <==> Target(bytes, p, val, n, 8 * i + b)
  }

  /** The bytes below k are as they should be, the others as they were. */
  ghost predicate Written(now: seq<Byte>, before: seq<Byte>, p: nat, val: nat, n: nat, k: nat) {
    && |now| == |before| && k <= |before|
    && (forall i: nat | k <= i < |now| :: now[i] == before[i])
    && forall i: nat, b: nat | i < k && b < 8 :: RightBit(now[i], before, p, val, n, i, b)
  }

  lemma WrittenSize(now: seq<Byte>, before: seq<Byte>, p: nat, val: nat, n: nat, k: nat)
    requires Written(now, before, p, val, n, k)
    ensures |now| == |before|
  {
  }

  lemma NothingWritten(bytes: seq<Byte>, p: nat, val: nat, n: nat, k: nat)
    requires k <= |bytes| && 8 * k <= p
    ensures Written(bytes, bytes, p, val, n, k)
  {
    hide BitsOf;
    forall i: nat, b: nat | i < k && b < 8 ensures RightBit(bytes[i], bytes, p, val, n, i, b) {
      BitsOfAt(bytes, i, b);
    }
  }

  lemma AllWritten(now: seq<Byte>, before: seq<Byte>, p: nat, val: nat, n: nat, k: nat)
    requires Written(now, before, p, val, n, k) && p + n <= 8 * k
    ensures BitsOf(now) == BitsOf(before)[..p] + ToBits(val, n) + BitsOf(before)[p + n..]
  {
    hide Bit, BitsOf, ToBits;
    var bits := BitsOf(before)[..p] + ToBits(val, n) + BitsOf(before)[p + n..];
    forall q: nat | q < 8 * |now| ensures BitsOf(now)[q] == bits[q] {
      WrittenBit(now, before, p, val, n, k, q / 8, q % 8);
      if p <= q < p + n {
        ToBitsAt(val, n, q - p);
      }
    }
  }

  lemma WrittenBit(now: seq<Byte>, before: seq<Byte>, p: nat, val: nat, n: nat, k: nat, i: nat, b: nat)
    requires Written(now, before, p, val, n, k) && p + n <= 8 * k && i < |now| && b < 8
    ensures BitsOf(now)[8 * i + b] == Target(before, p, val, n, 8 * i + b)
  {
    hide Bit, BitsOf;
    BitsOfAt(now, i, b);
    BitsOfAt(before, i, b);
    if i < k {
      assert RightBit(now[i], before, p, val, n, i, b);
    }
  }

  /** The highest m bits of a word of 64 bits are the lowest m bits of val, and the others are zero. */
  ghost predicate AtTop(word: nat, val: nat, m: nat)
    requires m <= 64
  {
    forall j: nat :: Bit(word, j) <==> 64 - m <= j < 64 && Bit(val, j - (64 - m))
  }

  lemma MoveToTop(val: nat, m: nat)
    requires m <= 64
    ensures AtTop(Low(Shl(val, 64 - m), 64), val, m)
  {
    hide Bit, Low, Shl;
    var word := Low(Shl(val, 64 - m), 64);
    forall j: nat ensures Bit(word, j) <==> 64 - m <= j < 64 && Bit(val, j - (64 - m)) {
      BitOfLow(Shl(val, 64 - m), 64, j);
      BitOfShl(val, 64 - m, j);
    }
  }

  lemma DropFromTop(word: nat, val: nat, m: nat, s: nat)
    requires s <= m <= 64 && AtTop(word, val, m)
    ensures AtTop(Low(Shl(word, s), 64), val, m - s)
  {
    hide Bit, Low, Shl;
    forall j: nat
      ensures Bit(Low(Shl(word, s), 64), j) <==> 64 - (m - s) <= j < 64 && Bit(val, j - (64 - (m - s)))
    {
      BitOfLow(Shl(word, s), 64, j);
      BitOfShl(word, s, j);
      if j >= s {
        assert Bit(word, j - s) <==> 64 - m <= j - s < 64 && Bit(val, j - s - (64 - m));
      }
    }
  }

  /** A byte into which the next bits of val are written, from the bit at `offset` on. */
  lemma NextByte(now: seq<Byte>, before: seq<Byte>, p: nat, val: nat, n: nat, k: nat, word: nat, m: nat, c: nat)
    requires Written(now, before, p, val, n, k) && k < |before|
    requires m <= n && m <= 64 && AtTop(word, val, m)
    requires var at := p + (n - m); 8 * k <= at < 8 * k + 8 && c == if m <= 8 * k + 8 - at then m else 8 * k + 8 - at
    requires p + (n - m) > 8 * k ==> m == n
    ensures var at := p + (n - m);
            var byte := WritePartialByte(HighestByte(word), c, now[k], at - 8 * k);
            Written(now[k := byte], before, p, val, n, k + 1)
  {
    hide Bit, BitsOf, HighestByte, WritePartialByte;
    var at := p + (n - m);
    var offset, source := at - 8 * k, HighestByte(word);
    var byte := WritePartialByte(source, c, now[k], offset);
    forall b: nat | b < 8 ensures RightBit(byte, before, p, val, n, k, b) {
      forall j: nat | j < 8 - c ensures c < 8 - offset ==> !Bit(source, j) {
        HighestByteAt(word, j);
      }
      PartialByteAt(source, c, now[k], offset, b);
      BitsOfAt(before, k, b);
      if offset <= b < offset + c {
        HighestByteAt(word, 7 - (b - offset));
        assert Bit(word, 63 - (b - offset)) <==> Bit(val, m - 1 - (b - offset));
      }
    }
  }

  /** A whole byte of val. */
  lemma NextWholeByte(now: seq<Byte>, before: seq<Byte>, p: nat, val: nat, n: nat, k: nat, word: nat, m: nat)
    requires Written(now, before, p, val, n, k) && k < |before|
    requires 8 <= m <= n && m <= 64 && AtTop(word, val, m) && p + (n - m) == 8 * k
    ensures Written(now[k := HighestByte(word)], before, p, val, n, k + 1)
  {
    hide Bit, BitsOf, HighestByte;
    forall b: nat | b < 8 ensures RightBit(HighestByte(word), before, p, val, n, k, b) {
      HighestByteAt(word, 7 - b);
      assert Bit(word, 63 - b) <==> Bit(val, m - 1 - b);
    }
  }

  // ---------- the buffer ----------

  /** BitBuffer and BitBufferWriter, which share their offset. */
  class BitBuffer {
    const bytes: array<Byte>
    var byteOffset: nat
    var bitOffset: nat

    predicate Valid()
      reads this
    {
      byteOffset <= bytes.Length && bitOffset < 8 && (byteOffset == bytes.Length ==> bitOffset == 0)
    }

    /** The offset in bits. */
    ghost function Offset(): nat
      reads this
    {
      8 * byteOffset + bitOffset
    }

    /** The bits that are still to be read. */
    ghost function Rest(): (bits: seq<bool>)
      requires Valid()
      reads this, bytes
    {
      BitsOf(bytes[..])[Offset()..]
    }

    constructor (buffer: array<Byte>)
      ensures bytes == buffer && Valid() && Offset() == 0
    {
      bytes, byteOffset, bitOffset := buffer, 0, 0;
    }

    function RemainingBitCount(): (n: int)
      requires Valid()
      reads this
      ensures n == 8 * bytes.Length - (8 * byteOffset + bitOffset) && n >= 0
    {
      (bytes.Length - byteOffset) * 8 - bitOffset
    }

    /** PeekBits. At the end of the buffer it must not be asked for no bits at all, as it looks at the current byte. */
    method PeekBits(bitCount: nat) returns (ok: bool, val: nat)
      requires Valid() && (bitCount > 0 || RemainingBitCount() > 0)
      ensures ok <==> bitCount <= RemainingBitCount() && bitCount <= 32
      ensures ok ==> val == Number(BitsOf(bytes[..])[Offset()..Offset() + bitCount])
    {
      hide Bit, BitsOf, LowestBits, HighestBits, Or, Low, Shl, Number, ReadsAs;
      if bitCount > RemainingBitCount() || bitCount > 32 {
        return false, 0;
      }
      ok := true;
      ghost var all, start := BitsOf(bytes[..]), Offset();
      var remaining := 8 - bitOffset;
      val := LowestBits(bytes[byteOffset], remaining);
      EndOfByte(bytes[..], byteOffset, bitOffset);
      if bitCount < remaining {
        val := HighestBits(val, bitOffset + bitCount);
        MiddleOfByte(bytes[..], byteOffset, bitOffset, bitCount);
        ReadsAsNumber(val, all, start, start + bitCount);
        return;
      }
      var i := byteOffset + 1;
      var left := bitCount - remaining;
      while left >= 8
        invariant 0 <= left <= bitCount && 8 * i + left == start + bitCount
        invariant ReadsAs(val, all, start, 8 * i)
      {
        WholeByte(bytes[..], i);
        ShiftIn(val, bytes[i], all, start, 8 * i, 8 * i + 8);
        val := Or(Low(Shl(val, 8), 32), bytes[i]);
        i := i + 1;
        left := left - 8;
      }
      if left > 0 {
        StartOfByte(bytes[..], i, left);
        ShiftIn(val, HighestBits(bytes[i], left), all, start, 8 * i, 8 * i + left);
        val := Low(Shl(val, left), 32);
        val := Or(val, HighestBits(bytes[i], left));
      }
      ReadsAsNumber(val, all, start, start + bitCount);
    }

    method ConsumeBits(bitCount: nat) returns (ok: bool)
      requires Valid()
      modifies this
      ensures Valid() && (ok <==> bitCount <= old(RemainingBitCount()))
      ensures Offset() == old(Offset()) + (if ok then bitCount else 0)
      ensures ok ==> Rest() == old(Rest())[bitCount..]
    {
      hide BitsOf;
      if bitCount > RemainingBitCount() {
        return false;
      }
      byteOffset := byteOffset + (bitOffset + bitCount) / 8;
      bitOffset := (bitOffset + bitCount) % 8;
      ok := true;
    }

    method ReadBits(bitCount: nat) returns (ok: bool, val: nat)
      requires Valid() && (bitCount > 0 || RemainingBitCount() > 0)
      modifies this
      ensures Valid() && (ok <==> bitCount <= old(RemainingBitCount()) && bitCount <= 32)
      ensures ok ==> val == Number(old(Rest())[..bitCount])
      ensures ok ==> val == Low(Shr(BigEndian(bytes[..]), old(RemainingBitCount()) - bitCount), bitCount)
      ensures Offset() == old(Offset()) + (if ok then bitCount else 0)
    {
      hide BitsOf, Number, BigEndian, Low, Shr;
      ok, val := PeekBits(bitCount);
      if ok {
        NumberInBuffer(bytes[..], Offset(), bitCount);
        assert BitsOf(bytes[..])[Offset()..Offset() + bitCount] == Rest()[..bitCount];
        ok := ConsumeBits(bitCount);
      }
    }

    /** Seek: anywhere in the buffer, or to its end. */
    method Seek(newByteOffset: nat, newBitOffset: nat) returns (ok: bool)
      requires Valid()
      modifies this
      ensures Valid() && (ok <==> newBitOffset < 8 && 8 * newByteOffset + newBitOffset <= 8 * bytes.Length)
      ensures ok ==> byteOffset == newByteOffset && bitOffset == newBitOffset
      ensures !ok ==> byteOffset == old(byteOffset) && bitOffset == old(bitOffset)
    {
      if newByteOffset > bytes.Length || newBitOffset > 7 || (newByteOffset == bytes.Length && newBitOffset > 0) {
        return false;
      }
      byteOffset, bitOffset := newByteOffset, newBitOffset;
      ok := true;
    }

    /** WriteBits: the addressed bits are replaced and no others. */
    method WriteBits(val: nat, bitCount: nat) returns (ok: bool)
      requires Valid() && 1 <= bitCount <= 64
      modifies this, bytes
      ensures Valid() && (ok <==> bitCount <= old(RemainingBitCount()))
      ensures Offset() == old(Offset()) + (if ok then bitCount else 0)
      ensures ok ==> BitsOf(bytes[..]) == old(BitsOf(bytes[..])[..Offset()]) + ToBits(val, bitCount)
                                          + old(BitsOf(bytes[..])[Offset() + bitCount..])
      ensures !ok ==> bytes[..] == old(bytes[..])
    {
      hide BitsOf, ToBits, Rest;
      if bitCount > RemainingBitCount() {
        return false;
      }
      Store(val, bitCount);
      ok := ConsumeBits(bitCount);
    }

    /** WriteBits without its checks: the bits are stored from the offset on. */
    method Store(val: nat, bitCount: nat)
      requires Valid() && 1 <= bitCount <= 64 && bitCount <= RemainingBitCount()
      modifies bytes
      ensures Valid()
      ensures BitsOf(bytes[..])
              == old(BitsOf(bytes[..])[..Offset()]) + ToBits(val, bitCount) + old(BitsOf(bytes[..])[Offset() + bitCount..])
    {
      hide BitsOf, HighestByte, Low, Shl, ToBits, AtTop, Written, Rest;
      ghost var before, p := bytes[..], Offset();
      var remaining := 8 - bitOffset;
      var first := if bitCount < remaining then bitCount else remaining;
      var word := StoreFirst(val, bitCount, first, before, p);
      if bitCount <= remaining {
        AllWritten(bytes[..], before, p, val, bitCount, byteOffset + 1);
        return;
      }
      DropFromTop(word, val, bitCount, first);
      word := Low(Shl(word, first), 64);
      ghost var end := WriteRest(byteOffset + 1, bitCount - first, word, before, p, val, bitCount);
      AllWritten(bytes[..], before, p, val, bitCount, end);
    }

    /** The bits that still go to the byte at the offset. */
    method StoreFirst(val: nat, bitCount: nat, first: nat, ghost before: seq<Byte>, ghost p: nat) returns (word: nat)
      requires Valid() && 1 <= bitCount <= 64 && bitCount <= RemainingBitCount() && before == bytes[..] && p == Offset()
      requires first == if bitCount < 8 - bitOffset then bitCount else 8 - bitOffset
      modifies bytes
      ensures AtTop(word, val, bitCount) && Written(bytes[..], before, p, val, bitCount, byteOffset + 1)
    {
      hide BitsOf, HighestByte, WritePartialByte, Low, Shl, AtTop, Written, Rest;
      word := Low(Shl(val, 64 - bitCount), 64);
      MoveToTop(val, bitCount);
      NothingWritten(before, p, val, bitCount, byteOffset);
      NextByte(bytes[..], before, p, val, bitCount, byteOffset, word, bitCount, first);
      bytes[byteOffset] := WritePartialByte(HighestByte(word), first, bytes[byteOffset], bitOffset);
    }

    /** The end of WriteBits: whole bytes, and what is left over at the start of the last one. */
    method WriteRest(first: nat, count: nat, top: nat, ghost before: seq<Byte>, ghost p: nat, ghost val: nat, ghost n: nat)
      returns (ghost end: nat)
      requires count <= n <= 64 && 8 * first + count == p + n && p + n <= 8 * bytes.Length
      requires Written(bytes[..], before, p, val, n, first) && AtTop(top, val, count)
      modifies bytes
      ensures Written(bytes[..], before, p, val, n, end) && p + n <= 8 * end
    {
      hide HighestByte, WritePartialByte, Low, Shl, AtTop, Written, Rest;
      var word, i, left := top, first, count;
      while left >= 8
        invariant 0 <= left <= count && 8 * i + left == p + n && i <= bytes.Length
        invariant Written(bytes[..], before, p, val, n, i) && AtTop(word, val, left)
        modifies bytes
      {
        WrittenSize(bytes[..], before, p, val, n, i);
        NextWholeByte(bytes[..], before, p, val, n, i, word, left);
        bytes[i] := HighestByte(word);
        DropFromTop(word, val, left, 8);
        word := Low(Shl(word, 8), 64);
        i := i + 1;
        left := left - 8;
      }
      WrittenSize(bytes[..], before, p, val, n, i);
      if left > 0 {
        NextByte(bytes[..], before, p, val, n, i, word, left, left);
        bytes[i] := WritePartialByte(HighestByte(word), left, bytes[i], 0);
        i := i + 1;
      }
      end := i;
    }

    /** ReadExponentialGolomb: if the next bits are no code word, nothing is consumed. */
    method ReadExponentialGolomb() returns (ok: bool, val: nat)
      requires Valid()
      modifies this
      ensures Valid() && (ok <==> Decodable(old(Rest())))
      ensures ok ==> val == Decoded(old(Rest())) && Offset() == old(Offset()) + CodeLength(old(Rest()))
      ensures !ok ==> Offset() == old(Offset())
    {
      hide BitsOf, Number, LeadingZeros, Decoded;
      var originalByteOffset, originalBitOffset := byteOffset, bitOffset;
      ghost var rest := Rest();
      var zeroBitCount := SkipZeros();
      var valueBitCount := zeroBitCount + 1;
      ok, val := false, 0;
      ghost var last := Rest();
      if valueBitCount <= 32 {
        ok, val := ReadBits(valueBitCount);
      }
      if !ok {
        var found := Seek(originalByteOffset, originalBitOffset);
        assert found;
        return;
      }
      ValueRead(rest, last, val);
      val := val - 1;
    }

    /** ReadExponentialGolomb's loop, which counts the zeros it skips. */
    method SkipZeros() returns (zeroBitCount: nat)
      requires Valid()
      modifies this
      ensures Valid() && zeroBitCount == LeadingZeros(old(Rest()))
      ensures Offset() == old(Offset()) + zeroBitCount && Rest() == old(Rest())[zeroBitCount..]
    {
      hide BitsOf, Number, LeadingZeros;
      ghost var start, rest := Offset(), Rest();
      zeroBitCount := 0;
      var more, bit := PeekBit();
      while more && bit == 0
        invariant Valid() && Offset() == start + zeroBitCount && zeroBitCount <= |rest|
        invariant Rest() == rest[zeroBitCount..]
        invariant LeadingZeros(rest) == zeroBitCount + LeadingZeros(Rest())
        invariant more <==> |Rest()| > 0
        invariant more ==> bit == Number([Rest()[0]])
        decreases |rest| - zeroBitCount
      {
        LeadingZero(Rest());
        zeroBitCount := zeroBitCount + 1;
        var consumed := ConsumeBits(1);
        more, bit := PeekBit();
      }
      NoLeadingZero(Rest());
    }

    /** PeekBits for a single bit. */
    method PeekBit() returns (more: bool, bit: nat)
      requires Valid()
      ensures more <==> |Rest()| > 0
      ensures more ==> bit == Number([Rest()[0]])
    {
      hide BitsOf, Number;
      more, bit := PeekBits(1);
      if more {
        assert BitsOf(bytes[..])[Offset()..Offset() + 1] == [Rest()[0]];
      }
    }

    /** ReadSignedExponentialGolomb. */
    method ReadSignedExponentialGolomb() returns (ok: bool, val: int)
      requires Valid()
      modifies this
      ensures Valid() && (ok <==> Decodable(old(Rest())))
      ensures ok ==> INT32_MIN < val <= INT32_MAX && SignedWord(val) <= old(Rest())
      ensures forall s: int | INT32_MIN < s <= INT32_MAX && SignedWord(s) <= old(Rest()) :: ok && val == s
      ensures [true] <= old(Rest()) ==> ok && val == 0
      ensures [false, true, false] <= old(Rest()) ==> ok && val == 1
      ensures [false, true, true] <= old(Rest()) ==> ok && val == -1
      ensures Offset() == old(Offset()) + (if ok then |SignedWord(val)| else 0)
    {
      hide Number, LeadingZeros, BitsOf, Decoded, Decodable, CodeLength, SignedWord;
      ghost var bits := Rest();
      SignedTable();
      forall s: int | INT32_MIN < s <= INT32_MAX && SignedWord(s) <= bits
        ensures Decodable(bits) && SignedOf(Decoded(bits)) == s
      {
        SignedPrefix(s, bits);
      }
      var unsigned: int;
      ok, unsigned := ReadExponentialGolomb();
      if !ok {
        return false, 0;
      }
      SignedDecoded(bits);
      val := if unsigned % 2 == 0 then -(unsigned / 2) else (unsigned + 1) / 2;
    }

    /** WriteExponentialGolomb. */
    method WriteExponentialGolomb(val: nat) returns (ok: bool)
      requires Valid() && val <= UINT32_MAX
      modifies this, bytes
      ensures Valid() && (ok <==> val < UINT32_MAX && |Encode(val)| <= old(RemainingBitCount()))
      ensures Offset() == old(Offset()) + (if ok then |Encode(val)| else 0)
      ensures ok ==> BitsOf(bytes[..]) == old(BitsOf(bytes[..])[..Offset()]) + Encode(val)
                                          + old(BitsOf(bytes[..])[Offset() + |Encode(val)|..])
      ensures !ok ==> bytes[..] == old(bytes[..])
    {
      hide BitsOf, Encode, ToBits, BitLength;
      if val == UINT32_MAX {
        return false;
      }
      EncodeIsPadded(val);
      var bitCount := CountBits(val + 1);
      ok := WriteBits(val + 1, bitCount * 2 - 1);
    }

    /** WriteSignedExponentialGolomb. */
    method WriteSignedExponentialGolomb(val: int) returns (ok: bool)
      requires Valid() && INT32_MIN <= val <= INT32_MAX
      modifies this, bytes
      ensures Valid() && (ok <==> val > INT32_MIN && |SignedWord(val)| <= old(RemainingBitCount()))
      ensures Offset() == old(Offset()) + (if ok then |SignedWord(val)| else 0)
      ensures ok ==> BitsOf(bytes[..]) == old(BitsOf(bytes[..])[..Offset()]) + SignedWord(val)
                                          + old(BitsOf(bytes[..])[Offset() + |SignedWord(val)|..])
      ensures ok && val == 1 ==> BitsOf(bytes[..])[old(Offset())..Offset()] == [false, true, false]
      ensures !ok ==> bytes[..] == old(bytes[..])
    {
      hide BitsOf, Encode, SignedWord;
      SignedTable();
      SignedCodeWord(val);
      if val == 0 {
        ok := WriteExponentialGolomb(0);
      } else if val > 0 {
        ok := WriteExponentialGolomb(val * 2 - 1);
      } else {
        if val == INT32_MIN {
          return false;
        }
        ok := WriteExponentialGolomb(-val * 2);
      }
    }

    /** A value of any kind. */
    method WriteItem(item: Item) returns (ok: bool)
      requires Valid() && ValidItem(item)
      modifies this, bytes
      ensures Valid() && (ok <==> |EncodeItem(item)| <= old(RemainingBitCount()))
      ensures Offset() == old(Offset()) + (if ok then |EncodeItem(item)| else 0)
      ensures ok ==> BitsOf(bytes[..]) == old(BitsOf(bytes[..])[..Offset()]) + EncodeItem(item)
                                          + old(BitsOf(bytes[..])[Offset() + |EncodeItem(item)|..])
    {
      hide BitsOf, Encode, ToBits, SignedWord;
      match item
      case Plain(value, count) => ok := WriteBits(value, count);
      case Unsigned(value) => ok := WriteExponentialGolomb(value);
      case Signed(value) => ok := WriteSignedExponentialGolomb(value);
    }

    /** A value of a known kind, if it is there. */
    method ReadItem(kind: Kind) returns (ok: bool, item: Item)
      requires Valid() && (kind.PlainKind? ==> kind.count > 0)
      modifies this
      ensures Valid()
      ensures forall like: Item | ValidItem(like) && KindOf(like) == kind && EncodeItem(like) <= old(Rest()) ::
                ok && item == like && Offset() == old(Offset()) + |EncodeItem(like)|
    {
      hide BitsOf, Encode, ToBits, Decodable, Decoded, CodeLength, SignedWord;
      ghost var bits := Rest();
      match kind {
        case PlainKind(count) =>
          var value;
          ok, value := ReadBits(count);
          item := Plain(value, count);
        case UnsignedKind =>
          var value;
          ok, value := ReadExponentialGolomb();
          item := Unsigned(value);
        case SignedKind =>
          var value;
          ok, value := ReadSignedExponentialGolomb();
          item := Signed(value);
      }
      forall like: Item | ValidItem(like) && KindOf(like) == kind && EncodeItem(like) <= bits
        ensures ok && item == like && Offset() == old(Offset()) + |EncodeItem(like)|
      {
        match like
        case Plain(value, count) =>
          assert bits[..count] == ToBits(value, count);
          NumberOfToBits(value, count);
        case Unsigned(value) =>
          DecodePrefix(value, bits);
        case Signed(_) =>
      }
    }
  }

  /** What is read after the zeros is one more than the value. */
  lemma ValueRead(rest: seq<bool>, last: seq<bool>, val: nat)
    requires last == rest[LeadingZeros(rest)..] && Decodable(rest)
    requires val == Number(last[..LeadingZeros(rest) + 1])
    ensures val == Decoded(rest) + 1
  {
    hide Number, LeadingZeros;
    var z := LeadingZeros(rest);
    assert last[..z + 1] == rest[z..2 * z + 1];
  }

  /** Writes a script, as far as there is room. */
  method WriteAll(b: BitBuffer, items: seq<Item>) returns (ok: bool)
    requires b.Valid() && forall i | 0 <= i < |items| :: ValidItem(items[i])
    modifies b, b.bytes
    ensures b.Valid() && (ok <==> |EncodeAll(items)| <= old(b.RemainingBitCount()))
    ensures ok ==> b.Offset() == old(b.Offset()) + |EncodeAll(items)|
    ensures ok ==> BitsOf(b.bytes[..]) == old(BitsOf(b.bytes[..])[..b.Offset()]) + EncodeAll(items)
                                          + old(BitsOf(b.bytes[..])[b.Offset() + |EncodeAll(items)|..])
  {
    hide BitsOf, EncodeItem, ValidItem, EncodeAll;
    ghost var before, p := BitsOf(b.bytes[..]), b.Offset();
    ok := true;
    EncodeNone();
    for i := 0 to |items|
      invariant ok && b.Valid() && b.Offset() == p + |EncodeAll(items[..i])|
      invariant BitsOf(b.bytes[..]) == before[..p] + EncodeAll(items[..i]) + before[b.Offset()..]
    {
      EncodeAllSplit(items, i);
      ghost var now := BitsOf(b.bytes[..]);
      ok := b.WriteItem(items[i]);
      if !ok {
        return;
      }
      Continued(before, p, EncodeAll(items[..i]), EncodeItem(items[i]), now, BitsOf(b.bytes[..]));
    }
    assert items[..|items|] == items;
  }

  /** Replacing the bits after those that have been replaced already. */
  lemma Continued(before: seq<bool>, p: nat, done: seq<bool>, next: seq<bool>, now: seq<bool>, now': seq<bool>)
    requires p + |done| + |next| <= |before| && now == before[..p] + done + before[p + |done|..]
    requires now' == now[..p + |done|] + next + now[p + |done| + |next|..]
    ensures now' == before[..p] + (done + next) + before[p + |done| + |next|..]
  {
    assert now[..p + |done|] == before[..p] + done;
    assert now[p + |done| + |next|..] == before[p + |done| + |next|..];
  }

  lemma NextInFront(before: seq<bool>, next: seq<bool>, all: seq<bool>, bits: seq<bool>)
    requires before + next <= all <= bits
    ensures next <= bits[|before|..] && bits[|before|..][|next|..] == bits[|before + next|..]
  {
    assert bits[..|before + next|] == before + next;
    assert bits[|before|..][..|next|] == (before + next)[|before|..];
  }

  /** Reads a script that is there, knowing the kinds of its values. */
  method ReadAll(b: BitBuffer, kinds: seq<Kind>, ghost items: seq<Item>) returns (ok: bool, read: seq<Item>)
    requires b.Valid() && |kinds| == |items| && EncodeAll(items) <= b.Rest()
    requires forall i | 0 <= i < |items| :: ValidItem(items[i]) && KindOf(items[i]) == kinds[i]
    modifies b
    ensures ok && read == items && b.Valid() && b.Offset() == old(b.Offset()) + |EncodeAll(items)|
  {
    hide BitsOf, EncodeItem, ValidItem, EncodeAll;
    ghost var p, bits := b.Offset(), b.Rest();
    ok, read := true, [];
    EncodeNone();
    for i := 0 to |kinds|
      invariant ok && b.Valid() && b.Offset() == p + |EncodeAll(items[..i])| && read == items[..i]
      invariant b.Rest() == bits[|EncodeAll(items[..i])|..]
    {
      EncodeAllSplit(items, i);
      NextInFront(EncodeAll(items[..i]), EncodeItem(items[i]), EncodeAll(items), bits);
      var item;
      KnownCount(items[i]);
      ok, item := b.ReadItem(kinds[i]);
      read := read + [item];
    }
    assert items[..|items|] == items;
  }

  /**
   * Any script of writes that fits, from any bit offset, is read back exactly; afterwards the offset is the one after the
   * writes, and everything around what was written is as it was.
   */
  method WriteAndReadBack(b: BitBuffer, items: seq<Item>) returns (ok: bool, read: seq<Item>)
    requires b.Valid() && forall i | 0 <= i < |items| :: ValidItem(items[i])
    modifies b, b.bytes
    ensures b.Valid() && (ok <==> |EncodeAll(items)| <= old(b.RemainingBitCount()))
    ensures ok ==> read == items && b.Offset() == old(b.Offset()) + |EncodeAll(items)|
    ensures ok ==> BitsOf(b.bytes[..]) == old(BitsOf(b.bytes[..])[..b.Offset()]) + EncodeAll(items)
                                          + old(BitsOf(b.bytes[..])[b.Offset() + |EncodeAll(items)|..])
  {
    hide BitsOf, EncodeItem, ValidItem, EncodeAll;
    var byteOffset, bitOffset := b.byteOffset, b.bitOffset;
    read := [];
    ok := WriteAll(b, items);
    if ok {
      var found := b.Seek(byteOffset, bitOffset);
      var kinds := seq(|items|, i requires 0 <= i < |items| => KindOf(items[i]));
      ok, read := ReadAll(b, kinds, items);
    }
  }

  lemma KnownCount(item: Item)
    requires ValidItem(item)
    ensures KindOf(item).PlainKind? ==> KindOf(item).count > 0
  {
  }

  lemma DecodePrefix(v: nat, bits: seq<bool>)
    requires v < UINT32_MAX && Encode(v) <= bits
    ensures Decodable(bits) && Decoded(bits) == v && CodeLength(bits) == |Encode(v)|
  {
    DecodeEncode(v, bits[|Encode(v)|..]);
    assert bits == Encode(v) + bits[|Encode(v)|..];
  }

  lemma EncodeNone()
    ensures EncodeAll([]) == []
  {
  }
}
