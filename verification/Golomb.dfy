/** Exponential-Golomb codes, ITU-T H.264 sections 9.1 and 9.1.1, on sequences of bits. */
module ExponentialGolomb {
  import opened Bits
  import opened Words

  const UINT32_MAX: nat := 0xFFFF_FFFF
  const INT32_MIN: int := -0x8000_0000
  const INT32_MAX: int := 0x7FFF_FFFF

  function ZeroBits(n: nat): (bits: seq<bool>)
    ensures |bits| == n && forall i | 0 <= i < n :: !bits[i]
  {
    seq(n, _ => false)
  }

  /** The code word for v: as many zeros as v + 1 has bits after the first one, then v + 1. */
  function Encode(v: nat): (bits: seq<bool>) {
    var n := BitLength(v + 1);
    ZeroBits(n - 1) + ToBits(v + 1, n)
  }

  function LeadingZeros(bits: seq<bool>): (z: nat)
    ensures z <= |bits|
  {
    if |bits| == 0 || bits[0] then 0 else 1 + LeadingZeros(bits[1..])
  }

  /** Whether the bits start with the code word of a value that fits into 32 bits. */
  predicate Decodable(bits: seq<bool>) {
    var z := LeadingZeros(bits);
    z + 1 <= 32 && 2 * z + 1 <= |bits|
  }

  function CodeLength(bits: seq<bool>): nat {
    2 * LeadingZeros(bits) + 1
  }

  /** The value whose code word the bits start with. */
  function Decoded(bits: seq<bool>): nat
    requires Decodable(bits)
  {
    var z := LeadingZeros(bits);
    LeadingZerosSplit(bits);
    PositiveNumber(bits[z..2 * z + 1]);
    Number(bits[z..2 * z + 1]) - 1
  }

  lemma LeadingZero(bits: seq<bool>)
    requires |bits| > 0 && Number([bits[0]]) == 0
    ensures LeadingZeros(bits) == 1 + LeadingZeros(bits[1..])
  {
  }

  lemma NoLeadingZero(bits: seq<bool>)
    requires |bits| > 0 ==> Number([bits[0]]) != 0
    ensures LeadingZeros(bits) == 0
  {
  }

  lemma {:induction false} LeadingZerosIs(z: nat, bits: seq<bool>)
    requires |bits| > 0 && bits[0]
    ensures LeadingZeros(ZeroBits(z) + bits) == z
  {
    if z == 0 {
      assert ZeroBits(0) + bits == bits;
    } else {
      LeadingZerosIs(z - 1, bits);
      assert (ZeroBits(z) + bits)[1..] == ZeroBits(z - 1) + bits;
    }
  }

  lemma {:induction false} LeadingZerosSplit(bits: seq<bool>)
    ensures var z := LeadingZeros(bits); bits[..z] == ZeroBits(z) && (z < |bits| ==> bits[z])
  {
    if |bits| > 0 && !bits[0] {
      LeadingZerosSplit(bits[1..]);
      var z := LeadingZeros(bits);
      assert bits[..z] == [bits[0]] + bits[1..][..z - 1];
    }
  }

  lemma ThirtyTwo()
    ensures Pow2(32) == 0x1_0000_0000
  {
    assert Pow2(4) == 0x10;
    assert Pow2(8) == 0x100;
    assert Pow2(12) == 0x1000;
    assert Pow2(16) == 0x1_0000;
    assert Pow2(20) == 0x10_0000;
    assert Pow2(24) == 0x100_0000;
    assert Pow2(28) == 0x1000_0000;
  }

  lemma LengthOfValue(v: nat)
    requires v < UINT32_MAX
    ensures 1 <= BitLength(v + 1) <= 32
  {
    hide Pow2, BitLength;
    ThirtyTwo();
    BitLengthBounds(v + 1);
    Pow2Order(BitLength(v + 1) - 1, 32);
  }

  /** Decoding finds the value that was encoded, whatever follows. */
  lemma DecodeEncode(v: nat, rest: seq<bool>)
    requires v < UINT32_MAX
    ensures Decodable(Encode(v) + rest) && Decoded(Encode(v) + rest) == v
    ensures CodeLength(Encode(v) + rest) == |Encode(v)|
  {
    hide BitLength, Number, LeadingZeros, ToBits, Pow2;
    var n := BitLength(v + 1);
    LengthOfValue(v);
    BitLengthBounds(v + 1);
    var word := ToBits(v + 1, n);
    ToBitsAt(v + 1, n, 0);
    LeadingZerosIs(n - 1, word + rest);
    assert Encode(v) + rest == ZeroBits(n - 1) + (word + rest);
    assert (Encode(v) + rest)[n - 1..2 * (n - 1) + 1] == word;
    NumberOfToBits(v + 1, n);
  }

  lemma TopBit(bits: seq<bool>)
    requires |bits| > 0 && bits[0]
    ensures BitLength(Number(bits)) == |bits|
  {
    hide BitLength, Number, ToBits;
    ToBitsOfNumber(bits);
    var n := |bits|;
    if Number(bits) < Pow2(n - 1) {
      NoHighBits(Number(bits), n - 1, n - 1);
      BitOfNumber(bits, n - 1);
      assert false;
    }
    BitLengthIs(Number(bits), n);
  }

  /** What is decoded is a value that can be encoded, and the bits consumed are its code word. */
  lemma EncodeDecoded(bits: seq<bool>)
    requires Decodable(bits)
    ensures Decoded(bits) < UINT32_MAX
    ensures Encode(Decoded(bits)) == bits[..CodeLength(bits)]
  {
    hide BitLength, Number, LeadingZeros, ToBits, Pow2;
    var z := LeadingZeros(bits);
    LeadingZerosSplit(bits);
    var word := bits[z..2 * z + 1];
    TopBit(word);
    BitLengthBounds(Number(word));
    ToBitsOfNumber(word);
    Pow2Monotone(z + 1, 32);
    Pow2Monotone(0, z);
    ThirtyTwo();
    assert bits[..2 * z + 1] == bits[..z] + word;
  }

  /**
   * The definition in section 9.1: after z zeros and a one, the next z bits are a number, and the value is 2^z - 1 more
   * than that.
   */
  lemma CodeNumber(z: nat, suffix: seq<bool>, tail: seq<bool>)
    requires z < 32 && |suffix| == z
    ensures var bits := ZeroBits(z) + [true] + suffix + tail;
            && Decodable(bits) && CodeLength(bits) == 2 * z + 1
            && Decoded(bits) == Pow2(z) - 1 + Number(suffix)
  {
    hide Number, LeadingZeros, Pow2;
    var bits := ZeroBits(z) + [true] + suffix + tail;
    var later := [true] + suffix + tail;
    LeadingZerosIs(z, later);
    assert bits == ZeroBits(z) + later;
    assert bits[z..2 * z + 1] == [true] + suffix;
    NumberAfterOne(suffix);
  }

  lemma {:induction false} NumberAfterOne(suffix: seq<bool>)
    ensures Number([true] + suffix) == Pow2(|suffix|) + Number(suffix)
  {
    if |suffix| == 0 {
      assert [true] + suffix == [true];
      assert [true][..0] == [];
    } else {
      var n := |suffix| - 1;
      NumberAfterOne(suffix[..n]);
      assert ([true] + suffix)[..|suffix|] == [true] + suffix[..n];
    }
  }

  /** The first lines of the table in section 9.1. */
  lemma CodeTable()
    ensures Encode(0) == [true]
    ensures Encode(1) == [false, true, false] && Encode(2) == [false, true, true]
    ensures Encode(3) == [false, false, true, false, false] && Encode(4) == [false, false, true, false, true]
  {
    assert BitLength(1) == 1 && BitLength(2) == 2 && BitLength(3) == 2 && BitLength(4) == 3 && BitLength(5) == 3;
    assert ToBits(1, 1) == [true] && ToBits(2, 2) == [true, false] && ToBits(3, 2) == [true, true];
    assert ToBits(4, 3) == [true, false, false] && ToBits(5, 3) == [true, false, true];
  }

  lemma PositiveNumber(bits: seq<bool>)
    requires |bits| > 0 && bits[0]
    ensures Number(bits) >= 1
  {
    TopBit(bits);
  }

  lemma {:induction false} PaddedBits(x: nat, n: nat, z: nat)
    requires x < Pow2(n)
    ensures ToBits(x, z + n) == ZeroBits(z) + ToBits(x, n)
  {
    if n > 0 {
      PaddedBits(x / 2, n - 1, z);
      assert ToBits(x, z + n) == ToBits(x / 2, z + n - 1) + [x % 2 == 1];
    } else {
      ZerosOnly(z);
    }
  }

  lemma {:induction false} ZerosOnly(z: nat)
    ensures ToBits(0, z) == ZeroBits(z)
  {
    if z > 0 {
      ZerosOnly(z - 1);
    }
  }

  /** The writer's shortcut: v + 1 in one go, in a field wide enough for the zeros. */
  lemma EncodeIsPadded(v: nat)
    requires v < UINT32_MAX
    ensures var n := BitLength(v + 1);
            1 <= n <= 32 && |Encode(v)| == 2 * n - 1 && ToBits(v + 1, 2 * n - 1) == Encode(v)
  {
    hide BitLength, ToBits, Pow2;
    LengthOfValue(v);
    BitLengthBounds(v + 1);
    PaddedBits(v + 1, BitLength(v + 1), BitLength(v + 1) - 1);
  }

  // ---------- signed values ----------

  /** 0, 1, -1, 2, -2 and so on. */
  function SignedOf(u: nat): int {
    if u % 2 == 0 then 0 - u / 2 else (u + 1) / 2
  }

  function UnsignedOf(s: int): nat {
    if s > 0 then 2 * s - 1 else -2 * s
  }

  /** The values that can be written signed are those that can be written unsigned, in another order. */
  lemma SignedBijection(u: nat, s: int)
    ensures SignedOf(UnsignedOf(s)) == s && UnsignedOf(SignedOf(u)) == u
    ensures UnsignedOf(s) < UINT32_MAX <==> INT32_MIN < s <= INT32_MAX
    ensures UnsignedOf(0) == 0 && SignedOf(0) == 0
    ensures s > 0 ==> UnsignedOf(s) == 2 * s - 1 && UnsignedOf(-s) == 2 * s
  {
  }

  function Magnitude(s: int): nat {
    if s < 0 then -s else s
  }

  /**
   * The order is that of the absolute values, zero first, each positive value directly before its opposite. No other
   * numbering of the integers has this order.
   */
  lemma SignedOrder(u: nat, w: nat)
    ensures u < w <==> Magnitude(SignedOf(u)) < Magnitude(SignedOf(w))
                       || (Magnitude(SignedOf(u)) == Magnitude(SignedOf(w)) && SignedOf(u) > SignedOf(w))
    ensures SignedOf(0) == 0 && SignedOf(2 * w + 1) == w + 1 && SignedOf(2 * w + 2) == -(w + 1)
    ensures [SignedOf(1), SignedOf(2), SignedOf(3), SignedOf(4)] == [1, -1, 2, -2]
  {
  }

  /** The code word of a signed value: as many zeros as its absolute value has bits, these bits, then the sign. */
  function SignedWord(s: int): (bits: seq<bool>)
    ensures |bits| == 2 * BitLength(Magnitude(s)) + 1
  {
    if s == 0 then [true]
    else ZeroBits(BitLength(Magnitude(s))) + ToBits(Magnitude(s), BitLength(Magnitude(s))) + [s < 0]
  }

  lemma SignedCodeWord(s: int)
    ensures Encode(UnsignedOf(s)) == SignedWord(s)
  {
    var m := Magnitude(s);
    if s != 0 {
      var v := UnsignedOf(s) + 1;
      assert v / 2 == m && (v % 2 == 1 <==> s < 0);
      assert BitLength(v) == 1 + BitLength(m);
    }
  }

  /** The first lines of the table in section 9.1.1. */
  lemma SignedTable()
    ensures SignedWord(0) == [true]
    ensures SignedWord(1) == [false, true, false] && SignedWord(-1) == [false, true, true]
    ensures SignedWord(2) == [false, false, true, false, false] && SignedWord(-2) == [false, false, true, false, true]
  {
    assert BitLength(1) == 1 && BitLength(2) == 2;
    assert ToBits(1, 1) == [true] && ToBits(2, 2) == [true, false];
  }

  /** What is decoded as a signed value is one that can be written, and the bits consumed are its code word. */
  lemma SignedDecoded(bits: seq<bool>)
    requires Decodable(bits)
    ensures var s := SignedOf(Decoded(bits));
            INT32_MIN < s <= INT32_MAX && SignedWord(s) <= bits && |SignedWord(s)| == CodeLength(bits)
  {
    hide Encode, Decoded, LeadingZeros, SignedWord;
    EncodeDecoded(bits);
    var s := SignedOf(Decoded(bits));
    SignedBijection(Decoded(bits), s);
    SignedCodeWord(s);
  }

  /** Bits that start with the code word of a signed value are decoded as that value. */
  lemma SignedPrefix(s: int, bits: seq<bool>)
    requires INT32_MIN < s <= INT32_MAX && SignedWord(s) <= bits
    ensures Decodable(bits) && SignedOf(Decoded(bits)) == s && CodeLength(bits) == |SignedWord(s)|
  {
    hide Encode, Decoded, Decodable, SignedWord;
    SignedBijection(UnsignedOf(s), s);
    SignedCodeWord(s);
    DecodeEncode(UnsignedOf(s), bits[|SignedWord(s)|..]);
    assert bits == SignedWord(s) + bits[|SignedWord(s)|..];
  }

  // ---------- scripts ----------

  /** Something to be written: a number of so many bits, or a code word. */
  datatype Item = Plain(value: nat, count: nat) | Unsigned(number: nat) | Signed(integer: int)

  /** What a reader must know of it beforehand. */
  datatype Kind = PlainKind(count: nat) | UnsignedKind | SignedKind

  function KindOf(item: Item): Kind {
    match item
    case Plain(_, count) => PlainKind(count)
    case Unsigned(_) => UnsignedKind
    case Signed(_) => SignedKind
  }

  predicate ValidItem(item: Item) {
    match item
    case Plain(value, count) => 1 <= count <= 32 && value < Pow2(count)
    case Unsigned(number) => number < UINT32_MAX
    case Signed(integer) => INT32_MIN < integer <= INT32_MAX
  }

  function EncodeItem(item: Item): seq<bool> {
    match item
    case Plain(value, count) => ToBits(value, count)
    case Unsigned(number) => Encode(number)
    case Signed(integer) => SignedWord(integer)
  }

  function EncodeAll(items: seq<Item>): seq<bool> {
    if |items| == 0 then [] else EncodeAll(items[..|items| - 1]) + EncodeItem(items[|items| - 1])
  }

  lemma {:induction false} EncodeAllPrefix(items: seq<Item>, i: nat)
    requires i <= |items|
    ensures EncodeAll(items[..i]) <= EncodeAll(items)
  {
    hide EncodeItem;
    if i == |items| {
      assert items[..i] == items;
    } else {
      var n := |items| - 1;
      EncodeAllPrefix(items[..n], i);
      assert items[..n][..i] == items[..i];
    }
  }

  lemma EncodeAllSplit(items: seq<Item>, i: nat)
    requires i < |items|
    ensures EncodeAll(items[..i + 1]) == EncodeAll(items[..i]) + EncodeItem(items[i])
    ensures EncodeAll(items[..i + 1]) <= EncodeAll(items)
  {
    hide EncodeItem;
    EncodeAllPrefix(items, i + 1);
    assert items[..i + 1][..i] == items[..i];
  }
}
