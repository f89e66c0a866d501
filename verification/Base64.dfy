/** base64.cc: RFC 4648 section 4, with decoders of different strictness. */
module Base64 {
  import opened Octets
  type Sextet = x: int | 0 <= x < 64

  const PAD: char := '='

  /** Base64Table, by the ranges it consists of. */
  function Base64Table(v: Sextet): char {
    if v < 26 then ('A' as int + v) as char
    else if v < 52 then ('a' as int + v - 26) as char
    else if v < 62 then ('0' as int + v - 52) as char
    else if v == 62 then '+'
    else '/'
  }

  /** The entries of DecodeTable. */
  datatype Entry = Value(value: Sextet) | Padding | Space | Illegal

  function DecodeTable(ch: char): Entry {
    if 'A' <= ch <= 'Z' then Value(ch as int - 'A' as int)
    else if 'a' <= ch <= 'z' then Value(ch as int - 'a' as int + 26)
    else if '0' <= ch <= '9' then Value(ch as int - '0' as int + 52)
    else if ch == '+' then Value(62)
    else if ch == '/' then Value(63)
    else if ch == PAD then Padding
    else if ch as int == 32 || 9 <= ch as int <= 13 then Space
    else Illegal
  }

  /** The two tables are inverses of each other. */
  lemma TablesInverse(v: Sextet, ch: char)
    ensures DecodeTable(ch) == Value(v) <==> Base64Table(v) == ch
  {
  }

  /** IsBase64Char. */
  predicate IsBase64Char(ch: char) {
    'A' <= ch <= 'Z' || 'a' <= ch <= 'z' || '0' <= ch <= '9' || ch == '+' || ch == '/'
  }

  const UPPER := "ABCDEFGHIJKLMNOPQRSTUVWXYZ"
  const LOWER := "abcdefghijklmnopqrstuvwxyz"
  const DIGITS := "0123456789"

  /** The table of RFC 4648 section 4. */
  lemma Alphabet(v: Sextet)
    ensures |UPPER| == |LOWER| == 26 && |DIGITS| == 10
    ensures Base64Table(v) == (UPPER + LOWER + DIGITS + "+/")[v]
  {
    assert v < 26 ==> UPPER[v] == Base64Table(v);
    assert 26 <= v < 52 ==> LOWER[v - 26] == Base64Table(v);
    assert 52 <= v < 62 ==> DIGITS[v - 52] == Base64Table(v);
  }

  /** What the entries of DecodeTable are: whitespace is the characters with the codes 9 to 13 and 32. */
  lemma Entries(ch: char)
    ensures DecodeTable(ch).Value? <==> IsBase64Char(ch)
    ensures DecodeTable(ch) == Padding <==> ch as int == 61
    ensures DecodeTable(ch) == Space <==> ch as int in {9, 10, 11, 12, 13, 32}
  {
  }

  // ---------- groups ----------

  // The four sextets of three bytes. An absent byte is zero, which fills the last sextet up with zero bits.

  function Sextet0(b0: Byte): Sextet {
    b0 as int / 4
  }

  function Sextet1(b0: Byte, b1: Byte): Sextet {
    b0 as int % 4 * 16 + b1 as int / 16
  }

  function Sextet2(b1: Byte, b2: Byte): Sextet {
    b1 as int % 16 * 4 + b2 as int / 64
  }

  function Sextet3(b2: Byte): Sextet {
    b2 as int % 64
  }

  // The three bytes of four sextets.

  function Byte0(v0: Sextet, v1: Sextet): Byte {
    v0 as int * 4 + v1 as int / 16
  }

  function Byte1(v1: Sextet, v2: Sextet): Byte {
    v1 as int % 16 * 16 + v2 as int / 4
  }

  function Byte2(v2: Sextet, v3: Sextet): Byte {
    v2 as int % 4 * 64 + v3 as int
  }

  lemma Byte0OfSextets(b0: Byte, b1: Byte)
    ensures Byte0(Sextet0(b0), Sextet1(b0, b1)) == b0
  {
  }

  lemma Byte1OfSextets(b0: Byte, b1: Byte, b2: Byte)
    ensures Byte1(Sextet1(b0, b1), Sextet2(b1, b2)) == b1
  {
    var x: int, y: int, z: int := b0 % 4, b1, b2;
    assert (x * 16 + y / 16) % 16 == y / 16;
    assert (y % 16 * 4 + z / 64) / 4 == y % 16;
  }

  lemma Byte2OfSextets(b1: Byte, b2: Byte)
    ensures Byte2(Sextet2(b1, b2), Sextet3(b2)) == b2
  {
    var y: int, z: int := b1, b2;
    assert (y % 16 * 4 + z / 64) % 4 == z / 64;
  }

  lemma SextetsOfBytes(v0: Sextet, v1: Sextet, v2: Sextet, v3: Sextet)
    ensures Sextet0(Byte0(v0, v1)) == v0
    ensures Sextet1(Byte0(v0, v1), Byte1(v1, v2)) == v1
    ensures Sextet2(Byte1(v1, v2), Byte2(v2, v3)) == v2
    ensures Sextet3(Byte2(v2, v3)) == v3
  {
    var w: int, x: int, y: int := v0, v1, v2;
    assert (w * 4 + x / 16) % 4 == x / 16;
    assert (x % 16 * 16 + y / 4) / 16 == x % 16;
    assert (x % 16 * 16 + y / 4) % 16 == y / 4;
  }

  /** The sextets of up to three bytes. */
  function Sextets(group: seq<Byte>): (v: seq<Sextet>)
    requires |group| <= 3
    ensures |v| == if |group| == 0 then 0 else |group| + 1
  {
    if |group| == 0 then []
    else if |group| == 1 then [Sextet0(group[0]), Sextet1(group[0], 0)]
    else if |group| == 2 then [Sextet0(group[0]), Sextet1(group[0], group[1]), Sextet2(group[1], 0)]
    else [Sextet0(group[0]), Sextet1(group[0], group[1]), Sextet2(group[1], group[2]), Sextet3(group[2])]
  }

  /** The whole bytes in up to four sextets. */
  function Bytes(v: seq<Sextet>): (group: seq<Byte>)
    requires |v| <= 4
    ensures |group| == if |v| == 0 then 0 else |v| - 1
  {
    if |v| <= 1 then []
    else if |v| == 2 then [Byte0(v[0], v[1])]
    else if |v| == 3 then [Byte0(v[0], v[1]), Byte1(v[1], v[2])]
    else [Byte0(v[0], v[1]), Byte1(v[1], v[2]), Byte2(v[2], v[3])]
  }

  /** The byte that begins after the whole ones, of the bits that do not make up one. */
  function UnusedBits(v: seq<Sextet>): Byte
    requires |v| <= 4
  {
    if |v| == 1 then Byte0(v[0], 0)
    else if |v| == 2 then Byte1(v[1], 0)
    else if |v| == 3 then Byte2(v[2], 0)
    else 0
  }

  /** RFC 4648 section 4: the bits of a group, as one number, are those of its sextets, filled up with zeros. */
  lemma GroupBits(group: seq<Byte>)
    requires 1 <= |group| <= 3
    ensures var b, v := group, Sextets(group);
            if |b| == 3 then 65536 * b[0] as int + 256 * b[1] as int + b[2] as int
                             == 262144 * v[0] as int + 4096 * v[1] as int + 64 * v[2] as int + v[3] as int
            else if |b| == 2 then 4 * (256 * b[0] as int + b[1] as int)
                                  == 4096 * v[0] as int + 64 * v[1] as int + v[2] as int
            else 16 * b[0] as int == 64 * v[0] as int + v[1] as int
  {
  }

  lemma BytesOfSextets(group: seq<Byte>)
    requires |group| <= 3
    ensures Bytes(Sextets(group)) == group && UnusedBits(Sextets(group)) == 0
  {
    hide Sextet0, Sextet1, Sextet2, Sextet3, Byte0, Byte1, Byte2;
    var n := |group|;
    var b0, b1, b2: Byte := if n > 0 then group[0] else 0, if n > 1 then group[1] else 0, if n > 2 then group[2] else 0;
    Byte0OfSextets(b0, b1);
    Byte1OfSextets(b0, b1, b2);
    Byte2OfSextets(b1, b2);
    NoBits();
  }

  lemma NoBits()
    ensures Sextet2(0, 0) == 0 && Sextet3(0) == 0
  {
  }

  /** Where no bits are left over, Sextets undoes Bytes. */
  lemma SextetsOfWhole(v: seq<Sextet>)
    requires |v| <= 4 && |v| != 1 && UnusedBits(v) == 0
    ensures Sextets(Bytes(v)) == v
  {
    hide Sextet0, Sextet1, Sextet2, Sextet3, Byte0, Byte1, Byte2;
    var n := |v|;
    if n > 0 {
      SextetsOfBytes(v[0], v[1], if n > 2 then v[2] else 0, if n > 3 then v[3] else 0);
    }
  }

  /** The characters for sextets. */
  function Chars(v: seq<Sextet>): (text: string)
    ensures |text| == |v|
    ensures forall i | 0 <= i < |v| :: text[i] == Base64Table(v[i])
  {
    seq(|v|, i requires 0 <= i < |v| => Base64Table(v[i]))
  }

  function Pads(n: nat): (text: string)
    ensures |text| == n && forall i | 0 <= i < n :: text[i] == PAD
  {
    seq(n, _ => PAD)
  }

  function EncodeGroup(group: seq<Byte>): (text: string)
    requires 1 <= |group| <= 3
    ensures |text| == 4
  {
    Chars(Sextets(group)) + Pads(3 - |group|)
  }

  /** RFC 4648 section 4: groups of three bytes, of which the last may be shorter and is padded. */
  function Encode(data: seq<Byte>): (text: string)
    ensures |text| == (|data| + 2) / 3 * 4
  {
    if |data| == 0 then ""
    else if |data| < 3 then EncodeGroup(data)
    else
      assert (|data| + 2) / 3 == (|data| - 3 + 2) / 3 + 1;
      EncodeGroup(data[..3]) + Encode(data[3..])
  }

  /** The operations of the encoder for the second sextet of a group. */
  lemma Shift4(b: int, next: int)
    requires 0 <= b < 256 && 0 <= next < 256
    ensures b * 16 % 64 == Sextet1(b, 0) && b * 16 % 64 + next / 16 == Sextet1(b, next)
  {
    assert b * 16 == b / 4 * 64 + b % 4 * 16;
  }

  /** And for the third. */
  lemma Shift2(b: int, next: int)
    requires 0 <= b < 256 && 0 <= next < 256
    ensures b * 4 % 64 == Sextet2(b, 0) && b * 4 % 64 + next / 64 == Sextet2(b, next)
  {
    assert b * 4 == b / 16 * 64 + b % 16 * 4;
  }

  lemma Shift0(b: int)
    requires 0 <= b < 256
    ensures b / 4 == Sextet0(b) && b % 64 == Sextet3(b)
  {
  }

  lemma EncodeStart(data: seq<Byte>)
    ensures "" + Encode(data[0..]) == Encode(data)
    ensures Encode(data[|data|..]) == ""
  {
    assert data[0..] == data;
  }

  lemma EncodeStep(data: seq<Byte>, i: nat)
    requires i < |data|
    ensures var next := if i + 3 <= |data| then i + 3 else |data|;
            Encode(data[i..]) == EncodeGroup(data[i..next]) + Encode(data[next..])
  {
    hide EncodeGroup;
    if i + 3 <= |data| {
      assert data[i..][..3] == data[i..i + 3] && data[i..][3..] == data[i + 3..];
    } else {
      assert data[|data|..] == [] && data[i..|data|] == data[i..];
    }
  }

  /** EncodeFromArray. The operands of every |= have no bits in common, so that it adds. */
  method EncodeFromArray(data: seq<Byte>) returns (result: string)
    ensures result == Encode(data)
  {
    hide Base64Table, Sextet0, Sextet1, Sextet2, Sextet3, Encode, EncodeGroup;
    result := "";
    var i := 0;
    EncodeStart(data);
    while i < |data|
      invariant 0 <= i <= |data|
      invariant result + Encode(data[i..]) == Encode(data)
    {
      EncodeStep(data, i);
      var text, next := EncodeQuantum(data, i);
      assert (result + text) + Encode(data[next..]) == result + (text + Encode(data[next..]));
      result, i := result + text, next;
    }
  }

  /** The body of its loop. */
  method EncodeQuantum(data: seq<Byte>, first: nat) returns (text: string, i: nat)
    requires first < |data|
    ensures i == (if first + 3 <= |data| then first + 3 else |data|)
    ensures text == EncodeGroup(data[first..i])
  {
    hide Base64Table, Sextet0, Sextet1, Sextet2, Sextet3;
    i := first;
    var byte: int := data[i];
    Shift0(byte);
    Shift4(byte, if i + 1 < |data| then data[i + 1] else 0);
    var c := byte / 4;
    text := [Base64Table(c)];
    c := byte * 16 % 64;
    i := i + 1;
    if i < |data| {
      byte := data[i];
      c := c + byte / 16;
    }
    text := text + [Base64Table(c)];
    if i < |data| {
      Shift2(byte, if i + 1 < |data| then data[i + 1] else 0);
      c := byte * 4 % 64;
      i := i + 1;
      if i < |data| {
        byte := data[i];
        c := c + byte / 64;
      }
      text := text + [Base64Table(c)];
    } else {
      text := text + [PAD];
    }
    if i < |data| {
      Shift0(byte);
      c := byte % 64;
      text := text + [Base64Table(c)];
      i := i + 1;
    } else {
      text := text + [PAD];
    }
    GroupText(data[first..i], text);
  }

  lemma GroupText(group: seq<Byte>, text: string)
    requires 1 <= |group| <= 3 && |text| == 4
    requires var v := Sextets(group);
             forall i | 0 <= i < 4 :: text[i] == if i < |v| then Base64Table(v[i]) else PAD
    ensures text == EncodeGroup(group)
  {
    hide Base64Table, Sextets;
  }
}
