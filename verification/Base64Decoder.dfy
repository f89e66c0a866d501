/** The decoder of base64.cc. */
module Base64Decoder {
  import opened Base64
  import opened Octets

  // The three groups of DecodeOption.
  datatype Parse = ParseStrict | ParseWhite | ParseAny
  datatype Pad = PadYes | PadAny | PadNo
  datatype Term = TermBuffer | TermChar | TermAny

  datatype Flags = Flags(parse: Parse, pad: Pad, term: Term)

  const STRICT := Flags(ParseStrict, PadYes, TermBuffer)

  // ---------- one quantum ----------

  /** What GetNextQuantum knows while it scans: sextets, pads after them and where these start, and its position. */
  datatype Scan = Scan(values: seq<Sextet>, padLen: nat, padStart: nat, pos: nat)

  datatype Step = Stop | Go(next: Scan)

  /** What a character does that is ignored if everything is to be parsed. */
  function Skip(parse: Parse, s: Scan): Step {
    if parse != ParseAny then Stop else Go(s.(pos := s.pos + 1))
  }

  /** What a character does to a scan that is not complete. */
  function Consume(parse: Parse, illegalPads: bool, ch: char, s: Scan): Step {
    match DecodeTable(ch)
    case Illegal => Skip(parse, s)
    case Space => if parse == ParseStrict then Stop else Go(s.(pos := s.pos + 1))
    case Padding =>
      if illegalPads || |s.values| < 2 || |s.values| + s.padLen >= 4 then Skip(parse, s)
      else Go(s.(padLen := s.padLen + 1, padStart := if s.padLen == 0 then s.pos else s.padStart, pos := s.pos + 1))
    case Value(v) =>
      if s.padLen > 0 && parse != ParseAny then Stop
      else Go(s.(values := s.values + [v], padLen := 0, pos := s.pos + 1))
  }

  /** The scan up to where it ends. */
  function ScanOn(parse: Parse, illegalPads: bool, text: string, s: Scan): (r: Scan)
    requires |s.values| <= 4 && s.pos <= |text|
    ensures |r.values| <= 4 && s.pos <= r.pos <= |text| && |r.values| - |s.values| <= r.pos - s.pos
    ensures (|s.values| == 4 ==> s.padLen == 0) && |r.values| == 4 ==> r.padLen == 0
    decreases |text| - s.pos
  {
    if |s.values| == 4 || s.pos == |text| then s
    else
      match Consume(parse, illegalPads, text[s.pos], s)
      case Stop => s
      case Go(next) => ScanOn(parse, illegalPads, text, next)
  }

  function ScanFrom(flags: Flags, text: string, pos: nat): (r: Scan)
    requires pos <= |text|
    ensures |r.values| <= 4 && pos <= r.pos <= |text| && |r.values| <= r.pos - pos
    ensures |r.values| == 4 ==> r.padLen == 0
  {
    ScanOn(flags.parse, flags.pad == PadNo, text, Scan([], 0, 0, pos))
  }

  predicate Padded(s: Scan) {
    |s.values| + s.padLen == 4
  }

  /** Where decoding goes on: pads that do not complete a quantum are given back. */
  function EndOf(s: Scan): nat {
    if !Padded(s) && s.padLen > 0 then s.padStart else s.pos
  }

  /** The zeros in the rest of the buffer for a quantum. */
  function Filled(v: seq<Sextet>): (qbuf: seq<Sextet>)
    requires |v| <= 4
    ensures |qbuf| == 4 && forall i | 0 <= i < 4 :: qbuf[i] == if i < |v| then v[i] else 0
  {
    seq(4, i => if 0 <= i < |v| then v[i] else 0)
  }

  /** A single step of a scan. */
  lemma ScanNext(parse: Parse, illegalPads: bool, text: string, s: Scan)
    requires |s.values| < 4 && s.pos < |text|
    ensures Consume(parse, illegalPads, text[s.pos], s) == Stop ==> ScanOn(parse, illegalPads, text, s) == s
    ensures forall next :: Consume(parse, illegalPads, text[s.pos], s) == Go(next) ==>
              ScanOn(parse, illegalPads, text, s) == ScanOn(parse, illegalPads, text, next)
  {
  }

  lemma ScanEnd(parse: Parse, illegalPads: bool, text: string, s: Scan)
    requires |s.values| <= 4 && s.pos <= |text| && (|s.values| == 4 || s.pos == |text|)
    ensures ScanOn(parse, illegalPads, text, s) == s
  {
  }

  /** The loop body of GetNextQuantum. */
  method TakeCharacter(parse: Parse, illegalPads: bool, ch: char, pos: nat, values: seq<Sextet>, padLen: nat, padStart: nat)
    returns (stop: bool, values': seq<Sextet>, padLen': nat, padStart': nat)
    requires |values| < 4
    ensures Consume(parse, illegalPads, ch, Scan(values, padLen, padStart, pos))
            == if stop then Stop else Go(Scan(values', padLen', padStart', pos + 1))
    ensures |values'| <= 4 && (stop ==> values' == values && padLen' == padLen && padStart' == padStart)
  {
    hide DecodeTable;
    stop, values', padLen', padStart' := false, values, padLen, padStart;
    var entry := DecodeTable(ch);
    if entry == Illegal || (illegalPads && entry == Padding) {
      stop := parse != ParseAny;
    } else if entry == Space {
      stop := parse == ParseStrict;
    } else if entry == Padding {
      if |values| < 2 {
        stop := parse != ParseAny;
      } else if |values| + padLen >= 4 {
        stop := parse != ParseAny;
      } else {
        padLen' := padLen + 1;
        if padLen' == 1 {
          padStart' := pos;
        }
      }
    } else {
      if padLen > 0 {
        if parse != ParseAny {
          stop := true;
          return;
        }
        padLen' := 0;
      }
      values' := values + [entry.value];
    }
  }

  /** GetNextQuantum. */
  method GetNextQuantum(parse: Parse, illegalPads: bool, data: string, dpos: nat)
    returns (byteLen: nat, qbuf: seq<Sextet>, end: nat, padded: bool)
    requires dpos <= |data|
    ensures var s := ScanOn(parse, illegalPads, data, Scan([], 0, 0, dpos));
            byteLen == |s.values| && qbuf == Filled(s.values) && end == EndOf(s) && (padded <==> Padded(s))
  {
    hide Consume, ScanOn, Filled;
    ghost var start := Scan([], 0, 0, dpos);
    var values: seq<Sextet> := [];
    var padLen, padStart := 0, 0;
    end := dpos;
    while |values| < 4 && end < |data|
      invariant |values| <= 4 && end <= |data|
      invariant ScanOn(parse, illegalPads, data, start)
                == ScanOn(parse, illegalPads, data, Scan(values, padLen, padStart, end))
      decreases |data| - end
    {
      ScanNext(parse, illegalPads, data, Scan(values, padLen, padStart, end));
      var stop;
      stop, values, padLen, padStart := TakeCharacter(parse, illegalPads, data[end], end, values, padLen, padStart);
      if stop {
        break;
      }
      end := end + 1;
    }
    if |values| == 4 || end == |data| {
      ScanEnd(parse, illegalPads, data, Scan(values, padLen, padStart, end));
    }
    byteLen, qbuf := |values|, Filled(values);
    if byteLen + padLen == 4 {
      padded := true;
    } else {
      padded := false;
      if padLen > 0 {
        end := padStart;
      }
    }
  }

  // ---------- all quanta ----------

  datatype Decoded = Decoded(bytes: seq<Byte>, success: bool, used: nat)

  /** Whether the flags allow the data to end after this quantum. */
  predicate MayEnd(flags: Flags, s: Scan)
    requires |s.values| <= 4
  {
    (flags.term == TermAny || UnusedBits(s.values) == 0) && (flags.pad == PadYes ==> Padded(s))
  }

  function DecodeFrom(flags: Flags, text: string, pos: nat): Decoded
    requires pos <= |text|
    decreases |text| - pos
  {
    if pos == |text| then Decoded([], true, pos)
    else
      var s := ScanFrom(flags, text, pos);
      if |s.values| < 4 then Decoded(Bytes(s.values), MayEnd(flags, s), EndOf(s))
      else
        var rest := DecodeFrom(flags, text, s.pos);
        rest.(bytes := Bytes(s.values) + rest.bytes)
  }

  /** What DecodeFromArray computes. */
  function Decode(flags: Flags, text: string): Decoded {
    var d := DecodeFrom(flags, text, 0);
    d.(success := d.success && (flags.term == TermBuffer ==> d.used == |text|))
  }

  /** The operations of the decoder on bytes: the operands of every | have no bits in common, so that it adds. */
  lemma DecoderShifts(q: seq<Sextet>)
    requires |q| == 4
    ensures q[0] as int * 4 + q[1] as int / 16 % 4 == Byte0(q[0], q[1])
    ensures q[1] as int * 16 % 256 + q[2] as int / 4 % 16 == Byte1(q[1], q[2])
    ensures q[2] as int * 64 % 256 + q[3] as int == Byte2(q[2], q[3])
  {
    Shift16(q[1]);
    Shift64(q[2]);
    High2(q[1]);
    High4(q[2]);
  }

  lemma High2(v: int)
    requires 0 <= v < 64
    ensures v / 16 % 4 == v / 16
  {
  }

  lemma High4(v: int)
    requires 0 <= v < 64
    ensures v / 4 % 16 == v / 4
  {
  }

  lemma Shift16(v: int)
    requires 0 <= v < 64
    ensures v * 16 % 256 == v % 16 * 16
  {
    assert v * 16 == v / 16 * 256 + v % 16 * 16;
  }

  lemma Shift64(v: int)
    requires 0 <= v < 64
    ensures v * 64 % 256 == v % 4 * 64
  {
    assert v * 64 == v / 4 * 256 + v % 4 * 64;
  }

  lemma NoSextets()
    ensures Byte0(0, 0) == 0
  {
  }

  /** The first part of DecodeFromArrayTemplate's loop: the bytes that are pushed, and the bits that are left. */
  method DecodeQuantum(qlen: nat, q: seq<Sextet>, ghost v: seq<Sextet>) returns (bytes: seq<Byte>, c: int)
    requires qlen == |v| <= 4 && q == Filled(v)
    ensures bytes == Bytes(v) && c == UnusedBits(v)
  {
    hide Byte0, Byte1, Byte2;
    DecoderShifts(q);
    NoSextets();
    bytes := [];
    c := q[0] as int * 4 + q[1] as int / 16 % 4;
    if qlen >= 2 {
      bytes := bytes + [c];
      c := q[1] as int * 16 % 256 + q[2] as int / 4 % 16;
      if qlen >= 3 {
        bytes := bytes + [c];
        c := q[2] as int * 64 % 256 + q[3] as int;
        if qlen >= 4 {
          bytes := bytes + [c];
          c := 0;
        }
      }
    }
  }

  /** DecodeFromArrayTemplate. */
  method DecodeFromArray(data: string, flags: Flags) returns (success: bool, result: seq<Byte>, dataUsed: nat)
    ensures Decoded(result, success, dataUsed) == Decode(flags, data)
  {
    hide ScanOn, Bytes, UnusedBits, Filled, Padded;
    result := [];
    var dpos := 0;
    success := true;
    while dpos < |data|
      invariant dpos <= |data|
      invariant success && DecodeFrom(flags, data, 0).bytes == result + DecodeFrom(flags, data, dpos).bytes
      invariant DecodeFrom(flags, data, 0).success == DecodeFrom(flags, data, dpos).success
      invariant DecodeFrom(flags, data, 0).used == DecodeFrom(flags, data, dpos).used
      decreases |data| - dpos
    {
      ghost var s := ScanFrom(flags, data, dpos);
      var qlen, q, end, padded := GetNextQuantum(flags.parse, flags.pad == PadNo, data, dpos);
      dpos := end;
      var bytes, c := DecodeQuantum(qlen, q, s.values);
      result := result + bytes;
      if qlen < 4 {
        if flags.term != TermAny && c != 0 {
          success := false;
        }
        if flags.pad == PadYes && !padded {
          success := false;
        }
        break;
      }
    }
    if flags.term == TermBuffer && dpos != |data| {
      success := false;
    }
    dataUsed := dpos;
  }
}
