/** What decoding and encoding mean to each other. */
module Base64Laws {
  import opened Base64
  import opened Base64Decoder
  import opened Octets

  // ---------- what is encoded is decoded ----------

  function Spaces(n: nat): (text: string)
    ensures |text| == n && forall i | 0 <= i < n :: text[i] == ' '
  {
    seq(n, _ => ' ')
  }

  lemma ConsumeChar(parse: Parse, illegalPads: bool, s: Scan, v: Sextet)
    requires s.padLen == 0
    ensures Consume(parse, illegalPads, Base64Table(v), s) == Go(s.(values := s.values + [v], pos := s.pos + 1))
  {
    TablesInverse(v, Base64Table(v));
  }

  lemma ConsumePad(parse: Parse, s: Scan)
    requires 2 <= |s.values| && |s.values| + s.padLen < 4
    ensures Consume(parse, false, PAD, s)
            == Go(s.(padLen := s.padLen + 1, padStart := if s.padLen == 0 then s.pos else s.padStart, pos := s.pos + 1))
  {
  }

  lemma FirstChar(text: string, pos: nat, v: seq<Sextet>)
    requires |v| > 0 && pos + |v| <= |text| && text[pos..pos + |v|] == Chars(v)
    ensures text[pos] == Base64Table(v[0]) && text[pos + 1..pos + 1 + |v[1..]|] == Chars(v[1..])
  {
    hide Base64Table;
    var t := text[pos..pos + |v|];
    assert t[0] == text[pos];
    assert text[pos + 1..pos + 1 + |v[1..]|] == t[1..];
  }

  /** Sextets are taken in, however strict the decoder. */
  lemma {:induction false} ScanChars(parse: Parse, illegalPads: bool, text: string, s: Scan, v: seq<Sextet>)
    requires |s.values| + |v| <= 4 && s.padLen == 0 && s.pos + |v| <= |text|
    requires text[s.pos..s.pos + |v|] == Chars(v)
    ensures ScanOn(parse, illegalPads, text, s)
            == ScanOn(parse, illegalPads, text, s.(values := s.values + v, pos := s.pos + |v|))
    decreases |v|
  {
    hide ScanOn, Consume, Base64Table, Chars;
    if |v| == 0 {
      assert s.values + v == s.values;
    } else {
      FirstChar(text, s.pos, v);
      ConsumeChar(parse, illegalPads, s, v[0]);
      var next := s.(values := s.values + [v[0]], pos := s.pos + 1);
      ScanNext(parse, illegalPads, text, s);
      ScanChars(parse, illegalPads, text, next, v[1..]);
      assert next.values + v[1..] == s.values + v;
    }
  }

  /** Pads that complete a quantum are taken in. */
  lemma {:induction false} ScanPads(parse: Parse, text: string, s: Scan, n: nat)
    requires 2 <= |s.values| < 4 && |s.values| + s.padLen + n <= 4 && s.pos + n <= |text|
    requires forall i | s.pos <= i < s.pos + n :: text[i] == PAD
    ensures var start := if s.padLen == 0 && n > 0 then s.pos else s.padStart;
            ScanOn(parse, false, text, s)
            == ScanOn(parse, false, text, s.(padLen := s.padLen + n, padStart := start, pos := s.pos + n))
    decreases n
  {
    hide ScanOn, Consume;
    if n > 0 {
      ConsumePad(parse, s);
      var next := s.(padLen := s.padLen + 1, padStart := if s.padLen == 0 then s.pos else s.padStart, pos := s.pos + 1);
      ScanNext(parse, false, text, s);
      ScanPads(parse, text, next, n - 1);
    }
  }

  /** Spaces up to the end make no difference to a quantum. */
  lemma {:induction false} ScanSpaces(parse: Parse, illegalPads: bool, text: string, s: Scan)
    requires |s.values| < 4 && s.pos <= |text| && (s.pos < |text| ==> parse != ParseStrict)
    requires forall i | s.pos <= i < |text| :: text[i] == ' '
    ensures ScanOn(parse, illegalPads, text, s) == s.(pos := |text|)
    decreases |text| - s.pos
  {
    if s.pos < |text| {
      assert DecodeTable(text[s.pos]) == Space;
      ScanSpaces(parse, illegalPads, text, s.(pos := s.pos + 1));
    }
  }

  /** The last quantum, of one or two bytes, and what follows it. */
  lemma LastQuantum(flags: Flags, text: string, pos: nat, data: seq<Byte>, spaces: nat)
    requires flags.pad != PadNo && pos <= |text| && 1 <= |data| <= 2
    requires text[pos..] == EncodeGroup(data) + Spaces(spaces) && (spaces > 0 ==> flags.parse != ParseStrict)
    ensures DecodeFrom(flags, text, pos) == Decoded(data, true, |text|)
  {
    hide ScanOn, Sextets, Bytes, UnusedBits, DecodeTable, Base64Table;
    var v, n := Sextets(data), 3 - |data|;
    var s := Scan([], 0, 0, pos);
    var tail := text[pos..];
    assert text[pos..pos + |v|] == tail[..|v|] == Chars(v);
    ScanChars(flags.parse, false, text, s, v);
    var t := s.(values := [] + v, pos := pos + |v|);
    forall i | t.pos <= i < t.pos + n ensures text[i] == PAD {
      assert text[i] == tail[i - pos];
    }
    ScanPads(flags.parse, text, t, n);
    var u := t.(padLen := n, padStart := t.pos, pos := t.pos + n);
    forall i | u.pos <= i < |text| ensures text[i] == ' ' {
      assert text[i] == tail[i - pos];
    }
    ScanSpaces(flags.parse, false, text, u);
    BytesOfSextets(data);
    assert [] + v == v;
  }

  /** A quantum of three bytes. */
  lemma WholeQuantum(flags: Flags, text: string, pos: nat, data: seq<Byte>)
    requires pos + 4 <= |text| && |data| == 3 && text[pos..pos + 4] == EncodeGroup(data)
    ensures var rest := DecodeFrom(flags, text, pos + 4);
            DecodeFrom(flags, text, pos) == rest.(bytes := data + rest.bytes)
  {
    hide Sextets, Bytes, UnusedBits;
    var v := Sextets(data);
    assert EncodeGroup(data) == Chars(v) + Pads(0) == Chars(v);
    ScanChars(flags.parse, flags.pad == PadNo, text, Scan([], 0, 0, pos), v);
    assert [] + v == v;
    BytesOfSextets(data);
  }

  lemma Groups(data: seq<Byte>)
    ensures |data| == 0 ==> Encode(data) == ""
    ensures 1 <= |data| < 3 ==> Encode(data) == EncodeGroup(data)
    ensures |data| >= 3 ==> Encode(data) == EncodeGroup(data[..3]) + Encode(data[3..])
  {
  }

  lemma NextGroup(text: string, pos: nat, group: string, rest: string, spaces: string)
    requires pos <= |text| && |group| == 4 && text[pos..] == (group + rest) + spaces
    ensures pos + 4 <= |text| && text[pos..pos + 4] == group && text[pos + 4..] == rest + spaces
  {
    assert text[pos..pos + 4] == text[pos..][..4];
    assert text[pos + 4..] == text[pos..][4..];
  }

  /** After full quanta, spaces are taken for a quantum without padding. */
  lemma OnlySpaces(flags: Flags, text: string, pos: nat, spaces: nat)
    requires flags.pad != PadNo && pos <= |text|
    requires text[pos..] == Spaces(spaces) && (spaces > 0 ==> flags.parse != ParseStrict)
    ensures DecodeFrom(flags, text, pos) == Decoded([], spaces == 0 || flags.pad == PadAny, |text|)
  {
    hide ScanOn, Bytes, UnusedBits;
    if pos < |text| {
      assert forall i | pos <= i < |text| :: text[i] == text[pos..][i - pos];
      ScanSpaces(flags.parse, false, text, Scan([], 0, 0, pos));
      NoBytes();
    }
  }

  /** Encoded data with spaces after it, from any position of a text to its end. */
  lemma {:induction false} DecodeEncodedFrom(flags: Flags, text: string, pos: nat, data: seq<Byte>, spaces: nat)
    requires flags.pad != PadNo && pos <= |text|
    requires text[pos..] == Encode(data) + Spaces(spaces) && (spaces > 0 ==> flags.parse != ParseStrict)
    ensures DecodeFrom(flags, text, pos)
            == Decoded(data, spaces == 0 || |data| % 3 != 0 || flags.pad == PadAny, |text|)
    decreases |data|
  {
    hide EncodeGroup, Encode, DecodeFrom, Spaces;
    Groups(data);
    if |data| == 0 {
      assert "" + Spaces(spaces) == Spaces(spaces);
      OnlySpaces(flags, text, pos, spaces);
    } else if |data| < 3 {
      LastQuantum(flags, text, pos, data, spaces);
    } else {
      NextGroup(text, pos, EncodeGroup(data[..3]), Encode(data[3..]), Spaces(spaces));
      WholeQuantum(flags, text, pos, data[..3]);
      DecodeEncodedFrom(flags, text, pos + 4, data[3..], spaces);
      assert data[..3] + data[3..] == data;
    }
  }

  lemma NoBytes()
    ensures Bytes([]) == [] && UnusedBits([]) == 0
  {
  }

  /** Whatever the flags, as long as pads are allowed, what has been encoded is decoded. */
  lemma DecodeEncode(flags: Flags, data: seq<Byte>)
    requires flags.pad != PadNo
    ensures Decode(flags, Encode(data)) == Decoded(data, true, |Encode(data)|)
  {
    hide Encode, DecodeFrom;
    assert Encode(data)[0..] == Encode(data) + Spaces(0);
    DecodeEncodedFrom(flags, Encode(data), 0, data, 0);
  }

  /**
   * Any decoder that does not insist on nothing but the alphabet decodes an encoding with spaces after it. It accepts
   * them unless it expects padding and the data needed none: after a full quantum it takes the spaces for a quantum
   * without padding.
   */
  lemma TrailingSpaces(flags: Flags, data: seq<Byte>, spaces: nat)
    requires flags.parse != ParseStrict && flags.pad != PadNo
    ensures var text := Encode(data) + Spaces(spaces);
            Decode(flags, text) == Decoded(data, spaces == 0 || |data| % 3 != 0 || flags.pad == PadAny, |text|)
  {
    hide Encode, DecodeFrom;
    var text := Encode(data) + Spaces(spaces);
    assert text[0..] == text;
    DecodeEncodedFrom(flags, text, 0, data, spaces);
  }

  // ---------- what is decoded strictly was encoded ----------

  /** A strict scan has taken in nothing but sextets, then pads. */
  ghost predicate OnlyQuantum(text: string, start: nat, s: Scan) {
    && start <= s.pos <= |text| && |s.values| + s.padLen <= 4 && (s.padLen > 0 ==> |s.values| >= 2)
    && text[start..s.pos] == Chars(s.values) + Pads(s.padLen)
  }

  lemma {:induction false} ScanStrictly(text: string, start: nat, s: Scan)
    requires OnlyQuantum(text, start, s)
    ensures OnlyQuantum(text, start, ScanOn(ParseStrict, false, text, s))
    decreases |text| - s.pos
  {
    hide Base64Table, DecodeTable;
    if |s.values| < 4 && s.pos < |text| {
      var ch := text[s.pos];
      var step := Consume(ParseStrict, false, ch, s);
      if step.Go? {
        assert text[start..s.pos + 1] == text[start..s.pos] + [ch];
        if DecodeTable(ch).Value? {
          TablesInverse(DecodeTable(ch).value, ch);
          assert step.next.values == s.values + [DecodeTable(ch).value];
          assert Pads(0) == "";
          assert text[start..s.pos + 1] == Chars(step.next.values) + Pads(0);
        } else {
          PadIsPadding(ch);
          assert text[start..s.pos + 1] == Chars(s.values) + Pads(s.padLen + 1);
        }
        ScanStrictly(text, start, step.next);
      }
    }
  }

  lemma PadIsPadding(ch: char)
    ensures DecodeTable(ch) == Padding <==> ch == PAD
  {
  }

  lemma NoChars()
    ensures Chars([]) == "" && Pads(0) == ""
  {
  }

  lemma {:induction false} StrictIsEncoded(text: string, pos: nat)
    requires pos <= |text| && DecodeFrom(STRICT, text, pos).success && DecodeFrom(STRICT, text, pos).used == |text|
    ensures text[pos..] == Encode(DecodeFrom(STRICT, text, pos).bytes)
    decreases |text| - pos
  {
    hide Base64Table, DecodeTable, ScanOn, Bytes, UnusedBits, Sextets, Consume, Pads, Chars;
    if pos < |text| {
      var s := ScanFrom(STRICT, text, pos);
      NoChars();
      assert text[pos..pos] == Chars([]) + Pads(0);
      ScanStrictly(text, pos, Scan([], 0, 0, pos));
      if |s.values| > 0 {
        var group := Bytes(s.values);
        if |s.values| == 4 {
          NothingUnused(s.values);
        }
        SextetsOfWhole(s.values);
        assert text[pos..s.pos] == EncodeGroup(group);
        if |s.values| == 4 {
          StrictIsEncoded(text, s.pos);
          var rest := DecodeFrom(STRICT, text, s.pos).bytes;
          assert (group + rest)[..3] == group && (group + rest)[3..] == rest;
          assert text[pos..] == text[pos..s.pos] + text[s.pos..];
        } else {
          assert s.pos == |text| && text[pos..] == text[pos..s.pos];
        }
      }
    }
  }

  lemma NothingUnused(v: seq<Sextet>)
    requires |v| == 4
    ensures UnusedBits(v) == 0
  {
  }

  /** RFC 4648 sections 4 and 3.5: the strict decoder accepts exactly the encodings, each as what it encodes. */
  lemma StrictExactly(text: string, data: seq<Byte>)
    ensures Decode(STRICT, text).success && Decode(STRICT, text).bytes == data <==> text == Encode(data)
  {
    hide DecodeFrom, Encode;
    if text == Encode(data) {
      DecodeEncode(STRICT, data);
    }
    if Decode(STRICT, text).success {
      StrictIsEncoded(text, 0);
      assert text[0..] == text;
    }
  }

  // ---------- decoding anything ----------

  /** The sextets of the characters in the alphabet, whatever is between them. */
  function Values(text: string): seq<Sextet> {
    if |text| == 0 then []
    else
      match DecodeTable(text[0])
      case Value(v) => [v] + Values(text[1..])
      case _ => Values(text[1..])
  }

  /** The bytes in any number of sextets, of which bits at the end may be left over. */
  function Regroup(v: seq<Sextet>): seq<Byte> {
    if |v| < 4 then Bytes(v) else Bytes(v[..4]) + Regroup(v[4..])
  }

  lemma ConsumeAnything(illegalPads: bool, ch: char, s: Scan)
    ensures var step := Consume(ParseAny, illegalPads, ch, s);
            && step.Go? && step.next.pos == s.pos + 1
            && step.next.values == s.values + (if DecodeTable(ch).Value? then [DecodeTable(ch).value] else [])
  {
    hide DecodeTable;
  }

  lemma ValuesStep(text: string, pos: nat)
    requires pos < |text|
    ensures Values(text[pos..]) == (if DecodeTable(text[pos]).Value? then [DecodeTable(text[pos]).value] else [])
                                   + Values(text[pos + 1..])
  {
    hide DecodeTable;
    assert text[pos..][1..] == text[pos + 1..];
  }

  /** A scan that parses anything loses no sextet and stops only at a full quantum or at the end. */
  lemma {:induction false} ScanAnything(illegalPads: bool, text: string, s: Scan)
    requires |s.values| <= 4 && s.pos <= |text|
    ensures var r := ScanOn(ParseAny, illegalPads, text, s);
            && r.values + Values(text[r.pos..]) == s.values + Values(text[s.pos..])
            && (|r.values| == 4 || r.pos == |text|)
    decreases |text| - s.pos
  {
    hide DecodeTable, Consume, ScanOn, Values;
    if |s.values| < 4 && s.pos < |text| {
      ConsumeAnything(illegalPads, text[s.pos], s);
      var next := Consume(ParseAny, illegalPads, text[s.pos], s).next;
      ScanNext(ParseAny, illegalPads, text, s);
      ScanAnything(illegalPads, text, next);
      ValuesStep(text, s.pos);
    } else {
      ScanEnd(ParseAny, illegalPads, text, s);
    }
  }

  lemma {:induction false} AnythingIsRegrouped(flags: Flags, text: string, pos: nat)
    requires flags.parse == ParseAny && pos <= |text|
    ensures DecodeFrom(flags, text, pos).bytes == Regroup(Values(text[pos..]))
    decreases |text| - pos
  {
    hide ScanOn, Bytes, DecodeTable;
    if pos == |text| {
      NoBytes();
    } else {
      var s := ScanFrom(flags, text, pos);
      ScanAnything(flags.pad == PadNo, text, Scan([], 0, 0, pos));
      assert s.values + Values(text[s.pos..]) == Values(text[pos..]);
      if |s.values| == 4 {
        AnythingIsRegrouped(flags, text, s.pos);
        assert Values(text[pos..])[..4] == s.values && Values(text[pos..])[4..] == Values(text[s.pos..]);
      } else {
        assert Values(text[|text|..]) == [] && s.values + [] == s.values;
      }
    }
  }

  /** The bytes depend on nothing but the sextets: noise and pads may be anywhere. */
  lemma ParseAnyIgnoresNoise(flags: Flags, text: string)
    requires flags.parse == ParseAny
    ensures Decode(flags, text).bytes == Regroup(Values(text))
  {
    AnythingIsRegrouped(flags, text, 0);
    assert text[0..] == text;
  }

  /** So an encoding in which anything but characters of the alphabet has been inserted or removed is still decoded. */
  lemma NoisyEncoding(flags: Flags, text: string, data: seq<Byte>)
    requires flags.parse == ParseAny && Values(text) == Values(Encode(data))
    ensures Decode(flags, text).bytes == data
  {
    hide DecodeFrom, Values, Regroup, Encode;
    ParseAnyIgnoresNoise(flags, text);
    ParseAnyIgnoresNoise(flags.(pad := PadAny), Encode(data));
    DecodeEncode(flags.(pad := PadAny), data);
  }
}
