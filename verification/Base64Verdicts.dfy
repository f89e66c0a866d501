/** What the decoder makes of any text under any flags: whitespace, how much is used, and when it succeeds. */
module Base64Verdicts {
  import opened Base64
  import opened Base64Decoder
  import opened Base64Laws
  import opened Octets

  // ---------- whitespace ----------

  /** Tab, line feed, vertical tab, form feed, carriage return and space, by their codes. */
  predicate IsWhite(ch: char) {
    ch as int == 32 || 9 <= ch as int <= 13
  }

  /** The text without whitespace. */
  function Stripped(text: string): string {
    if |text| == 0 then "" else (if IsWhite(text[0]) then "" else [text[0]]) + Stripped(text[1..])
  }

  lemma WhiteEntry(ch: char)
    ensures IsWhite(ch) <==> DecodeTable(ch) == Space
  {
  }

  lemma StrippedStep(text: string, pos: nat)
    requires pos < |text|
    ensures Stripped(text[pos..]) == (if IsWhite(text[pos]) then "" else [text[pos]]) + Stripped(text[pos + 1..])
  {
    assert text[pos..][1..] == text[pos + 1..];
  }

  lemma NothingStripped(text: string)
    ensures Stripped(text[|text|..]) == ""
  {
  }

  /** Two scans that have taken in the same, and have the same before them except for whitespace. */
  ghost predicate Alike(text: string, s: Scan, text': string, s': Scan) {
    && s.values == s'.values && |s.values| <= 4 && s.padLen == s'.padLen
    && (s.padLen > 0 ==> 2 <= |s.values|)
    && s.pos <= |text| && s'.pos <= |text'| && Stripped(text[s.pos..]) == text'[s'.pos..]
    && (s.padLen > 0 ==> s.padStart < |text| && s'.padStart < |text'|
                         && Stripped(text[s.padStart..]) == text'[s'.padStart..])
  }

  /** What ends a scan of a text also ends that of the text without whitespace. */
  ghost predicate EndAlike(text: string, r: Scan, text': string, r': Scan) {
    && Alike(text, r, text', r')
    && (|r.values| < 4 ==> (r.pos == |text| <==> r'.pos == |text'|))
    && (|r.values| == 4 ==> r.pos > 0 && !IsWhite(text[r.pos - 1]))
  }

  /** A character that is not whitespace does the same to both. */
  lemma ConsumeAlike(parse: Parse, illegalPads: bool, text: string, s: Scan, text': string, s': Scan)
    requires Alike(text, s, text', s') && |s.values| < 4 && s.pos < |text| && !IsWhite(text[s.pos])
    ensures s'.pos < |text'| && text'[s'.pos] == text[s.pos]
    ensures var step, step' := Consume(parse, illegalPads, text[s.pos], s), Consume(parse, illegalPads, text[s.pos], s');
            (step.Stop? <==> step'.Stop?) && (step.Go? ==> Alike(text, step.next, text', step'.next)
                                                           && step.next.pos == s.pos + 1)
  {
    hide DecodeTable, Stripped, IsWhite;
    WhiteEntry(text[s.pos]);
    StrippedStep(text, s.pos);
    assert text'[s'.pos..][1..] == text'[s'.pos + 1..];
  }

  lemma {:induction false} ScanAlike(parse: Parse, illegalPads: bool, text: string, s: Scan, text': string, s': Scan)
    requires parse != ParseStrict && Alike(text, s, text', s') && |s.values| < 4
    ensures EndAlike(text, ScanOn(parse, illegalPads, text, s), text', ScanOn(parse, illegalPads, text', s'))
    decreases |text| - s.pos
  {
    hide DecodeTable, Stripped, IsWhite, Consume, ScanOn;
    if s.pos == |text| {
      NothingStripped(text);
      ScanEnd(parse, illegalPads, text, s);
      ScanEnd(parse, illegalPads, text', s');
    } else if IsWhite(text[s.pos]) {
      WhiteEntry(text[s.pos]);
      StrippedStep(text, s.pos);
      ConsumeWhite(parse, illegalPads, text[s.pos], s);
      ScanNext(parse, illegalPads, text, s);
      ScanAlike(parse, illegalPads, text, s.(pos := s.pos + 1), text', s');
    } else {
      ConsumeAlike(parse, illegalPads, text, s, text', s');
      ScanNext(parse, illegalPads, text, s);
      ScanNext(parse, illegalPads, text', s');
      var step := Consume(parse, illegalPads, text[s.pos], s);
      if step.Go? {
        var next, next' := step.next, Consume(parse, illegalPads, text[s.pos], s').next;
        if |next.values| < 4 {
          ScanAlike(parse, illegalPads, text, next, text', next');
        } else {
          ScanEnd(parse, illegalPads, text, next);
          ScanEnd(parse, illegalPads, text', next');
        }
      }
    }
  }

  lemma ConsumeWhite(parse: Parse, illegalPads: bool, ch: char, s: Scan)
    requires parse != ParseStrict && IsWhite(ch)
    ensures Consume(parse, illegalPads, ch, s) == Go(s.(pos := s.pos + 1))
  {
  }

  /** The end of a quantum is where it is without the whitespace. */
  lemma EndsAlike(text: string, r: Scan, text': string, r': Scan)
    requires EndAlike(text, r, text', r')
    ensures EndOf(r) <= |text| && EndOf(r') <= |text'| && Stripped(text[EndOf(r)..]) == text'[EndOf(r')..]
    ensures |r.values| < 4 ==> (EndOf(r) == |text| <==> EndOf(r') == |text'|)
  {
    hide Stripped, IsWhite;
  }

  lemma {:induction false} LastIsWhite(text: string, pos: nat)
    requires pos < |text| && Stripped(text[pos..]) == ""
    ensures IsWhite(text[|text| - 1])
    decreases |text| - pos
  {
    StrippedStep(text, pos);
    if pos + 1 < |text| {
      LastIsWhite(text, pos + 1);
    }
  }

  predicate EndsWhite(text: string) {
    |text| > 0 && IsWhite(text[|text| - 1])
  }

  /** The quanta of a text and of what it is without whitespace, from positions that correspond. */
  lemma {:induction false} DecodeAlike(flags: Flags, text: string, pos: nat, text': string, pos': nat)
    requires flags.parse != ParseStrict && pos <= |text| && pos' <= |text'| && Stripped(text[pos..]) == text'[pos'..]
    ensures var d, d' := DecodeFrom(flags, text, pos), DecodeFrom(flags, text', pos');
            && d.bytes == d'.bytes && d.used <= |text| && d'.used <= |text'|
            && Stripped(text[d.used..]) == text'[d'.used..] && (d.used == |text| <==> d'.used == |text'|)
            && (d.success <==> d'.success && !(flags.pad == PadYes && |d.bytes| % 3 == 0
                                               && pos < |text| && EndsWhite(text)))
    decreases |text| - pos
  {
    hide Stripped, IsWhite, ScanOn, Bytes, UnusedBits;
    NothingStripped(text);
    if pos < |text| {
      var start, start' := Scan([], 0, 0, pos), Scan([], 0, 0, pos');
      ScanAlike(flags.parse, flags.pad == PadNo, text, start, text', start');
      var r, r' := ScanFrom(flags, text, pos), ScanFrom(flags, text', pos');
      EndsAlike(text, r, text', r');
      NoBytes();
      if pos' == |text'| {
        LastIsWhite(text, pos);
        ScanEnd(flags.parse, flags.pad == PadNo, text', start');
      } else if |r.values| == 4 {
        DecodeAlike(flags, text, r.pos, text', r'.pos);
        WholeGroup(Bytes(r.values), DecodeFrom(flags, text, r.pos).bytes);
      }
    }
  }

  lemma WholeGroup(group: seq<Byte>, rest: seq<Byte>)
    requires |group| == 3
    ensures |group + rest| % 3 == |rest| % 3
  {
  }

  /**
   * Whitespace anywhere in a text makes no difference to a decoder that allows it, except to one that expects padding:
   * after full quanta that needed none, it takes whitespace at the end for a quantum without padding.
   */
  lemma WhitespaceIgnored(flags: Flags, text: string)
    requires flags.parse != ParseStrict
    ensures var d, d' := Decode(flags, text), Decode(flags, Stripped(text));
            && d.bytes == d'.bytes && d.used <= |text| && d'.used <= |Stripped(text)|
            && Stripped(text[d.used..]) == Stripped(text)[d'.used..]
            && (d.used == |text| <==> d'.used == |Stripped(text)|)
            && (d.success <==> d'.success && !(flags.pad == PadYes && |d.bytes| % 3 == 0 && EndsWhite(text)))
  {
    hide Stripped, DecodeFrom, IsWhite;
    assert text[0..] == text && Stripped(text)[0..] == Stripped(text);
    DecodeAlike(flags, text, 0, Stripped(text), 0);
  }

  /** So encoded data with whitespace anywhere, as in lines, is decoded, and all of the text is used. */
  lemma WhitespaceAnywhere(flags: Flags, text: string, data: seq<Byte>)
    requires flags.parse != ParseStrict && flags.pad != PadNo && Stripped(text) == Encode(data)
    ensures Decode(flags, text)
            == Decoded(data, !EndsWhite(text) || |data| % 3 != 0 || flags.pad == PadAny, |text|)
  {
    hide Stripped, Encode, DecodeFrom, IsWhite;
    WhitespaceIgnored(flags, text);
    DecodeEncode(flags, data);
  }
}
