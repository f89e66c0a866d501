/** The decoder in closed form when it parses anything. */
module Base64Anything {
  import opened Base64
  import opened Base64Decoder
  import opened Base64Laws
  import opened Base64Reference
  import opened Octets

  /** How many pads there are after the last character of the alphabet. */
  function TailPads(text: string): nat {
    if |text| == 0 || IsBase64Char(text[|text| - 1]) then 0
    else TailPads(text[..|text| - 1]) + if text[|text| - 1] == '=' then 1 else 0
  }

  /** Where the first of them is. */
  function FirstTailPad(text: string): (p: nat)
    ensures p <= |text|
    ensures TailPads(text) > 0 ==> p < |text| && text[p] == '=' && TailPads(text[..p]) == 0
                                   && forall i | p <= i < |text| :: !IsBase64Char(text[i])
  {
    if TailPads(text) == 0 then |text|
    else if TailPads(text[..|text| - 1]) == 0 then |text| - 1
    else
      assert forall p | 0 <= p < |text| :: text[..|text| - 1][..p] == text[..p];
      FirstTailPad(text[..|text| - 1])
  }

  /** There are pads for the last n sextets, but too few of them. */
  predicate Unfinished(flags: Flags, n: nat, pads: nat) {
    flags.pad != PadNo && n % 4 >= 2 && 0 < pads < 4 - n % 4
  }

  /** The text ends with the last character of a full quantum. */
  predicate EndsFull(text: string, n: nat) {
    n % 4 == 0 && (text == "" || IsBase64Char(text[|text| - 1]))
  }

  /** What a decoder that ignores everything else makes of a text. */
  function Loosely(flags: Flags, text: string): Decoded {
    var v, pads := Values(text), TailPads(text);
    Decoded(Regroup(v), Accepted(flags, v, EndsFull(text, |v|), Completes(flags, |v|, pads)),
            if Unfinished(flags, |v|, pads) then FirstTailPad(text) else |text|)
  }

  lemma TailStep(text: string, pos: nat)
    requires pos < |text|
    ensures var x, x' := text[..pos], text[..pos + 1];
            if IsBase64Char(text[pos]) then TailPads(x') == 0
            else if text[pos] == '=' then
              TailPads(x') == TailPads(x) + 1 && FirstTailPad(x') == if TailPads(x) == 0 then pos else FirstTailPad(x)
            else
              TailPads(x') == TailPads(x) && (TailPads(x) > 0 ==> FirstTailPad(x') == FirstTailPad(x))
  {
    hide IsBase64Char;
    var x' := text[..pos + 1];
    assert x'[..pos] == text[..pos] && x'[pos] == text[pos];
  }

  /** What a scan that parses anything has taken in since it started. */
  ghost predicate Taking(illegalPads: bool, text: string, start: nat, s: Scan) {
    && start <= s.pos <= |text| && |s.values| <= 4 && s.values == Values(text[start..s.pos])
    && s.padLen == Taken(illegalPads, |s.values|, TailPads(text[..s.pos]))
    && (s.padLen > 0 ==> s.padStart == FirstTailPad(text[..s.pos]))
    && (|s.values| == 4 ==> IsBase64Char(text[s.pos - 1]))
  }

  lemma TakenStep(illegalPads: bool, n: nat, pads: nat)
    requires n < 4
    ensures Taken(illegalPads, n, pads + 1)
            == if illegalPads || n < 2 || n + Taken(illegalPads, n, pads) >= 4 then Taken(illegalPads, n, pads)
               else Taken(illegalPads, n, pads) + 1
    ensures Taken(illegalPads, n, 0) == 0 && Taken(illegalPads, n + 1, 0) == 0
    ensures illegalPads || n < 2 ==> Taken(illegalPads, n, pads) == 0
    ensures Taken(illegalPads, n, pads) > 0 ==> pads > 0
    ensures !illegalPads && n >= 2 && Taken(illegalPads, n, pads) == 0 ==> pads == 0
  {
  }

  lemma {:induction false} ValuesLast(x: string)
    requires |x| > 0
    ensures var entry := DecodeTable(x[|x| - 1]);
            Values(x) == Values(x[..|x| - 1]) + if entry.Value? then [entry.value] else []
  {
    hide DecodeTable;
    ValuesJoin(x[..|x| - 1], x[|x| - 1..]);
    assert x == x[..|x| - 1] + x[|x| - 1..];
    assert x[|x| - 1..][1..] == "";
  }

  lemma TakeOne(illegalPads: bool, text: string, start: nat, s: Scan)
    requires Taking(illegalPads, text, start, s) && |s.values| < 4 && s.pos < |text|
    ensures var step := Consume(ParseAny, illegalPads, text[s.pos], s);
            step.Go? && step.next.pos == s.pos + 1 && Taking(illegalPads, text, start, step.next)
  {
    hide DecodeTable, IsBase64Char, Values, TailPads, FirstTailPad, Taken;
    var ch, pads := text[s.pos], TailPads(text[..s.pos]);
    Entries(ch);
    TailStep(text, s.pos);
    TakenStep(illegalPads, |s.values|, pads);
    ValuesLast(text[start..s.pos + 1]);
    assert text[start..s.pos + 1][..s.pos - start] == text[start..s.pos];
  }

  lemma {:induction false} TakeOn(illegalPads: bool, text: string, start: nat, s: Scan)
    requires Taking(illegalPads, text, start, s)
    ensures var r := ScanOn(ParseAny, illegalPads, text, s);
            Taking(illegalPads, text, start, r) && (|r.values| == 4 || r.pos == |text|)
    decreases |text| - s.pos
  {
    hide ScanOn, Consume, Values, TailPads, FirstTailPad, Taken, IsBase64Char;
    if |s.values| < 4 && s.pos < |text| {
      TakeOne(illegalPads, text, start, s);
      ScanNext(ParseAny, illegalPads, text, s);
      TakeOn(illegalPads, text, start, Consume(ParseAny, illegalPads, text[s.pos], s).next);
    } else {
      ScanEnd(ParseAny, illegalPads, text, s);
    }
  }

  /** The scan of a quantum. */
  lemma TakeQuantum(flags: Flags, text: string, pos: nat)
    requires flags.parse == ParseAny && pos <= |text|
    ensures var r := ScanFrom(flags, text, pos);
            Taking(flags.pad == PadNo, text, pos, r) && (|r.values| == 4 || r.pos == |text|)
  {
    hide ScanOn, TailPads, FirstTailPad, IsBase64Char;
    assert text[pos..pos] == "";
    TakeOn(flags.pad == PadNo, text, pos, Scan([], 0, 0, pos));
  }

  /** What the last scan amounts to. */
  lemma EndOfAnything(flags: Flags, n: nat, pads: nat, s: Scan)
    requires |s.values| == n < 4 && s.padLen == Taken(flags.pad == PadNo, n, pads)
    ensures Padded(s) <==> Completes(flags, n, pads)
    ensures EndOf(s) == if Unfinished(flags, n, pads) then s.padStart else s.pos
    ensures Unfinished(flags, n, pads) ==> s.padLen > 0
  {
  }

  lemma {:induction false} ValuesAtEnd(text: string, pos: nat)
    requires pos < |text| && Values(text[pos..]) == []
    ensures !IsBase64Char(text[|text| - 1])
  {
    hide DecodeTable, IsBase64Char, Values;
    ValuesLast(text[pos..]);
    Entries(text[|text| - 1]);
  }

  lemma LastOfAnything(flags: Flags, text: string, pos: nat)
    requires flags.parse == ParseAny && pos < |text| && |ScanFrom(flags, text, pos).values| < 4
    ensures var v, pads := Values(text[pos..]), TailPads(text);
            DecodeFrom(flags, text, pos)
            == Decoded(Regroup(v), Accepted(flags, v, EndsFull(text, |v|), Completes(flags, |v|, pads)),
                       if Unfinished(flags, |v|, pads) then FirstTailPad(text) else |text|)
  {
    hide ScanFrom, TailPads, FirstTailPad, IsBase64Char, Values, Regroup, Taken, Completes, Unfinished, Padded, EndOf, Bytes,
         UnusedBits, NoBitsLeft;
    var s, v, pads := ScanFrom(flags, text, pos), Values(text[pos..]), TailPads(text);
    TakeQuantum(flags, text, pos);
    assert text[..|text|] == text && text[pos..|text|] == text[pos..];
    EndOfAnything(flags, |v|, pads, s);
    LeftOver(v);
    if v == [] {
      ValuesAtEnd(text, pos);
    }
  }

  lemma FourMoreSextets(flags: Flags, text: string, n: nat, pads: nat)
    requires n >= 4
    ensures Completes(flags, n, pads) <==> Completes(flags, n - 4, pads)
    ensures Unfinished(flags, n, pads) <==> Unfinished(flags, n - 4, pads)
    ensures EndsFull(text, n) <==> EndsFull(text, n - 4)
  {
    hide IsBase64Char;
    assert n % 4 == (n - 4) % 4;
  }

  lemma NothingToTake(flags: Flags, pads: nat)
    ensures !Completes(flags, 0, pads) && !Unfinished(flags, 0, pads)
  {
  }

  lemma {:induction false} LooselyFrom(flags: Flags, text: string, pos: nat)
    requires flags.parse == ParseAny && pos <= |text| && (pos > 0 ==> IsBase64Char(text[pos - 1]))
    ensures var v, pads := Values(text[pos..]), TailPads(text);
            DecodeFrom(flags, text, pos)
            == Decoded(Regroup(v), Accepted(flags, v, EndsFull(text, |v|), Completes(flags, |v|, pads)),
                       if Unfinished(flags, |v|, pads) then FirstTailPad(text) else |text|)
    decreases |text| - pos
  {
    hide ScanOn, TailPads, FirstTailPad, IsBase64Char, Values, Regroup, Taken, Completes, Unfinished, Bytes, UnusedBits,
         NoBitsLeft;
    var pads := TailPads(text);
    NothingToTake(flags, pads);
    if pos == |text| {
      assert Values(text[pos..]) == [] by {
        NoValues();
      }
      LeftOver([]);
      NoBytes();
    } else {
      var s := ScanFrom(flags, text, pos);
      if |s.values| < 4 {
        LastOfAnything(flags, text, pos);
      } else {
        TakeQuantum(flags, text, pos);
        LooselyFrom(flags, text, s.pos);
        var rest := Values(text[s.pos..]);
        ValuesJoin(text[pos..s.pos], text[s.pos..]);
        assert text[pos..] == text[pos..s.pos] + text[s.pos..];
        NextFour(s.values, rest);
        FourMoreSextets(flags, text, 4 + |rest|, pads);
      }
    }
  }

  lemma NoValues()
    ensures Values("") == []
  {
  }

  /**
   * Parsing anything, whatever is expected of padding and of the end: the bytes are those of all characters of the
   * alphabet, success is as defined, and the whole text is used, except that pads after the last character are not, if
   * pads are allowed and these are too few.
   */
  lemma AnyForm(flags: Flags, text: string)
    requires flags.parse == ParseAny
    ensures var d := Loosely(flags, text);
            Decode(flags, text) == d.(success := d.success && (flags.term == TermBuffer ==> d.used == |text|))
  {
    hide DecodeFrom, TailPads, FirstTailPad, IsBase64Char, Values, Regroup, Completes, Unfinished, NoBitsLeft;
    LooselyFrom(flags, text, 0);
    assert text[0..] == text;
  }
}
