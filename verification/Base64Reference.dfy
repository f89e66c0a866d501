/** What the decoder computes, in closed form: by counting characters, for any text under any flags. */
module Base64Reference {
  import opened Base64
  import opened Base64Decoder
  import opened Base64Laws
  import opened Base64Verdicts
  import opened Octets

  // ---------- what there is in a text ----------

  /** How many characters of the alphabet a text starts with. */
  function AlphabetRun(text: string): (n: nat)
    ensures n <= |text| && forall i | 0 <= i < n :: IsBase64Char(text[i])
    ensures n < |text| ==> !IsBase64Char(text[n])
  {
    if |text| == 0 || !IsBase64Char(text[0]) then 0 else 1 + AlphabetRun(text[1..])
  }

  /** How many pads a text starts with. */
  function PadRun(text: string): (n: nat)
    ensures n <= |text| && forall i | 0 <= i < n :: text[i] == '='
    ensures n < |text| ==> text[n] != '='
  {
    if |text| == 0 || text[0] != '=' then 0 else 1 + PadRun(text[1..])
  }

  /** No bits but zeros are left over when sextets are grouped into bytes. */
  predicate NoBitsLeft(v: seq<Sextet>) {
    match |v| % 4
    case 0 => true
    case 1 => v[|v| - 1] == 0
    case 2 => v[|v| - 1] % 16 == 0
    case _ => v[|v| - 1] % 4 == 0
  }

  /**
   * Whether decoding these sextets succeeds: at once if the text is at its end after full quanta, otherwise if what is
   * left over and the padding are as the flags demand.
   */
  predicate Accepted(flags: Flags, v: seq<Sextet>, ended: bool, padded: bool) {
    ended || ((flags.term == TermAny || NoBitsLeft(v)) && (flags.pad == PadYes ==> padded))
  }

  /** Pads complete n sextets, and are allowed to. */
  predicate Completes(flags: Flags, n: nat, pads: nat) {
    flags.pad != PadNo && n % 4 >= 2 && pads >= 4 - n % 4
  }

  /** What a decoder that takes nothing but the alphabet and pads makes of a text. */
  function Strictly(flags: Flags, text: string): Decoded {
    var n := AlphabetRun(text);
    var v := Values(text[..n]);
    var padded := Completes(flags, n, PadRun(text[n..]));
    Decoded(Regroup(v), Accepted(flags, v, n % 4 == 0 && n == |text|, padded), if padded then n + 4 - n % 4 else n)
  }

  // ---------- characters of the alphabet ----------

  lemma {:induction false} CharsOfValues(text: string)
    requires forall i | 0 <= i < |text| :: IsBase64Char(text[i])
    ensures Chars(Values(text)) == text && |Values(text)| == |text|
  {
    hide IsBase64Char, DecodeTable, Base64Table;
    if |text| > 0 {
      Entries(text[0]);
      TablesInverse(DecodeTable(text[0]).value, text[0]);
      CharsOfValues(text[1..]);
      assert Values(text) == [DecodeTable(text[0]).value] + Values(text[1..]);
      assert Chars(Values(text))[1..] == Chars(Values(text[1..]));
    }
  }

  lemma {:induction false} ValuesJoin(a: string, b: string)
    ensures Values(a + b) == Values(a) + Values(b)
  {
    hide DecodeTable;
    if |a| == 0 {
      assert a + b == b;
    } else {
      ValuesJoin(a[1..], b);
      assert (a + b)[1..] == a[1..] + b;
    }
  }

  lemma {:induction false} RunOfRest(text: string, k: nat)
    requires k <= AlphabetRun(text)
    ensures AlphabetRun(text[k..]) == AlphabetRun(text) - k
  {
    hide IsBase64Char;
    if k == 0 {
      assert text[0..] == text;
    } else {
      RunOfRest(text[1..], k - 1);
      assert text[1..][k - 1..] == text[k..];
    }
  }

  lemma ZeroBits(v: Sextet)
    ensures Byte0(v, 0) == 0 <==> v == 0
    ensures Byte1(v, 0) == 0 <==> v % 16 == 0
    ensures Byte2(v, 0) == 0 <==> v % 4 == 0
  {
  }

  lemma LeftOver(v: seq<Sextet>)
    requires |v| < 4
    ensures UnusedBits(v) == 0 <==> NoBitsLeft(v)
    ensures Regroup(v) == Bytes(v)
  {
    hide Byte0, Byte1, Byte2, Bytes;
    if |v| > 0 {
      ZeroBits(v[|v| - 1]);
    }
  }

  lemma NextFour(v: seq<Sextet>, w: seq<Sextet>)
    requires |v| == 4
    ensures Regroup(v + w) == Bytes(v) + Regroup(w) && (NoBitsLeft(v + w) <==> NoBitsLeft(w))
  {
    hide Bytes;
    assert (v + w)[..4] == v && (v + w)[4..] == w;
    assert |v + w| % 4 == |w| % 4;
    if |w| > 0 {
      assert (v + w)[|v + w| - 1] == w[|w| - 1];
    }
  }

  // ---------- strict decoding ----------

  /** A character that ends a scan which allows no other than the alphabet and pads. */
  lemma StopsAt(parse: Parse, illegalPads: bool, ch: char, s: Scan)
    requires parse != ParseAny && (IsWhite(ch) ==> parse == ParseStrict)
    requires ch == '=' ==> illegalPads || |s.values| < 2 || |s.values| + s.padLen >= 4
    requires IsBase64Char(ch) ==> s.padLen > 0
    ensures Consume(parse, illegalPads, ch, s) == Stop
  {
    hide DecodeTable;
    Entries(ch);
    WhiteEntry(ch);
  }

  /** How many of these pads a quantum of n sextets takes. */
  function Taken(illegalPads: bool, n: nat, pads: nat): nat {
    if illegalPads || n < 2 || n >= 4 then 0 else if pads < 4 - n then pads else 4 - n
  }

  /** The scan after n sextets and the pads that are taken. */
  function After(v: seq<Sextet>, taken: nat, end: nat): Scan {
    Scan(v, taken, if taken == 0 then 0 else end, end + taken)
  }

  lemma AfterIs(v: seq<Sextet>, taken: nat, end: nat)
    ensures var s := After(v, taken, end); s.values == v && s.padLen == taken && s.pos == end + taken
  {
  }

  /** Sextets and pads are taken in. */
  lemma TakesIn(parse: Parse, illegalPads: bool, text: string, pos: nat, v: seq<Sextet>, taken: nat)
    requires pos + |v| + taken <= |text| && |v| < 4 && text[pos..pos + |v|] == Chars(v)
    requires taken > 0 ==> !illegalPads && |v| >= 2 && |v| + taken <= 4
    requires forall i | pos + |v| <= i < pos + |v| + taken :: text[i] == '='
    ensures ScanOn(parse, illegalPads, text, Scan([], 0, 0, pos))
            == ScanOn(parse, illegalPads, text, After(v, taken, pos + |v|))
  {
    hide ScanOn, Consume, Chars;
    ScanChars(parse, illegalPads, text, Scan([], 0, 0, pos), v);
    assert [] + v == v;
    if taken > 0 {
      ScanPads(parse, text, Scan(v, 0, 0, pos + |v|), taken);
    }
  }

  /** And there the scan stops. */
  lemma ScanStops(parse: Parse, illegalPads: bool, text: string, s: Scan)
    requires parse != ParseAny && |s.values| < 4 && s.pos <= |text|
    requires s.pos < |text| ==> (IsWhite(text[s.pos]) ==> parse == ParseStrict)
    requires s.pos < |text| && text[s.pos] == '=' ==> illegalPads || |s.values| < 2 || |s.values| + s.padLen >= 4
    requires s.pos < |text| && IsBase64Char(text[s.pos]) ==> s.padLen > 0
    ensures ScanOn(parse, illegalPads, text, s) == s
  {
    hide ScanOn, Consume, IsWhite, IsBase64Char;
    if s.pos < |text| {
      StopsAt(parse, illegalPads, text[s.pos], s);
      ScanNext(parse, illegalPads, text, s);
    } else {
      ScanEnd(parse, illegalPads, text, s);
    }
  }

  lemma RunAt(text: string, pos: nat, n: nat)
    requires pos <= |text| && n == AlphabetRun(text[pos..])
    ensures pos + n <= |text| && text[pos..pos + n] == text[pos..][..n] && text[pos..][n..] == text[pos + n..]
    ensures pos + n < |text| ==> !IsBase64Char(text[pos + n])
  {
    hide IsBase64Char, AlphabetRun;
    if pos + n < |text| {
      assert text[pos..][n] == text[pos + n];
    }
  }

  lemma PadsAt(text: string, pos: nat, pads: nat)
    requires pos <= |text| && pads == PadRun(text[pos..])
    ensures pos + pads <= |text| && forall i | pos <= i < pos + pads :: text[i] == '='
    ensures pos + pads < |text| ==> text[pos + pads] != '='
  {
    hide PadRun;
    forall i | pos <= i < pos + pads ensures text[i] == '=' {
      assert text[pos..][i - pos] == text[i];
    }
    if pos + pads < |text| {
      assert text[pos..][pads] == text[pos + pads];
    }
  }

  lemma TakenBound(illegalPads: bool, n: nat, pads: nat)
    ensures var taken := Taken(illegalPads, n, pads);
            && taken <= pads && (taken > 0 ==> !illegalPads && n >= 2 && n + taken <= 4)
            && (taken < pads ==> illegalPads || n < 2 || n + taken >= 4)
  {
  }

  /** After the sextets and the pads that are taken, a strict scan stops. */
  lemma AfterStops(flags: Flags, text: string, end: nat, v: seq<Sextet>, pads: nat)
    requires flags.parse != ParseAny && end <= |text| && |v| < 4 && pads == PadRun(text[end..])
    requires flags.parse == ParseWhite ==> forall i | end <= i < |text| :: !IsWhite(text[i])
    requires end < |text| ==> !IsBase64Char(text[end])
    ensures var s := After(v, Taken(flags.pad == PadNo, |v|, pads), end);
            s.pos <= |text| && ScanOn(flags.parse, flags.pad == PadNo, text, s) == s
  {
    hide ScanOn, IsBase64Char, IsWhite, Taken, PadRun, After;
    var taken := Taken(flags.pad == PadNo, |v|, pads);
    PadsAt(text, end, pads);
    TakenBound(flags.pad == PadNo, |v|, pads);
    AfterIs(v, taken, end);
    ScanStops(flags.parse, flags.pad == PadNo, text, After(v, taken, end));
  }

  /** What a strict scan of a text that starts with n < 4 characters of the alphabet ends with. */
  lemma LastScan(flags: Flags, text: string, pos: nat, n: nat)
    requires flags.parse != ParseAny && pos <= |text| && n == AlphabetRun(text[pos..]) < 4
    requires flags.parse == ParseWhite ==> forall i | pos <= i < |text| :: !IsWhite(text[i])
    ensures ScanFrom(flags, text, pos)
            == After(Values(text[pos..][..n]), Taken(flags.pad == PadNo, n, PadRun(text[pos..][n..])), pos + n)
  {
    hide ScanOn, IsBase64Char, IsWhite, Values, Chars, Taken, AlphabetRun, PadRun, After;
    var illegalPads, v, pads := flags.pad == PadNo, Values(text[pos..][..n]), PadRun(text[pos..][n..]);
    RunAt(text, pos, n);
    CharsOfValues(text[pos..][..n]);
    PadsAt(text, pos + n, pads);
    var taken := Taken(illegalPads, n, pads);
    TakenBound(illegalPads, n, pads);
    TakesIn(flags.parse, illegalPads, text, pos, v, taken);
    AfterStops(flags, text, pos + n, v, pads);
  }

  /** What that scan amounts to. */
  lemma LastVerdict(flags: Flags, v: seq<Sextet>, pads: nat, end: nat)
    requires |v| < 4
    ensures var s := After(v, Taken(flags.pad == PadNo, |v|, pads), end);
            && (Padded(s) <==> Completes(flags, |v|, pads))
            && EndOf(s) == end + if Padded(s) then 4 - |v| else 0
  {
  }

  lemma FirstFour(text: string, pos: nat, n: nat)
    requires pos <= |text| && n == AlphabetRun(text[pos..]) && n >= 4
    ensures pos + 4 <= |text| && AlphabetRun(text[pos + 4..]) == n - 4
    ensures text[pos + 4..][n - 4..] == text[pos..][n..]
    ensures var v, w := Values(text[pos..pos + 4]), Values(text[pos + 4..][..n - 4]);
            && |v| == 4 && Chars(v) == text[pos..pos + 4] && Values(text[pos..][..n]) == v + w
  {
    hide IsBase64Char, AlphabetRun, Values, Chars;
    var x := text[pos..];
    assert text[pos..pos + 4] == x[..4];
    CharsOfValues(x[..4]);
    RunOfRest(x, 4);
    assert x[4..] == text[pos + 4..];
    assert x[4..][n - 4..] == x[n..];
    assert x[..n] == x[..4] + x[4..][..n - 4];
    ValuesJoin(x[..4], x[4..][..n - 4]);
  }

  /** A full quantum and what follows it. */
  lemma FullQuantum(flags: Flags, text: string, pos: nat, v: seq<Sextet>)
    requires |v| == 4 && pos + 4 <= |text| && text[pos..pos + 4] == Chars(v)
    ensures var rest := DecodeFrom(flags, text, pos + 4);
            DecodeFrom(flags, text, pos) == rest.(bytes := Bytes(v) + rest.bytes)
  {
    hide ScanOn, Chars, Bytes, UnusedBits;
    ScanChars(flags.parse, flags.pad == PadNo, text, Scan([], 0, 0, pos), v);
    assert [] + v == v;
    ScanEnd(flags.parse, flags.pad == PadNo, text, Scan(v, 0, 0, pos + 4));
  }

  lemma PartialQuantum(flags: Flags, text: string, pos: nat, n: nat)
    requires flags.parse != ParseAny && pos <= |text| && n == AlphabetRun(text[pos..]) < 4
    requires flags.parse == ParseWhite ==> forall i | pos <= i < |text| :: !IsWhite(text[i])
    ensures var d := Strictly(flags, text[pos..]); DecodeFrom(flags, text, pos) == d.(used := pos + d.used)
  {
    hide ScanOn, IsBase64Char, IsWhite, Values, Bytes, UnusedBits, NoBitsLeft, Regroup, AlphabetRun, PadRun, Padded, EndOf,
         Completes, After, Taken;
    var v, pads := Values(text[pos..][..n]), PadRun(text[pos..][n..]);
    CharsOfValues(text[pos..][..n]);
    LastScan(flags, text, pos, n);
    LeftOver(v);
    LastVerdict(flags, v, pads, pos + n);
    AfterIs(v, Taken(flags.pad == PadNo, n, pads), pos + n);
    NothingCompletes(flags, pads);
  }

  lemma NothingCompletes(flags: Flags, pads: nat)
    ensures !Completes(flags, 0, pads)
  {
  }

  lemma FourMoreComplete(flags: Flags, n: nat, pads: nat)
    requires n >= 4
    ensures n % 4 == (n - 4) % 4 && (Completes(flags, n, pads) <==> Completes(flags, n - 4, pads))
  {
  }

  /** Four more characters of the alphabet in front of a text. */
  lemma StrictlyStep(flags: Flags, text: string, pos: nat)
    requires pos <= |text| && AlphabetRun(text[pos..]) >= 4
    ensures pos + 4 <= |text|
    ensures var v := Values(text[pos..pos + 4]);
            var d, rest := Strictly(flags, text[pos..]), Strictly(flags, text[pos + 4..]);
            && |v| == 4 && text[pos..pos + 4] == Chars(v)
            && d == rest.(bytes := Bytes(v) + rest.bytes, used := rest.used + 4)
  {
    hide Values, Chars, Bytes, NoBitsLeft, Regroup, AlphabetRun, PadRun, Completes;
    var n := AlphabetRun(text[pos..]);
    FirstFour(text, pos, n);
    NextFour(Values(text[pos..pos + 4]), Values(text[pos + 4..][..n - 4]));
    FourMoreComplete(flags, n, PadRun(text[pos..][n..]));
  }

  lemma {:induction false} StrictlyFrom(flags: Flags, text: string, pos: nat)
    requires flags.parse != ParseAny && pos <= |text|
    requires flags.parse == ParseWhite ==> forall i | pos <= i < |text| :: !IsWhite(text[i])
    ensures var d := Strictly(flags, text[pos..]); DecodeFrom(flags, text, pos) == d.(used := pos + d.used)
    decreases |text| - pos
  {
    hide DecodeFrom, Strictly, IsWhite, Values, Chars, Bytes, AlphabetRun;
    var n := AlphabetRun(text[pos..]);
    if n < 4 {
      PartialQuantum(flags, text, pos, n);
    } else {
      StrictlyStep(flags, text, pos);
      FullQuantum(flags, text, pos, Values(text[pos..pos + 4]));
      StrictlyFrom(flags, text, pos + 4);
    }
  }

  /**
   * Strict parsing, whatever is expected of padding and of the end: the bytes are those of the characters of the alphabet
   * that the text starts with; pads are used if they are allowed and complete the last group; and success is as defined.
   */
  lemma StrictForm(flags: Flags, text: string)
    requires flags.parse == ParseStrict
    ensures var d := Strictly(flags, text);
            Decode(flags, text) == d.(success := d.success && (flags.term == TermBuffer ==> d.used == |text|))
  {
    hide DecodeFrom, Strictly;
    StrictlyFrom(flags, text, 0);
    assert text[0..] == text;
  }

  lemma {:induction false} StrippedHasNoWhite(text: string)
    ensures forall i | 0 <= i < |Stripped(text)| :: !IsWhite(Stripped(text)[i])
  {
    hide IsWhite;
    if |text| > 0 {
      StrippedHasNoWhite(text[1..]);
    }
  }

  /** Parsing with whitespace allowed is strict parsing of the text without it, but for what follows data without pads. */
  lemma WhiteForm(flags: Flags, text: string)
    requires flags.parse == ParseWhite
    ensures var d, d' := Decode(flags, text), Strictly(flags, Stripped(text));
            && d.bytes == d'.bytes && d.used <= |text| && d'.used <= |Stripped(text)|
            && Stripped(text[d.used..]) == Stripped(text)[d'.used..]
            && (d.used == |text| <==> d'.used == |Stripped(text)|)
            && (d.success <==> d'.success && (flags.term == TermBuffer ==> d'.used == |Stripped(text)|)
                               && !(flags.pad == PadYes && |d.bytes| % 3 == 0 && EndsWhite(text)))
  {
    hide DecodeFrom, Strictly, Stripped, IsWhite;
    WhitespaceIgnored(flags, text);
    StrippedHasNoWhite(text);
    StrictlyFrom(flags, Stripped(text), 0);
    assert Stripped(text)[0..] == Stripped(text);
  }

  // ---------- strictly decoded texts ----------

  /** All sextets of the data; the last one may be filled up with zeros. */
  function AllSextets(data: seq<Byte>): seq<Sextet> {
    if |data| < 3 then Sextets(data) else Sextets(data[..3]) + AllSextets(data[3..])
  }

  /** How many pads the encoding of n bytes ends with. */
  function PadsFor(n: nat): nat {
    (3 - n % 3) % 3
  }

  lemma PadsForFew(n: nat)
    ensures n < 3 ==> PadsFor(n) == if n == 0 then 0 else 3 - n
    ensures n >= 3 ==> PadsFor(n) == PadsFor(n - 3)
  {
  }

  lemma GroupSextets(data: seq<Byte>)
    requires |data| <= 3
    ensures Regroup(Sextets(data)) == data && NoBitsLeft(Sextets(data))
    ensures |Sextets(data)| % 4 != 1 && PadsFor(|data|) == (4 - |Sextets(data)| % 4) % 4
  {
    hide Sextets, Bytes, UnusedBits, NoBitsLeft, Regroup;
    BytesOfSextets(data);
    if |data| < 3 {
      LeftOver(Sextets(data));
    } else {
      NextFour(Sextets(data), []);
      LeftOver([]);
      NoBytes();
      assert Sextets(data) + [] == Sextets(data) && data + [] == data;
    }
  }

  lemma {:induction false} AllSextetsGroup(data: seq<Byte>)
    ensures Regroup(AllSextets(data)) == data && NoBitsLeft(AllSextets(data))
    ensures |AllSextets(data)| % 4 != 1 && PadsFor(|data|) == (4 - |AllSextets(data)| % 4) % 4
    decreases |data|
  {
    hide Sextets, Bytes, UnusedBits, NoBitsLeft, Regroup, PadsFor;
    if |data| < 3 {
      GroupSextets(data);
    } else {
      var v, w := Sextets(data[..3]), AllSextets(data[3..]);
      AllSextetsGroup(data[3..]);
      BytesOfSextets(data[..3]);
      NextFour(v, w);
      PadsForFew(|data|);
      assert |v + w| % 4 == |w| % 4;
      assert data[..3] + data[3..] == data;
    }
  }

  lemma FewAreChars(data: seq<Byte>)
    requires |data| < 3
    ensures Encode(data) == Chars(AllSextets(data)) + Pads(PadsFor(|data|))
  {
    hide Sextets, Chars, Pads, PadsFor;
    PadsForFew(|data|);
    if |data| == 0 {
      NoChars();
    }
  }

  lemma FullIsChars(group: seq<Byte>)
    requires |group| == 3
    ensures EncodeGroup(group) == Chars(Sextets(group))
  {
    hide Chars;
    assert Chars(Sextets(group)) + Pads(0) == Chars(Sextets(group));
  }

  lemma {:induction false} EncodeIsChars(data: seq<Byte>)
    ensures Encode(data) == Chars(AllSextets(data)) + Pads(PadsFor(|data|))
    decreases |data|
  {
    hide Sextets, EncodeGroup, Encode, Chars, Pads, PadsFor;
    if |data| < 3 {
      FewAreChars(data);
    } else {
      var v, w := Sextets(data[..3]), AllSextets(data[3..]);
      Groups(data);
      FullIsChars(data[..3]);
      EncodeIsChars(data[3..]);
      CharsJoin(v, w);
      PadsForFew(|data|);
      Joined(Chars(v), Chars(w), Pads(PadsFor(|data|)));
    }
  }

  lemma Joined(a: string, b: string, c: string)
    ensures (a + b) + c == a + (b + c)
  {
  }

  /** The encoding without pads, RFC 4648 section 3.2. */
  function Unpadded(data: seq<Byte>): string {
    EncodeIsChars(data);
    Encode(data)[..|Encode(data)| - (3 - |data| % 3) % 3]
  }

  lemma UnpaddedIsChars(data: seq<Byte>)
    ensures Unpadded(data) == Chars(AllSextets(data))
  {
    hide Encode, Chars, Pads, AllSextets;
    EncodeIsChars(data);
  }

  lemma CharsJoin(v: seq<Sextet>, w: seq<Sextet>)
    ensures Chars(v + w) == Chars(v) + Chars(w)
  {
    hide Base64Table;
  }

  lemma {:induction false} ValuesOfChars(v: seq<Sextet>)
    ensures Values(Chars(v)) == v
  {
    hide Base64Table, DecodeTable;
    if |v| > 0 {
      TablesInverse(v[0], Base64Table(v[0]));
      ValuesOfChars(v[1..]);
      assert Chars(v)[1..] == Chars(v[1..]);
    }
  }

  /** Sextets that leave over nothing but zeros are those of their bytes, unless there is a single one in the end. */
  lemma {:induction false} SextetsOfRegrouped(v: seq<Sextet>)
    requires NoBitsLeft(v) && |v| % 4 != 1
    ensures AllSextets(Regroup(v)) == v
    decreases |v|
  {
    hide NoBitsLeft, Bytes, Sextets, UnusedBits;
    if |v| < 4 {
      LeftOver(v);
      SextetsOfWhole(v);
    } else {
      var head, tail := v[..4], v[4..];
      assert head + tail == v;
      NextFour(head, tail);
      assert |v| % 4 == |tail| % 4;
      SextetsOfRegrouped(tail);
      NothingUnused(head);
      SextetsOfWhole(head);
      var data := Bytes(head) + Regroup(tail);
      assert data[..3] == Bytes(head) && data[3..] == Regroup(tail);
    }
  }

  lemma TableIsBase64(v: Sextet)
    ensures IsBase64Char(Base64Table(v)) && !IsBase64Char('=')
  {
  }

  lemma RunOfChars(v: seq<Sextet>)
    ensures AlphabetRun(Chars(v)) == |v|
  {
    hide AlphabetRun, IsBase64Char, Base64Table;
    var n := AlphabetRun(Chars(v));
    if n < |v| {
      TableIsBase64(v[n]);
    }
  }

  /** What a text consists of that has been decoded strictly up to its end. */
  lemma StrictText(flags: Flags, text: string)
    requires Strictly(flags, text).success && Strictly(flags, text).used == |text| && flags.term != TermAny
    ensures var v := Values(text[..AlphabetRun(text)]);
            && Strictly(flags, text).bytes == Regroup(v) && NoBitsLeft(v)
            && if |v| == |text| then text == Chars(v) && (flags.pad == PadYes ==> |v| % 4 == 0)
               else flags.pad != PadNo && |v| % 4 >= 2 && text == Chars(v) + Pads(4 - |v| % 4)
  {
    hide AlphabetRun, PadRun, Regroup, Values, Chars, IsBase64Char, NoBitsLeft;
    var n := AlphabetRun(text);
    CharsOfValues(text[..n]);
    FullGroups(Values(text[..n]));
    if n == |text| {
      assert text[..n] == text;
      NothingCompletes(flags, 0);
    } else {
      assert text[n..] == Pads(4 - n % 4);
      assert text == text[..n] + text[n..];
    }
  }

  lemma FullGroups(v: seq<Sextet>)
    ensures |v| % 4 == 0 ==> NoBitsLeft(v)
  {
  }

  /** Sextets without pads are decoded to the end. */
  lemma CharsDecode(flags: Flags, v: seq<Sextet>)
    requires flags.parse == ParseStrict && flags.pad != PadYes && NoBitsLeft(v)
    ensures Decode(flags, Chars(v)) == Decoded(Regroup(v), true, |v|)
  {
    hide AlphabetRun, PadRun, Regroup, Values, Chars, NoBitsLeft, DecodeFrom;
    var text := Chars(v);
    RunOfChars(v);
    ValuesOfChars(v);
    assert text[..|text|] == text && text[|text|..] == "";
    StrictForm(flags, text);
  }

  lemma SingleZero()
    ensures Regroup([]) == [] && Regroup([0]) == [] && NoBitsLeft([0])
  {
    hide Bytes;
  }

  /** A single sextet after full groups adds no byte. */
  lemma {:induction false} SingleSextet(v: seq<Sextet>)
    requires |v| % 4 == 0
    ensures Regroup(v + [0]) == Regroup(v) && |Regroup(v)| % 3 == 0 && NoBitsLeft(v + [0])
  {
    hide Bytes, NoBitsLeft;
    if |v| == 0 {
      SingleZero();
      assert v + [0] == [0];
    } else {
      var head, tail := v[..4], v[4..];
      SingleSextet(tail);
      NextFour(head, tail);
      NextFour(head, tail + [0]);
      WholeGroup(Bytes(head), Regroup(tail));
      assert v == head + tail && v + [0] == head + (tail + [0]);
    }
  }

  /** What strict decoding gives for data: its encoding, with or without pads, or full groups and another character. */
  predicate StrictTextFor(flags: Flags, text: string, data: seq<Byte>) {
    || (flags.pad != PadNo && text == Encode(data))
    || (flags.pad != PadYes && (text == Unpadded(data) || (|data| % 3 == 0 && text == Encode(data) + "A")))
  }

  lemma PaddedText(v: seq<Sextet>, data: seq<Byte>)
    requires NoBitsLeft(v) && |v| % 4 != 1 && data == Regroup(v)
    ensures Encode(data) == Chars(v) + Pads((4 - |v| % 4) % 4) && Unpadded(data) == Chars(v)
  {
    hide Regroup, Chars, Pads, NoBitsLeft, Unpadded, AllSextets, Encode, PadsFor;
    SextetsOfRegrouped(v);
    EncodeIsChars(data);
    UnpaddedIsChars(data);
    AllSextetsGroup(data);
  }

  lemma SingleText(v: seq<Sextet>, data: seq<Byte>)
    requires NoBitsLeft(v) && |v| % 4 == 1 && data == Regroup(v)
    ensures |data| % 3 == 0 && Chars(v) == Encode(data) + "A"
  {
    hide Regroup, Chars, NoBitsLeft, Encode, Unpadded;
    var w := v[..|v| - 1];
    LastSextet(v);
    SingleSextet(w);
    FullGroups(w);
    PaddedText(w, data);
    NoChars();
    assert Chars(w) + "" == Chars(w);
  }

  lemma StrictTextIsFor(flags: Flags, text: string, data: seq<Byte>)
    requires Strictly(flags, text).success && Strictly(flags, text).used == |text| && flags.term != TermAny
    requires Strictly(flags, text).bytes == data
    ensures StrictTextFor(flags, text, data)
  {
    hide AlphabetRun, Regroup, Values, Chars, Pads, NoBitsLeft, Unpadded, Encode, Strictly;
    StrictText(flags, text);
    var v := Values(text[..AlphabetRun(text)]);
    NoChars();
    assert Chars(v) + "" == Chars(v);
    if |v| % 4 == 1 {
      SingleText(v, data);
    } else {
      PaddedText(v, data);
    }
  }

  lemma LastSextet(v: seq<Sextet>)
    requires |v| % 4 == 1 && NoBitsLeft(v)
    ensures v[..|v| - 1] + [0] == v && Chars(v) == Chars(v[..|v| - 1]) + "A"
  {
  }

  lemma UnpaddedDecodes(flags: Flags, data: seq<Byte>)
    requires flags.parse == ParseStrict && flags.pad != PadYes
    ensures Decode(flags, Unpadded(data)) == Decoded(data, true, |Unpadded(data)|)
  {
    hide Regroup, Chars, NoBitsLeft, Unpadded, AllSextets, Decode;
    UnpaddedIsChars(data);
    AllSextetsGroup(data);
    CharsDecode(flags, AllSextets(data));
  }

  lemma SingleDecodes(flags: Flags, data: seq<Byte>)
    requires flags.parse == ParseStrict && flags.pad != PadYes && |data| % 3 == 0
    ensures Decode(flags, Encode(data) + "A") == Decoded(data, true, |Encode(data)| + 1)
  {
    hide Regroup, Chars, NoBitsLeft, AllSextets, Encode, Decode;
    var v := AllSextets(data);
    WholeGroups(data);
    SingleSextet(v);
    LastSextet(v + [0]);
    assert (v + [0])[..|v|] == v;
    CharsDecode(flags, v + [0]);
  }

  /**
   * RFC 4648 for every demand on padding: a strict decoder that has to reach the end accepts exactly the encodings, with
   * pads if these are allowed and without if they are not demanded, and, where they are not demanded, also a single "A"
   * after full groups.
   */
  lemma StrictExactlyFor(flags: Flags, text: string, data: seq<Byte>)
    requires flags.parse == ParseStrict && flags.term == TermBuffer
    ensures Decode(flags, text).success && Decode(flags, text).bytes == data <==> StrictTextFor(flags, text, data)
  {
    hide AlphabetRun, PadRun, Regroup, Values, Chars, Pads, NoBitsLeft, Unpadded, AllSextets, DecodeFrom, Encode, Strictly;
    StrictForm(flags, text);
    if Decode(flags, text).success && Decode(flags, text).bytes == data {
      StrictTextIsFor(flags, text, data);
    } else if flags.pad != PadNo && text == Encode(data) {
      DecodeEncode(flags, data);
    } else if flags.pad != PadYes && text == Unpadded(data) {
      UnpaddedDecodes(flags, data);
    } else if flags.pad != PadYes && |data| % 3 == 0 && text == Encode(data) + "A" {
      SingleDecodes(flags, data);
    }
  }

  lemma WholeGroups(data: seq<Byte>)
    requires |data| % 3 == 0
    ensures Encode(data) == Chars(AllSextets(data)) && |AllSextets(data)| % 4 == 0 && Regroup(AllSextets(data)) == data
  {
    hide Encode, AllSextets, Chars, Regroup;
    EncodeIsChars(data);
    AllSextetsGroup(data);
    NoChars();
    assert Chars(AllSextets(data)) + "" == Chars(AllSextets(data));
  }
}