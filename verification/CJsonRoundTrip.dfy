/** Parsing undoes printing, formatted or not, exactly up to the nesting limit: a printed text is one of the texts
    that a JSON value has. */
module CJsonRoundTrip {
  import opened Collections
  import opened CJsonTree
  import opened CJsonText
  import opened CJsonGrammar
  import opened CJsonLayout
  import opened CJsonUnicode
  import opened CJsonLiterals
  import opened CJsonSyntax
  import opened CJsonTokens
  import opened CJsonAcceptance

  // ---------- the printed form of strings and numbers ----------

  function CharOf(b: Byte): Char {
    if ShortEscape(b) != 0 then Short(ShortEscape(b)) else if b < 32 then Unit(EscapeByte(b), b) else Plain(b)
  }

  function CharsOf(s: Bytes): (r: seq<Char>)
    ensures |r| == |s| && forall i :: 0 <= i < |s| ==> r[i] == CharOf(s[i])
  {
    seq(|s|, i requires 0 <= i < |s| => CharOf(s[i]))
  }

  lemma CharOfByte(b: Byte)
    ensures StrictChar(CharOf(b)) && CharText(CharOf(b)) == EscapeByte(b)
  {
    if b < 32 && ShortEscape(b) == 0 {
      ControlUnit(b);
    }
  }

  /** A printed character needs no partner, and stands for its byte. */
  lemma CharStandsFor(b: Byte, rest: seq<Char>)
    ensures
      var chs := [CharOf(b)] + rest;
      Taken(chs) == 1 && StartsPaired(chs) && FirstBytes(chs) == [b]
  {
    hide CJsonText.EscapeByte;
    if ShortEscape(b) != 0 {
      assert Meaning(ShortEscape(b)) == Some(b);
    }
  }

  lemma ControlUnit(b: Byte)
    requires b < 32 && ShortEscape(b) == 0
    ensures IsUnit(EscapeByte(b), b)
  {
    hide CJsonLiterals.IsHex, CJsonText.ShortEscape;
    var t, x, y := EscapeByte(b), HexDigit(b / 16), HexDigit(b % 16);
    assert t[2..] == [48, 48, x, y];
    HexMeans(48);
    HexMeans(x);
    HexMeans(y);
  }

  lemma {:induction false} CharsOfBytes(s: Bytes)
    ensures StrictChars(CharsOf(s)) && CharsText(CharsOf(s)) == Escape(s)
    ensures WellPaired(CharsOf(s)) && CharsBytes(CharsOf(s)) == s
    decreases |s|
  {
    hide CharOf, StrictChar, CharText, CJsonText.EscapeByte, Taken, StartsPaired, FirstBytes;
    if s != [] {
      var chs, rest := CharsOf(s), CharsOf(s[1..]);
      CharOfByte(s[0]);
      CharStandsFor(s[0], rest);
      CharsOfBytes(s[1..]);
      assert chs[1..] == rest && chs == [CharOf(s[0])] + rest;
      assert s == [s[0]] + s[1..];
      forall i | 0 <= i < |s| ensures StrictChar(chs[i]) {
        CharOfByte(s[i]);
      }
    }
  }

  lemma CharsOfBytesOk(s: Bytes)
    ensures CharsOk(CharsOf(s)) && Quoted(CharsOf(s)) == StringText(s)
    ensures WellPaired(CharsOf(s)) && CharsBytes(CharsOf(s)) == s
  {
    hide CharsOf, CharsOk, StrictChars, CharsText, CharsBytes, WellPaired, CJsonText.Escape;
    CharsOfBytes(s);
    StrictCharsOk(CharsOf(s));
  }

  lemma {:induction false} DigitsLength(n: nat, k: nat)
    requires k >= 1 && n < Tens(k)
    ensures |Digits(n)| <= k
    decreases n
  {
    if n >= 10 {
      assert k >= 2 by { assert Tens(1) == 10; }
      DigitsLength(n / 10, k - 1);
    }
  }

  lemma {:induction false} DigitsValueOfDigits(n: nat)
    ensures DigitsValue(Digits(n)) == n
  {
    if n >= 10 {
      var d := Digits(n);
      DigitsValueOfDigits(n / 10);
      assert d[..|d| - 1] == Digits(n / 10);
    }
  }

  function NumeralOf(n: int): Numeral {
    Numeral(n < 0, Digits(Abs(n)), false, [], None)
  }

  lemma NumeralOfInteger(n: int)
    requires -1_000_000_000_000_000 < n < 1_000_000_000_000_000
    ensures NumeralText(NumeralOf(n)) == NumberText(n) && NumeralOk(NumeralOf(n)) && |NumberText(n)| <= 63
    ensures NumeralValue(NumeralOf(n)) == n as real
  {
    hide CJsonText.Digits, CJsonGrammar.DigitsValue, Whole, Fraction, Tens, NumeralValue;
    var d, none: Bytes := Digits(Abs(n)), [];
    FifteenDigits();
    DigitsLength(Abs(n), 15);
    DigitsValueOfDigits(Abs(n));
    assert d + none == d && none + none == none;
    assert Scale(Abs(n) as real, false, 0) == Abs(n) as real;
    NumeralComputed(NumeralOf(n));
  }

  lemma FifteenDigits()
    ensures Tens(15) == 1_000_000_000_000_000
  {
    assert Tens(5) == 100_000;
    assert Tens(10) == 10_000_000_000;
  }

  /** A printed string at any position parses to its bytes. */
  lemma StringRoundTrip(c: Bytes, p: nat, s: Bytes)
    requires At(c, p, StringText(s))
    ensures p < |c| && ParseString(c, p) == Done(s, p + |StringText(s)|)
  {
    hide CJsonGrammar.At, CJsonGrammar.ParseString, CJsonText.StringText, Quoted, CharsBytes, CharsOk, WellPaired;
    CharsOfBytesOk(s);
    StringParses(c, p, CharsOf(s));
  }

  /** A printed integer at any position parses to it. */
  lemma NumberRoundTrip(c: Bytes, p: nat, n: int)
    requires -1_000_000_000_000_000 < n < 1_000_000_000_000_000
    requires At(c, p, NumberText(n)) && p + |NumberText(n)| < |c| && !NumberByte(c[p + |NumberText(n)|])
    ensures ParseNumber(c, p) == Done(Number(n as real), p + |NumberText(n)|)
  {
    hide CJsonGrammar.At, CJsonGrammar.ParseNumber, NumeralText, NumeralOk, NumeralValue, CJsonText.NumberText;
    NumeralOfInteger(n);
    NumberParses(c, p, NumeralOf(n));
  }

  // ---------- the printed form of values ----------

  function NewLine(fmt: bool): Bytes {
    if fmt then [NEWLINE] else []
  }

  function Gap(fmt: bool): Bytes {
    if fmt then [SPACE] else []
  }

  /** The text that the printer writes for v, as one of the texts of v. */
  function DocOf(v: Json, fmt: bool, depth: nat): Doc
    decreases v, 1
  {
    match v
    case Null => NullDoc
    case False => FalseDoc
    case True => TrueDoc
    case Number(value) => NumberDoc(NumeralOf(value.Floor))
    case String(s) => StringDoc(CharsOf(s))
    case Array(items) => ArrayDoc([], ElementsOf(items, fmt, depth + 1, []))
    case Object(members) => ObjectDoc(NewLine(fmt) + Indent(fmt, depth), EntriesOf(members, fmt, depth + 1))
  }

  function ElementsOf(items: seq<Json>, fmt: bool, depth: nat, before: Bytes): (r: seq<Element>)
    ensures |r| == |items|
    decreases items, 0
  {
    if items == [] then []
    else [Element(before, DocOf(items[0], fmt, depth), [])] + ElementsOf(items[1..], fmt, depth, Gap(fmt))
  }

  function EntriesOf(members: seq<Member>, fmt: bool, depth: nat): (r: seq<Entry>)
    requires depth >= 1
    ensures |r| == |members|
    decreases members, 0
  {
    if members == [] then []
    else [EntryOf(members[0], DocOf(members[0].value, fmt, depth), |members| == 1, fmt, depth)]
         + EntriesOf(members[1..], fmt, depth)
  }

  function EntryOf(m: Member, value: Doc, last: bool, fmt: bool, depth: nat): Entry
    requires depth >= 1
  {
    Entry(NewLine(fmt) + Indent(fmt, depth), CharsOf(m.key), [], if fmt then [TAB] else [], value,
          if last then NewLine(fmt) + Indent(fmt, depth - 1) else [])
  }

  lemma {:induction false} RenderIsText(v: Json, fmt: bool, depth: nat)
    requires Printable(v)
    ensures Render(DocOf(v, fmt, depth)) == Text(v, fmt, depth)
    decreases v, 1
  {
    hide CJsonText.ItemsText, CJsonText.MembersText, ElementsText, EntriesText;
    hide CharsText, NumeralText, CJsonText.Escape;
    hide NumeralOf, CJsonText.NumberText, CharsOf, CJsonText.Indent, ElementsOf, EntriesOf, CJsonText.Opening, NewLine;
    match v
    case Number(r) => NumeralOfInteger(r.Floor);
    case String(s) => CharsOfBytesOk(s);
    case Array(items) => ArrayIsText(items, fmt, depth);
    case Object(members) => ObjectIsText(members, fmt, depth);
    case _ =>
  }

  lemma {:induction false} ArrayIsText(items: seq<Json>, fmt: bool, depth: nat)
    requires forall x :: x in items ==> Printable(x)
    ensures Render(ArrayDoc([], ElementsOf(items, fmt, depth + 1, []))) == [91] + ItemsText(items, fmt, depth + 1)
    decreases items, 1
  {
    hide CJsonText.ItemsText, ElementsText, ElementsOf, CJsonTree.Printable;
    NoItems(fmt, depth + 1);
    if items != [] {
      ElementsAreText(items, fmt, depth + 1, []);
    }
  }

  lemma {:induction false} ObjectIsText(members: seq<Member>, fmt: bool, depth: nat)
    requires forall m :: m in members ==> NulFree(m.key) && Printable(m.value)
    ensures
      Render(ObjectDoc(NewLine(fmt) + Indent(fmt, depth), EntriesOf(members, fmt, depth + 1)))
      == Opening(fmt) + MembersText(members, fmt, depth + 1)
    decreases members, 1
  {
    hide CJsonText.MembersText, EntriesText, EntriesOf, CJsonText.Opening, NewLine, CJsonText.Indent;
    hide CJsonTree.Printable, CJsonTree.NulFree;
    NoMembers(fmt, depth);
    if members != [] {
      EntriesAreText(members, fmt, depth + 1);
      OpeningIs(fmt, MembersText(members, fmt, depth + 1));
    }
  }

  lemma NoItems(fmt: bool, depth: nat)
    ensures ItemsText([], fmt, depth) == [93]
  {
  }

  lemma NoMembers(fmt: bool, depth: nat)
    ensures Opening(fmt) + MembersText([], fmt, depth + 1) == [123] + (NewLine(fmt) + Indent(fmt, depth) + [125])
  {
  }

  lemma OpeningIs(fmt: bool, rest: Bytes)
    ensures Opening(fmt) + rest == [123] + (NewLine(fmt) + rest)
  {
  }

  lemma {:induction false} ElementsAreText(items: seq<Json>, fmt: bool, depth: nat, before: Bytes)
    requires items != [] && forall x :: x in items ==> Printable(x)
    ensures ElementsText(ElementsOf(items, fmt, depth, before)) == before + ItemsText(items, fmt, depth)
    decreases items, 0
  {
    hide CJsonText.Text, Render, DocOf, CJsonTree.Printable;
    var rest, t := items[1..], Text(items[0], fmt, depth);
    RenderIsText(items[0], fmt, depth);
    assert ElementsOf(items, fmt, depth, before)[1..] == ElementsOf(rest, fmt, depth, Gap(fmt));
    if rest == [] {
      NoItems(fmt, depth);
    } else {
      ElementsAreText(rest, fmt, depth, Gap(fmt));
      CommaIs(fmt, ItemsText(rest, fmt, depth));
    }
  }

  lemma CommaIs(fmt: bool, rest: Bytes)
    ensures [] + ([COMMA] + (Gap(fmt) + rest)) == ItemEnd(false, fmt) + rest
    ensures [COMMA] + (NewLine(fmt) + rest) == MemberEnd(false, fmt) + rest
  {
  }

  lemma {:induction false} EntriesAreText(members: seq<Member>, fmt: bool, depth: nat)
    requires members != [] && depth >= 1 && forall m :: m in members ==> NulFree(m.key) && Printable(m.value)
    ensures EntriesText(EntriesOf(members, fmt, depth)) == NewLine(fmt) + MembersText(members, fmt, depth)
    decreases members, 0
  {
    hide CJsonText.Text, Render, DocOf, KeyText, CJsonText.MemberText, CJsonTree.Printable, CJsonTree.NulFree;
    var m, rest, last := members[0], members[1..], |members| == 1;
    var es, d := EntriesOf(members, fmt, depth), DocOf(members[0].value, fmt, depth);
    RenderIsText(m.value, fmt, depth);
    assert es[1..] == EntriesOf(rest, fmt, depth);
    if !last {
      EntriesAreText(rest, fmt, depth);
    }
    EntryIsText(m, d, last, fmt, depth, MembersText(rest, fmt, depth));
  }

  /** One member and what follows it. */
  lemma EntryIsText(m: Member, d: Doc, last: bool, fmt: bool, depth: nat, rest: Bytes)
    requires depth >= 1 && (last ==> rest == Indent(fmt, depth - 1) + [125])
    ensures
      var e := EntryOf(m, d, last, fmt, depth);
      e.before + (KeyText(e) + (Render(d) + (e.after + if last then [125] else [COMMA] + (NewLine(fmt) + rest))))
      == NewLine(fmt) + (MemberText(m.key, Render(d), last, fmt, depth) + rest)
  {
    hide Render, CJsonText.Indent, CharsText, CJsonText.Escape, CharsOk, CharsBytes;
    CharsOfBytesOk(m.key);
    var e, t, i, k := EntryOf(m, d, last, fmt, depth), Render(d), Indent(fmt, depth), StringText(m.key);
    var more: Bytes := e.after + if last then [125] else [COMMA] + (NewLine(fmt) + rest);
    assert more == MemberEnd(last, fmt) + rest;
    assert KeyText(e) == k + AfterKey(fmt);
    MemberSplit(NewLine(fmt), i, k, AfterKey(fmt), t, MemberEnd(last, fmt), rest);
  }

  lemma MemberSplit(n: Bytes, i: Bytes, k: Bytes, a: Bytes, t: Bytes, e: Bytes, rest: Bytes)
    ensures (n + i) + ((k + a) + (t + (e + rest))) == n + ((i + (k + (a + (t + e)))) + rest)
  {
    ConcatAssociates(n, i, (k + a) + (t + (e + rest)));
    ConcatAssociates(k, a, t + (e + rest));
    ConcatAssociates(i, k + (a + (t + e)), rest);
    ConcatAssociates(k, a + (t + e), rest);
    ConcatAssociates(a, t + e, rest);
    ConcatAssociates(t, e, rest);
  }

  lemma {:induction false} DocStandsFor(v: Json, fmt: bool, depth: nat)
    requires Printable(v)
    ensures WellFormed(DocOf(v, fmt, depth)) && ValueOf(DocOf(v, fmt, depth)) == v && Readable(DocOf(v, fmt, depth))
    decreases v, 1
  {
    hide NumeralOf, NumeralOk, NumeralText, NumeralValue, CharsOf, CharsOk;
    hide CharsBytes, WellPaired, ElementsOf, EntriesOf;
    match v
    case Number(r) => NumeralOfInteger(r.Floor);
    case String(s) => CharsOfBytesOk(s);
    case Array(items) =>
      BlanksAre(fmt, depth);
      ElementsStandFor(items, fmt, depth + 1, []);
    case Object(members) =>
      BlanksAre(fmt, depth);
      EntriesStandFor(members, fmt, depth + 1);
    case _ =>
  }

  lemma BlanksAre(fmt: bool, depth: nat)
    ensures Blank([]) && Blank(Gap(fmt)) && Blank([TAB]) && Blank(NewLine(fmt) + Indent(fmt, depth))
  {
  }

  lemma ElementsPrepend(e: Element, rest: seq<Element>)
    requires ElementBlanks(e) && WellFormed(e.value) && Readable(e.value)
    requires ElementsOk(rest) && forall i :: 0 <= i < |rest| ==> Readable(rest[i].value)
    ensures ElementsOk([e] + rest) && ElementsValue([e] + rest) == [ValueOf(e.value)] + ElementsValue(rest)
    ensures forall i :: 0 <= i <= |rest| ==> Readable(([e] + rest)[i].value)
  {
    hide WellFormed, ValueOf, Readable, ElementBlanks;
    assert ([e] + rest)[1..] == rest;
  }

  lemma {:induction false} ElementsStandFor(items: seq<Json>, fmt: bool, depth: nat, before: Bytes)
    requires Blank(before) && forall x :: x in items ==> Printable(x)
    ensures ElementsOk(ElementsOf(items, fmt, depth, before))
    ensures forall i :: 0 <= i < |items| ==> Readable(ElementsOf(items, fmt, depth, before)[i].value)
    ensures ElementsValue(ElementsOf(items, fmt, depth, before)) == items
    decreases items, 0
  {
    hide CJsonTree.Printable, DocOf, WellFormed, ValueOf, Readable, Blank;
    if items != [] {
      DocStandsFor(items[0], fmt, depth);
      BlanksAre(fmt, depth);
      ElementsStandFor(items[1..], fmt, depth, Gap(fmt));
      ElementsPrepend(Element(before, DocOf(items[0], fmt, depth), []), ElementsOf(items[1..], fmt, depth, Gap(fmt)));
      assert [items[0]] + items[1..] == items;
    }
  }

  ghost predicate EntryReadable(e: Entry) { WellPaired(e.key) && Readable(e.value) }

  lemma EntriesPrepend(e: Entry, rest: seq<Entry>)
    requires EntryBlanks(e) && CharsOk(e.key) && WellFormed(e.value) && EntryReadable(e)
    requires EntriesOk(rest) && forall i :: 0 <= i < |rest| ==> EntryReadable(rest[i])
    ensures EntriesOk([e] + rest)
    ensures forall i :: 0 <= i <= |rest| ==> EntryReadable(([e] + rest)[i])
    ensures EntriesValue([e] + rest) == [Member(CharsBytes(e.key), ValueOf(e.value))] + EntriesValue(rest)
  {
    hide WellFormed, ValueOf, EntryBlanks, CharsOk, CharsBytes, EntryReadable;
    assert ([e] + rest)[1..] == rest;
  }

  lemma EntryStandsFor(m: Member, d: Doc, last: bool, fmt: bool, depth: nat)
    requires depth >= 1
    ensures var e := EntryOf(m, d, last, fmt, depth);
      EntryBlanks(e) && CharsOk(e.key) && WellPaired(e.key) && CharsBytes(e.key) == m.key && e.value == d
  {
    hide CharsOk, CharsOf, CharsBytes, WellPaired, Blank;
    CharsOfBytesOk(m.key);
    BlanksAre(fmt, depth);
    BlanksAre(fmt, depth - 1);
  }

  lemma {:induction false} EntriesStandFor(members: seq<Member>, fmt: bool, depth: nat)
    requires depth >= 1 && forall m :: m in members ==> NulFree(m.key) && Printable(m.value)
    ensures EntriesOk(EntriesOf(members, fmt, depth)) && EntriesValue(EntriesOf(members, fmt, depth)) == members
    ensures forall i :: 0 <= i < |members| ==> EntryReadable(EntriesOf(members, fmt, depth)[i])
    decreases members, 0
  {
    hide CJsonTree.Printable, CJsonTree.NulFree, DocOf, WellFormed, ValueOf, Readable, WellPaired;
    hide EntryOf, EntryBlanks, CharsOk, CharsBytes;
    if members != [] {
      var m, last := members[0], |members| == 1;
      var d := DocOf(m.value, fmt, depth);
      DocStandsFor(m.value, fmt, depth);
      EntryStandsFor(m, d, last, fmt, depth);
      EntriesStandFor(members[1..], fmt, depth);
      EntriesPrepend(EntryOf(m, d, last, fmt, depth), EntriesOf(members[1..], fmt, depth));
      assert [m] + members[1..] == members;
    }
  }

  // ---------- the printed form is JSON ----------

  lemma {:induction false} NoLeadingZero(n: nat)
    ensures |Digits(n)| > 1 ==> Digits(n)[0] != 48
    ensures n > 0 ==> Digits(n)[0] != 48
    decreases n
  {
    if n >= 10 {
      NoLeadingZero(n / 10);
    }
  }

  lemma LayoutIsStrict(fmt: bool, depth: nat)
    ensures StrictBlank([]) && StrictBlank(Gap(fmt)) && StrictBlank([TAB])
    ensures StrictBlank(NewLine(fmt) + Indent(fmt, depth))
  {
  }

  /** What the printer writes is a text of RFC 8259. */
  lemma {:induction false} PrintedIsStrict(v: Json, fmt: bool, depth: nat)
    requires Printable(v)
    ensures Strict(DocOf(v, fmt, depth)) && Render(DocOf(v, fmt, depth)) == Text(v, fmt, depth)
    decreases v, 1
  {
    hide CharsOf, StrictChars, StrictBlank, ElementsOf, EntriesOf, Render, CJsonText.Text, CJsonText.Digits;
    RenderIsText(v, fmt, depth);
    LayoutIsStrict(fmt, depth);
    match v
    case Number(r) =>
      NoLeadingZero(Abs(r.Floor));
    case String(s) => CharsOfBytes(s);
    case Array(items) => ElementsStrict(items, fmt, depth + 1, []);
    case Object(members) => EntriesStrict(members, fmt, depth + 1);
    case _ =>
  }

  ghost predicate StrictElement(e: Element) {
    StrictBlank(e.before) && StrictBlank(e.after) && Strict(e.value)
  }

  ghost predicate StrictEntry(e: Entry) {
    StrictBlanks(e) && StrictChars(e.key) && Strict(e.value)
  }

  lemma {:induction false} ElementsStrict(items: seq<Json>, fmt: bool, depth: nat, before: Bytes)
    requires StrictBlank(before) && forall x :: x in items ==> Printable(x)
    ensures forall i :: 0 <= i < |items| ==> StrictElement(ElementsOf(items, fmt, depth, before)[i])
    decreases items, 0
  {
    hide CJsonTree.Printable, DocOf, Strict, StrictBlank;
    if items != [] {
      PrintedIsStrict(items[0], fmt, depth);
      LayoutIsStrict(fmt, depth);
      ElementsStrict(items[1..], fmt, depth, Gap(fmt));
    }
  }

  lemma {:induction false} EntriesStrict(members: seq<Member>, fmt: bool, depth: nat)
    requires depth >= 1 && forall m :: m in members ==> NulFree(m.key) && Printable(m.value)
    ensures forall i :: 0 <= i < |members| ==> StrictEntry(EntriesOf(members, fmt, depth)[i])
    decreases members, 0
  {
    hide CJsonTree.Printable, CJsonTree.NulFree, DocOf, Strict, StrictBlank, StrictChars, CharsOf;
    if members != [] {
      var m := members[0];
      PrintedIsStrict(m.value, fmt, depth);
      CharsOfBytes(m.key);
      LayoutIsStrict(fmt, depth);
      LayoutIsStrict(fmt, depth - 1);
      EntriesStrict(members[1..], fmt, depth);
    }
  }

  // ---------- what follows ----------

  /** The text of a tree at any position, depth and indentation parses to that tree, or fails exactly when the
      containers nest too deeply from there. */
  lemma ValueRoundTrip(v: Json, fmt: bool, indent: nat, c: Bytes, p: nat, depth: int)
    requires Printable(v) && Terminated(c) && depth <= NESTING_LIMIT
    requires At(c, p, Text(v, fmt, indent))
    requires p + |Text(v, fmt, indent)| < |c| && !NumberByte(c[p + |Text(v, fmt, indent)|])
    ensures Yields(ParseValue(c, p, depth), depth + Height(v) <= NESTING_LIMIT, v, p + |Text(v, fmt, indent)|)
  {
    hide CJsonGrammar.At, CJsonGrammar.ParseValue, CJsonText.Text, CJsonTree.Printable;
    hide Render, WellFormed, ValueOf, Readable, Stuck;
    RenderIsText(v, fmt, indent);
    DocStandsFor(v, fmt, indent);
    ValueParses(DocOf(v, fmt, indent), c, p, depth);
  }

  lemma TextNulFree(v: Json, fmt: bool, depth: nat)
    requires Printable(v)
    ensures NulFree(Text(v, fmt, depth))
  {
    hide CJsonText.Text, Render, DocOf, WellFormed, ValueOf, CJsonTree.Printable;
    RenderIsText(v, fmt, depth);
    DocStandsFor(v, fmt, depth);
    RenderNulFree(DocOf(v, fmt, depth));
  }

  lemma StringTextNulFree(s: Bytes)
    ensures NulFree(StringText(s))
  {
    hide CJsonText.StringText, Quoted, CharsBytes, CharsOk, WellPaired;
    CharsOfBytesOk(s);
    QuotedNulFree(CharsOf(s));
  }

  /** Printing a tree and parsing the text gives the tree back exactly when it nests no deeper than
      the limit, and the parse then ends at the terminator, so that nothing is left over. */
  lemma PrintThenParse(v: Json, fmt: bool, requireNul: bool)
    requires Printable(v)
    ensures NulFree(Text(v, fmt, 0))
    ensures Yields(ParseText(Text(v, fmt, 0), requireNul), Height(v) <= NESTING_LIMIT, v, |Text(v, fmt, 0)|)
  {
    hide CJsonText.Text, Render, WellFormed, ValueOf, Readable, CJsonTree.Printable, CJsonGrammar.ParseText;
    RenderIsText(v, fmt, 0);
    DocStandsFor(v, fmt, 0);
    NothingAround(DocOf(v, fmt, 0));
    TextParses(false, [], DocOf(v, fmt, 0), []);
  }

  // ---------- what the parser accepts stays inside the limit ----------

  lemma {:induction false} ParsedValueIsShallow(c: Bytes, p: nat, depth: int)
    requires Terminated(c) && p < |c| && depth <= NESTING_LIMIT && ParseValue(c, p, depth).Done?
    ensures depth + Height(ParseValue(c, p, depth).value) <= NESTING_LIMIT
    decreases |c| - p, 1
  {
    hide CJsonGrammar.ParseItems, CJsonGrammar.ParseMembers, CJsonGrammar.ParseString, CJsonGrammar.ParseNumber;
    hide CJsonGrammar.SkipWhitespace, CJsonGrammar.Terminated;
    var r, first := ParseValue(c, p, depth).value, SkipWhitespace(c, p + 1);
    if r.Array? && r.items != [] {
      ParsedItemsAreShallow(c, first, depth + 1);
    } else if r.Object? && r.members != [] {
      ParsedMembersAreShallow(c, first, depth + 1);
    }
  }

  lemma {:induction false} ParsedItemsAreShallow(c: Bytes, p: nat, depth: int)
    requires Terminated(c) && p < |c| && depth <= NESTING_LIMIT && ParseItems(c, p, depth).Done?
    ensures depth + ItemsHeight(ParseItems(c, p, depth).value) <= NESTING_LIMIT
    decreases |c| - p, 2
  {
    hide CJsonGrammar.ParseValue, CJsonGrammar.SkipWhitespace;
    ParsedValueIsShallow(c, p, depth);
    var v := ParseValue(c, p, depth);
    var q := SkipWhitespace(c, v.next);
    if c[q] == COMMA {
      ParsedItemsAreShallow(c, SkipWhitespace(c, q + 1), depth);
      HeightOfItems(v.value, ParseItems(c, SkipWhitespace(c, q + 1), depth).value);
    } else {
      HeightOfItems(v.value, []);
      assert [v.value] + [] == [v.value];
    }
  }

  lemma HeightOfItems(v: Json, rest: seq<Json>)
    ensures ItemsHeight([v] + rest) == Max(Height(v), ItemsHeight(rest))
  {
    assert ([v] + rest)[1..] == rest;
  }

  lemma {:induction false} ParsedMembersAreShallow(c: Bytes, p: nat, depth: int)
    requires Terminated(c) && p < |c| && depth <= NESTING_LIMIT && ParseMembers(c, p, depth).Done?
    ensures depth + MembersHeight(ParseMembers(c, p, depth).value) <= NESTING_LIMIT
    decreases |c| - p, 3
  {
    hide CJsonGrammar.ParseMember, CJsonGrammar.SkipWhitespace;
    ParsedMemberIsShallow(c, p, depth);
    var m := ParseMember(c, p, depth);
    var q := SkipWhitespace(c, m.next);
    if c[q] == COMMA {
      ParsedMembersAreShallow(c, SkipWhitespace(c, q + 1), depth);
      HeightOfMembers(m.value, ParseMembers(c, SkipWhitespace(c, q + 1), depth).value);
    } else {
      HeightOfMembers(m.value, []);
      assert [m.value] + [] == [m.value];
    }
  }

  lemma {:induction false} ParsedMemberIsShallow(c: Bytes, p: nat, depth: int)
    requires Terminated(c) && p < |c| && depth <= NESTING_LIMIT && ParseMember(c, p, depth).Done?
    ensures depth + Height(ParseMember(c, p, depth).value.value) <= NESTING_LIMIT
    decreases |c| - p, 2
  {
    hide CJsonGrammar.ParseValue, CJsonGrammar.ParseString;
    ParsedValueIsShallow(c, SkipWhitespace(c, SkipWhitespace(c, ParseString(c, p).next) + 1), depth);
  }

  lemma HeightOfMembers(m: Member, rest: seq<Member>)
    ensures MembersHeight([m] + rest) == Max(Height(m.value), MembersHeight(rest))
  {
    assert ([m] + rest)[1..] == rest;
  }

  /** Whatever text the parser accepted, if the tree it built is one the printer model covers, that tree prints,
      either way, to a text it accepts again as the same tree. */
  lemma ParseThenPrintThenParse(text: Bytes, requireNul: bool, fmt: bool)
    requires NulFree(text) && ParseText(text, requireNul).Done? && Printable(ParseText(text, requireNul).value)
    ensures var v := ParseText(text, requireNul).value;
      NulFree(Text(v, fmt, 0)) && ParseText(Text(v, fmt, 0), true) == Done(v, |Text(v, fmt, 0)|)
  {
    hide CJsonGrammar.ParseValue, CJsonText.Text, CJsonTree.Printable;
    var c := text + [0];
    ParsedValueIsShallow(c, SkipWhitespace(c, SkipBom(c)), 0);
    PrintThenParse(ParseText(text, requireNul).value, fmt, true);
  }

  /** Two trees that print alike are equal, however deeply they nest: read back with room for both, each is what
      the common text says. */
  lemma PrintIsInjective(v: Json, w: Json, fmt: bool)
    requires Printable(v) && Printable(w) && Text(v, fmt, 0) == Text(w, fmt, 0)
    ensures v == w
  {
    hide CJsonText.Text, CJsonTree.Printable, CJsonGrammar.ParseValue, CJsonGrammar.At, CJsonGrammar.Terminated;
    var text := Text(v, fmt, 0);
    var c, depth := text + [0], NESTING_LIMIT - Max(Height(v), Height(w));
    TextNulFree(v, fmt, 0);
    TerminatedText(text);
    AtSelf(c);
    AtConcat(c, 0, text, [0]);
    ValueRoundTrip(v, fmt, 0, c, 0, depth);
    ValueRoundTrip(w, fmt, 0, c, 0, depth);
  }
}
