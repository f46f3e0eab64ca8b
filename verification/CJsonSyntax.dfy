/** Where a text stands in a buffer. */
module CJsonLayout {
  import opened Collections
  import opened CJsonGrammar

  lemma AtConcat(c: Bytes, p: nat, a: Bytes, b: Bytes)
    ensures At(c, p, a + b) <==> At(c, p, a) && At(c, p + |a|, b)
  {
    assert forall i :: 0 <= i < |a| ==> (a + b)[i] == a[i];
    if At(c, p, a + b) {
      forall i | 0 <= i < |b| ensures c[p + |a| + i] == b[i] {
        assert (a + b)[|a| + i] == b[i];
      }
    }
  }

  lemma AtByte(c: Bytes, p: nat, t: Bytes, i: nat)
    requires At(c, p, t) && i < |t|
    ensures p + |t| <= |c| && c[p + i] == t[i]
  {
  }

  lemma AtTail(c: Bytes, q: nat, e: Bytes)
    requires e != [] && At(c, q, e)
    ensures q + |e| <= |c| && c[q] == e[0] && At(c, q + 1, e[1..])
  {
    AtByte(c, q, e, 0);
    forall i | 0 <= i < |e| - 1 ensures c[q + 1 + i] == e[1..][i] {
      AtByte(c, q, e, 1 + i);
    }
  }

  lemma AtEnd(c: Bytes, p: nat, t: Bytes)
    requires At(c, p, t)
    ensures p + |t| <= |c|
  {
  }

  lemma AtThree(c: Bytes, p: nat, a: Bytes, b: Bytes, d: Bytes)
    requires At(c, p, a + (b + d))
    ensures At(c, p, a) && At(c, p + |a|, b) && At(c, p + |a| + |b|, d)
  {
    AtConcat(c, p, a, b + d);
    AtConcat(c, p + |a|, b, d);
  }

  /** Nothing but whitespace. */
  ghost predicate Blank(w: Bytes) {
    forall i :: 0 <= i < |w| ==> 0 < w[i] <= 32
  }

  lemma {:induction false} SkipBlank(c: Bytes, p: nat, w: Bytes)
    requires At(c, p, w) && Blank(w)
    requires p + |w| < |c| && c[p + |w|] > 32
    ensures SkipWhitespace(c, p) == p + |w|
    decreases |w|
  {
    if w != [] {
      AtTail(c, p, w);
      SkipBlank(c, p + 1, w[1..]);
    }
  }
}

/** Texts, with all the freedom a writer has: whitespace, the form of every escape, the form of every number.
    `Render` is the text, `ValueOf` what it stands for. The well-formed ones go beyond JSON as far as the parser does;
    the strict ones are those of RFC 8259. */
module CJsonSyntax {
  import opened Collections
  import opened CJsonLiterals
  import opened CJsonTree
  import opened CJsonText
  import opened CJsonGrammar
  import opened CJsonLayout
  import opened CJsonUnicode

  // ---------- strings ----------

  /** One character of a string: as itself, as a backslash and a letter, as a 16-bit unit `\uXXXX`, or a backslash that
      the closing quote completes. */
  datatype Char = Plain(byte: Byte) | Short(letter: Byte) | Unit(text: Bytes, code: nat) | Dangling

  function CharText(ch: Char): Bytes {
    match ch
    case Plain(b) => [b]
    case Short(letter) => [BACKSLASH, letter]
    case Unit(text, _) => text
    case Dangling => [BACKSLASH]
  }

  function CharsText(chs: seq<Char>): Bytes {
    if chs == [] then [] else CharText(chs[0]) + CharsText(chs[1..])
  }

  /** Two units that make up a surrogate pair. */
  predicate PairAhead(chs: seq<Char>) {
    |chs| >= 2 && chs[0].Unit? && HighSurrogate(chs[0].code) && chs[1].Unit? && LowSurrogate(chs[1].code)
  }

  function PairCode(chs: seq<Char>): (n: Scalar)
    requires PairAhead(chs)
    ensures n >= 0x10000
  {
    var n := 0x10000 + (chs[0].code % 0x400) * 0x400 + chs[1].code % 0x400;
    assert n <= 0x10FFFF;
    n
  }

  /** How many units the first character of the value takes. */
  function Taken(chs: seq<Char>): (k: nat)
    requires chs != []
    ensures 1 <= k <= |chs|
  {
    if PairAhead(chs) then 2 else 1
  }

  /** What the first character stands for; an unpaired surrogate stands for nothing. */
  function FirstBytes(chs: seq<Char>): Bytes
    requires chs != []
  {
    match chs[0]
    case Plain(b) => [b]
    case Short(letter) => if Meaning(letter).Some? then [Meaning(letter).value] else []
    case Unit(_, code) => if PairAhead(chs) then Utf8(PairCode(chs)) else if ScalarValue(code) then Utf8(code) else []
    case Dangling => [QUOTE]
  }

  /** The bytes that a string stands for. */
  function CharsBytes(chs: seq<Char>): Bytes {
    if chs == [] then [] else FirstBytes(chs) + CharsBytes(chs[Taken(chs)..])
  }

  /** No unit is an unpaired surrogate. */
  predicate WellPaired(chs: seq<Char>) {
    chs == [] || (StartsPaired(chs) && WellPaired(chs[Taken(chs)..]))
  }

  predicate StartsPaired(chs: seq<Char>)
    requires chs != []
  {
    chs[0].Unit? ==> PairAhead(chs) || ScalarValue(chs[0].code)
  }

  /** Any four bytes may follow `\u`: the code is 0 if one of them is no hexadecimal digit. */
  ghost predicate LaxUnit(t: Bytes, n: nat) {
    && |t| == 6 && t[0] == '\\' as int && t[1] == 'u' as int && NulFree(t)
    && if forall i :: 2 <= i < 6 ==> IsHexDigit(t[i]) then FourHex(t[2..], n) else n == 0
  }

  ghost predicate CharOk(ch: Char) {
    match ch
    case Plain(b) => b != BACKSLASH && b != 0
    case Short(letter) => Meaning(letter).Some?
    case Unit(text, code) => LaxUnit(text, code)
    case Dangling => true
  }

  /** Each character is one, and only the last may lean on the closing quote. */
  ghost predicate Reads(chs: seq<Char>) {
    forall i :: 0 <= i < |chs| ==> CharOk(chs[i]) && (chs[i].Dangling? ==> i == |chs| - 1)
  }

  /** Backslashes pair off with the byte behind them, and no other byte is a quote. */
  predicate Tokenised(t: Bytes) {
    || t == []
    || (t[0] != BACKSLASH && t[0] != QUOTE && Tokenised(t[1..]))
    || (t[0] == BACKSLASH && |t| >= 2 && Tokenised(t[2..]))
  }

  /** A string's inside must read both ways: in pairs up to its closing quote, and character by character. */
  ghost predicate CharsOk(chs: seq<Char>) {
    Reads(chs) && Tokenised(CharsText(chs))
  }

  function Quoted(chs: seq<Char>): Bytes {
    [QUOTE] + (CharsText(chs) + [QUOTE])
  }

  /** Section 7 of RFC 8259; the encoding of the plain bytes is left open. */
  ghost predicate StrictChar(ch: Char) {
    match ch
    case Plain(b) => b >= 32 && b != QUOTE && b != BACKSLASH
    case Short(letter) => Meaning(letter).Some?
    case Unit(text, code) => IsUnit(text, code)
    case Dangling => false
  }

  ghost predicate StrictChars(chs: seq<Char>) {
    forall i :: 0 <= i < |chs| ==> StrictChar(chs[i])
  }

  // ---------- numbers ----------

  /** A sign, digits, a point with digits, an exponent. */
  datatype Numeral =
    Numeral(negative: bool, whole: Bytes, point: bool, fraction: Bytes, exponent: Option<Exponent>)

  datatype Exponent = Exponent(mark: Byte, sign: Bytes, digits: Bytes)

  /** At least one digit, and a digit or a minus in front. */
  ghost predicate NumeralOk(n: Numeral) {
    && IsDecimal(n.whole) && IsDecimal(n.fraction) && (!n.point ==> n.fraction == [])
    && (n.whole == [] ==> n.negative && n.fraction != [])
    && (n.exponent.Some? ==>
          var e := n.exponent.value;
          (e.mark == 101 || e.mark == 69) && e.sign in [[], [43], [45]] && e.digits != [] && IsDecimal(e.digits))
  }

  /** Section 6 of RFC 8259. */
  ghost predicate StrictNumeral(n: Numeral) {
    && NumeralOk(n) && n.whole != [] && (|n.whole| > 1 ==> n.whole[0] != 48) && (n.point ==> n.fraction != [])
  }

  function MinusText(n: Numeral): Bytes { if n.negative then [45] else [] }

  function FractionText(n: Numeral): Bytes { if n.point then [46] + n.fraction else [] }

  function ExponentText(n: Numeral): Bytes {
    if n.exponent.None? then []
    else var e := n.exponent.value; [e.mark] + (e.sign + e.digits)
  }

  function NumeralText(n: Numeral): Bytes {
    MinusText(n) + (n.whole + (FractionText(n) + ExponentText(n)))
  }

  /** The exact decimal value. */
  ghost function NumeralValue(n: Numeral): real
    requires NumeralOk(n)
  {
    var m := Whole(n.whole) as real + Fraction(n.fraction);
    var signed := if n.negative then -m else m;
    if n.exponent.None? then signed
    else Shifted(signed, n.exponent.value.sign != [45], Whole(n.exponent.value.digits))
  }

  // ---------- values ----------

  datatype Doc =
    | NullDoc
    | FalseDoc
    | TrueDoc
    | NumberDoc(numeral: Numeral)
    | StringDoc(chars: seq<Char>)
    | ArrayDoc(blank: Bytes, elements: seq<Element>)
    | ObjectDoc(blank: Bytes, entries: seq<Entry>)

  /** An element with the whitespace around it. */
  datatype Element = Element(before: Bytes, value: Doc, after: Bytes)

  /** A member with the whitespace in its four places. */
  datatype Entry = Entry(before: Bytes, key: seq<Char>, afterKey: Bytes, beforeValue: Bytes, value: Doc, after: Bytes)

  function Render(d: Doc): Bytes
    decreases d, 1
  {
    match d
    case NullDoc => NULL_TEXT
    case FalseDoc => FALSE_TEXT
    case TrueDoc => TRUE_TEXT
    case NumberDoc(n) => NumeralText(n)
    case StringDoc(chs) => Quoted(chs)
    case ArrayDoc(blank, es) => [91] + if es == [] then blank + [93] else ElementsText(es)
    case ObjectDoc(blank, es) => [123] + if es == [] then blank + [125] else EntriesText(es)
  }

  /** Elements through the closing bracket. */
  function ElementsText(es: seq<Element>): Bytes
    requires es != []
    decreases es, 0
  {
    es[0].before + (Render(es[0].value) + (es[0].after + if |es| == 1 then [93] else [COMMA] + ElementsText(es[1..])))
  }

  /** Members through the closing brace. */
  function EntriesText(es: seq<Entry>): Bytes
    requires es != []
    decreases es, 0
  {
    var e := es[0];
    e.before + (KeyText(e) + (Render(e.value) + (e.after +
      if |es| == 1 then [125] else [COMMA] + EntriesText(es[1..]))))
  }

  function KeyText(e: Entry): Bytes {
    Quoted(e.key) + (e.afterKey + ([COLON] + e.beforeValue))
  }

  ghost predicate WellFormed(d: Doc) {
    match d
    case NumberDoc(n) => NumeralOk(n)
    case StringDoc(chs) => CharsOk(chs)
    case ArrayDoc(blank, es) =>
      Blank(blank) && forall i :: 0 <= i < |es| ==> ElementBlanks(es[i]) && WellFormed(es[i].value)
    case ObjectDoc(blank, es) =>
      Blank(blank) && forall i :: 0 <= i < |es| ==> EntryBlanks(es[i]) && CharsOk(es[i].key) && WellFormed(es[i].value)
    case _ => true
  }

  ghost predicate ElementBlanks(e: Element) {
    Blank(e.before) && Blank(e.after)
  }

  ghost predicate EntryBlanks(e: Entry) {
    Blank(e.before) && Blank(e.afterKey) && Blank(e.beforeValue) && Blank(e.after)
  }

  /** Whitespace of section 2 of RFC 8259. */
  ghost predicate StrictBlank(w: Bytes) {
    forall i :: 0 <= i < |w| ==> w[i] == 0x20 || w[i] == 0x09 || w[i] == 0x0A || w[i] == 0x0D
  }

  ghost predicate StrictBlanks(e: Entry) {
    StrictBlank(e.before) && StrictBlank(e.afterKey) && StrictBlank(e.beforeValue) && StrictBlank(e.after)
  }

  /** The texts of RFC 8259. */
  ghost predicate Strict(d: Doc) {
    match d
    case NumberDoc(n) => StrictNumeral(n)
    case StringDoc(chs) => StrictChars(chs)
    case ArrayDoc(blank, es) =>
      && StrictBlank(blank)
      && forall i :: 0 <= i < |es| ==>
           StrictBlank(es[i].before) && StrictBlank(es[i].after) && Strict(es[i].value)
    case ObjectDoc(blank, es) =>
      && StrictBlank(blank)
      && forall i :: 0 <= i < |es| ==> StrictBlanks(es[i]) && StrictChars(es[i].key) && Strict(es[i].value)
    case _ => true
  }

  /** What the parser can read: numbers that fit the 64 bytes they are copied into, and no unpaired surrogate. */
  predicate Readable(d: Doc) {
    match d
    case NumberDoc(n) => |NumeralText(n)| <= 63
    case StringDoc(chs) => WellPaired(chs)
    case ArrayDoc(_, es) => forall i :: 0 <= i < |es| ==> Readable(es[i].value)
    case ObjectDoc(_, es) => forall i :: 0 <= i < |es| ==> WellPaired(es[i].key) && Readable(es[i].value)
    case _ => true
  }

  ghost function ValueOf(d: Doc): Json
    requires WellFormed(d)
    decreases d, 1
  {
    match d
    case NullDoc => Null
    case FalseDoc => False
    case TrueDoc => True
    case NumberDoc(n) => Number(NumeralValue(n))
    case StringDoc(chs) => String(CharsBytes(chs))
    case ArrayDoc(_, es) => Array(ElementsValue(es))
    case ObjectDoc(_, es) => Object(EntriesValue(es))
  }

  ghost function ElementsValue(es: seq<Element>): (r: seq<Json>)
    requires forall i :: 0 <= i < |es| ==> WellFormed(es[i].value)
    ensures |r| == |es|
    decreases es, 0
  {
    if es == [] then [] else [ValueOf(es[0].value)] + ElementsValue(es[1..])
  }

  ghost function EntriesValue(es: seq<Entry>): (r: seq<Member>)
    requires forall i :: 0 <= i < |es| ==> WellFormed(es[i].value)
    ensures |r| == |es|
    decreases es, 0
  {
    if es == [] then [] else [Member(CharsBytes(es[0].key), ValueOf(es[0].value))] + EntriesValue(es[1..])
  }

  /** Readable, and nested no deeper than the limit from the given depth. */
  ghost predicate Accepted(d: Doc, depth: int)
    requires WellFormed(d)
  {
    Readable(d) && depth + Height(ValueOf(d)) <= 1000
  }

  const BOM: Bytes := [0xEF, 0xBB, 0xBF]

  function Lead(bom: bool): Bytes { if bom then BOM else [] }

  /** A text: a value with whitespace around it, possibly behind a byte order mark. */
  function DocumentText(bom: bool, before: Bytes, d: Doc, after: Bytes): Bytes {
    Lead(bom) + (before + (Render(d) + after))
  }
}
