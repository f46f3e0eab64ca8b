/** The converse: whatever the parser accepts is one of the texts, so that acceptance is an equivalence. */
module CJsonConverse {
  import opened Collections
  import opened CJsonTree
  import opened CJsonText
  import opened CJsonGrammar
  import opened CJsonLayout
  import opened CJsonUnicode
  import opened CJsonLiterals
  import opened CJsonSyntax
  import opened CJsonTokens
  import opened CJsonAcceptance

  // ---------- bytes in place ----------

  lemma AtSlice(c: Bytes, p: nat, q: nat)
    requires p <= q <= |c|
    ensures At(c, p, c[p..q])
  {
  }

  lemma {:induction false} SkipRun(c: Bytes, p: nat)
    requires p < |c|
    ensures forall i :: p <= i < SkipWhitespace(c, p) ==> c[i] <= 32
    decreases |c| - p
  {
    if c[p] <= 32 && p + 1 < |c| {
      SkipRun(c, p + 1);
    }
  }

  /** What a skip passes over is whitespace. */
  lemma BlankRun(c: Bytes, p: nat)
    requires Terminated(c) && p < |c|
    ensures var q := SkipWhitespace(c, p); p <= q < |c| && Blank(c[p..q]) && At(c, p, c[p..q])
  {
    SkipRun(c, p);
    AtSlice(c, p, SkipWhitespace(c, p));
  }

  // ---------- strings ----------

  lemma {:induction false} TokensOfRun(c: Bytes, p: nat)
    requires p <= |c| && StringEnd(c, p) < |c|
    ensures Tokenised(c[p..StringEnd(c, p)])
    decreases |c| - p
  {
    var e := StringEnd(c, p);
    if c[p] != QUOTE {
      var k := if c[p] == BACKSLASH then 2 else 1;
      TokensOfRun(c, p + k);
      assert c[p..e][k..] == c[p + k..e];
    }
  }

  /** One more character in front. */
  lemma CharsCons(ch: Char, rest: seq<Char>)
    requires CharOk(ch) && !ch.Dangling? && Reads(rest)
    ensures Reads([ch] + rest) && CharsText([ch] + rest) == CharText(ch) + CharsText(rest)
  {
    hide CharOk;
    assert ([ch] + rest)[1..] == rest;
  }

  /** A character that is no surrogate in front. */
  lemma SingleCons(ch: Char, rest: seq<Char>)
    requires CharOk(ch) && !ch.Dangling? && Reads(rest) && WellPaired(rest) && (ch.Unit? ==> ScalarValue(ch.code))
    ensures WellPaired([ch] + rest)
    ensures CharsBytes([ch] + rest) == FirstBytes([ch]) + CharsBytes(rest)
  {
    hide CharOk, CJsonGrammar.Utf8;
    assert ([ch] + rest)[1..] == rest;
  }

  lemma PairCons(high: Char, low: Char, rest: seq<Char>)
    requires PairAhead([high, low]) && WellPaired(rest)
    ensures WellPaired([high] + ([low] + rest))
    ensures CharsBytes([high] + ([low] + rest)) == Utf8(PairCode([high, low])) + CharsBytes(rest)
  {
    hide CJsonGrammar.Utf8;
    assert ([high] + ([low] + rest))[2..] == rest;
  }

  lemma UnitHere(c: Bytes, p: nat)
    requires Terminated(c) && p + 6 < |c| && c[p] == BACKSLASH && c[p + 1] == 117
    ensures LaxUnit(c[p..p + 6], Hex4(c, p + 2)) && At(c, p, c[p..p + 6])
  {
    hide FourHex, IsHexDigit, CJsonGrammar.Hex4;
    AtSlice(c, p, p + 6);
    LaxUnitCode(c[p..p + 6], Hex4(c, p + 2));
    SameHex4(c, p);
  }

  lemma SameHex4(c: Bytes, p: nat)
    requires p + 6 <= |c|
    ensures Hex4(c[p..p + 6], 2) == Hex4(c, p + 2)
  {
  }

  /** The inside of an accepted string, character by character. */
  lemma {:induction false} CharsOfRun(c: Bytes, p: nat, end: nat) returns (chs: seq<Char>)
    requires Terminated(c) && p <= end < |c| && c[end] == QUOTE && Unescape(c, p, end).Done?
    ensures Reads(chs) && WellPaired(chs) && CharsBytes(chs) == Unescape(c, p, end).value
    ensures At(c, p, CharsText(chs)) && p + |CharsText(chs)| == end
    decreases end - p, 1
  {
    hide CJsonGrammar.At, CJsonGrammar.Utf8, CJsonGrammar.Hex4, CJsonGrammar.Utf16Literal;
    hide Reads, WellPaired, CharsBytes;
    hide CharsText, LaxUnit;
    if p == end {
      chs := [];
      NoChars(c, p);
    } else if c[p] != BACKSLASH {
      var rest := CharsOfRun(c, p + 1, end);
      chs := Prefixed(c, p, Plain(c[p]), rest, end);
    } else if Unshort(c[p + 1]) != 0 && p + 1 == end {
      chs := [Dangling];
      DanglingHere(c, p);
    } else if Unshort(c[p + 1]) != 0 {
      var rest := CharsOfRun(c, p + 2, end);
      chs := Prefixed(c, p, Short(c[p + 1]), rest, end);
    } else {
      chs := UnitsOfRun(c, p, end);
    }
  }

  lemma NoChars(c: Bytes, p: nat)
    requires p < |c|
    ensures Reads([]) && WellPaired([]) && CharsBytes([]) == [] && CharsText([]) == [] && At(c, p, [])
  {
  }

  lemma DanglingHere(c: Bytes, p: nat)
    requires p + 1 < |c| && c[p] == BACKSLASH && c[p + 1] == QUOTE
    ensures Reads([Dangling]) && WellPaired([Dangling]) && CharsBytes([Dangling]) == [QUOTE]
    ensures At(c, p, CharsText([Dangling])) && |CharsText([Dangling])| == 1
    ensures Unescape(c, p, p + 1).value == [QUOTE]
  {
    assert [Dangling][1..] == [];
    assert CharsText([Dangling]) == [BACKSLASH];
    assert [QUOTE] + [] == [QUOTE];
  }

  /** A plain byte or a short escape in front of the rest. */
  lemma Prefixed(c: Bytes, p: nat, ch: Char, rest: seq<Char>, end: nat) returns (chs: seq<Char>)
    requires Terminated(c) && p < end < |c| && Unescape(c, p, end).Done?
    requires
      if c[p] != BACKSLASH then ch == Plain(c[p])
      else p + 1 < end && Unshort(c[p + 1]) != 0 && ch == Short(c[p + 1])
    requires var q := p + |CharText(ch)|;
      && Unescape(c, q, end).Done? && Reads(rest) && WellPaired(rest) && CharsBytes(rest) == Unescape(c, q, end).value
      && At(c, q, CharsText(rest)) && q + |CharsText(rest)| == end
    ensures Reads(chs) && WellPaired(chs) && CharsBytes(chs) == Unescape(c, p, end).value
    ensures At(c, p, CharsText(chs)) && p + |CharsText(chs)| == end
  {
    hide Reads, WellPaired, CharsBytes, CharsText;
    chs := [ch] + rest;
    CharsCons(ch, rest);
    SingleCons(ch, rest);
    AtConcat(c, p, CharText(ch), CharsText(rest));
  }

  /** One unit, or a pair of them, in front of the rest. */
  lemma {:induction false} UnitsOfRun(c: Bytes, p: nat, end: nat) returns (chs: seq<Char>)
    requires Terminated(c) && p < end < |c| && c[end] == QUOTE && Unescape(c, p, end).Done?
    requires c[p] == BACKSLASH && Unshort(c[p + 1]) == 0
    ensures Reads(chs) && WellPaired(chs) && CharsBytes(chs) == Unescape(c, p, end).value
    ensures At(c, p, CharsText(chs)) && p + |CharsText(chs)| == end
    decreases end - p, 0
  {
    hide CJsonGrammar.At, CJsonGrammar.Utf8, CJsonGrammar.Hex4, Reads, WellPaired, CharsBytes, CharsText, LaxUnit;
    var u := Unit(c[p..p + 6], Hex4(c, p + 2));
    var next := Utf16Literal(c, p, end).next;
    UnitHere(c, p);
    var rest := CharsOfRun(c, next, end);
    if next == p + 6 {
      chs := [u] + rest;
      CharsCons(u, rest);
      SingleCons(u, rest);
      AtConcat(c, p, u.text, CharsText(rest));
    } else {
      var w := Unit(c[p + 6..p + 12], Hex4(c, p + 8));
      UnitHere(c, p + 6);
      chs := [u] + ([w] + rest);
      CharsCons(w, rest);
      CharsCons(u, [w] + rest);
      PairCons(u, w, rest);
      AtConcat(c, p + 6, w.text, CharsText(rest));
      AtConcat(c, p, u.text, CharsText([w] + rest));
    }
  }

  /** An accepted string is the text of some characters. */
  lemma StringIsText(c: Bytes, p: nat) returns (chs: seq<Char>)
    requires Terminated(c) && p < |c| && ParseString(c, p).Done?
    ensures CharsOk(chs) && WellPaired(chs)
    ensures At(c, p, Quoted(chs)) && ParseString(c, p) == Done(CharsBytes(chs), p + |Quoted(chs)|)
  {
    hide CJsonGrammar.At, CJsonGrammar.Unescape, CJsonGrammar.StringEnd, Reads, WellPaired;
    hide CharsBytes, CharsText, Tokenised;
    var end := StringEnd(c, p + 1);
    chs := CharsOfRun(c, p + 1, end);
    TokensOfRun(c, p + 1);
    AtIsSlice(c, p + 1, CharsText(chs), end);
    AtSlice(c, p, p + 1);
    AtSlice(c, end, end + 1);
    assert c[p..p + 1] == [QUOTE] && c[end..end + 1] == [QUOTE];
    AtConcat(c, p + 1, CharsText(chs), [QUOTE]);
    AtConcat(c, p, [QUOTE], CharsText(chs) + [QUOTE]);
  }

  lemma AtIsSlice(c: Bytes, p: nat, t: Bytes, q: nat)
    requires At(c, p, t) && p + |t| == q
    ensures p <= q <= |c| && c[p..q] == t
  {
  }

  // ---------- numbers ----------

  predicate HasExponent(t: Bytes, f: nat) {
    && f < |t| && (t[f] == 101 || t[f] == 69)
    && ExponentStart(t, f) < |t| && IsDigit(t[ExponentStart(t, f)])
  }

  lemma StrtodParts(t: Bytes)
    requires Strtod(t).0 > 0
    ensures
      var s := SignLength(t); var i := DigitsEnd(t, s); var f := FractionEnd(t, i); var k := ExponentStart(t, f);
      && (i != s || FractionOf(t, i, f) != [])
      && Strtod(t) ==
           if HasExponent(t, f) then
             (DigitsEnd(t, k), Scale(Mantissa(t, s, i, f), t[f + 1] != 45, DigitsValue(t[k..DigitsEnd(t, k)])))
           else (f, Mantissa(t, s, i, f))
  {
    hide CJsonGrammar.DigitsEnd, CJsonGrammar.DigitsValue, CJsonGrammar.Scale, CJsonGrammar.Mantissa;
    hide CJsonGrammar.SignLength, CJsonGrammar.FractionEnd, CJsonGrammar.FractionOf, CJsonGrammar.ExponentStart;
  }

  /** What `strtod` consumes is the text of a numeral. */
  lemma NumeralOfToken(t: Bytes) returns (n: Numeral)
    requires Strtod(t).0 > 0 && t != [] && (t[0] == 45 || IsDigit(t[0]))
    ensures NumeralOk(n) && NumeralText(n) == t[..Strtod(t).0] && NumeralValue(n) == Strtod(t).1
  {
    hide CJsonGrammar.DigitsEnd, CJsonGrammar.DigitsValue, CJsonGrammar.Scale, CJsonGrammar.Mantissa, IsDecimal;
    hide CJsonGrammar.SignLength, CJsonGrammar.FractionEnd, CJsonGrammar.FractionOf, CJsonGrammar.ExponentStart;
    hide NumeralText, CJsonGrammar.Strtod, MinusText, FractionText;
    var s := SignLength(t);
    var i := DigitsEnd(t, s);
    var f := FractionEnd(t, i);
    StrtodParts(t);
    var exponent: Option<Exponent> := None;
    if HasExponent(t, f) {
      exponent := ExponentHere(t, f, ExponentStart(t, f));
    }
    n := Numeral(t[0] == 45, t[s..i], f > i, FractionOf(t, i, f), exponent);
    MantissaHere(t, s, i, f, n);
    assert t[f..f] == [];
    TextHere(t, s, i, f, Strtod(t).0, n);
    NumeralComputed(n);
  }

  lemma ExponentHere(t: Bytes, f: nat, k: nat) returns (exponent: Option<Exponent>)
    requires f < |t| && (t[f] == 101 || t[f] == 69) && k == ExponentStart(t, f) && k < |t| && IsDigit(t[k])
    ensures exponent.Some?
    ensures
      var e := exponent.value;
      && e.mark == t[f] && e.sign in [[], [43], [45]] && e.digits != [] && IsDecimal(e.digits)
      && (e.sign == [45] <==> t[f + 1] == 45) && e.digits == t[k..DigitsEnd(t, k)]
      && [e.mark] + (e.sign + e.digits) == t[f..DigitsEnd(t, k)]
  {
    var sign: Bytes := t[f + 1..k];
    exponent := Some(Exponent(t[f], sign, t[k..DigitsEnd(t, k)]));
    assert DigitsEnd(t, k) > k;
    assert sign == if k == f + 2 then [t[f + 1]] else [];
    assert t[f..DigitsEnd(t, k)] == [t[f]] + (sign + t[k..DigitsEnd(t, k)]);
  }

  lemma MantissaHere(t: Bytes, s: nat, i: nat, f: nat, n: Numeral)
    requires t != [] && (t[0] == 45 || IsDigit(t[0])) && s == SignLength(t) && i == DigitsEnd(t, s)
    requires f == FractionEnd(t, i)
    requires i != s || FractionOf(t, i, f) != []
    requires n.negative == (t[0] == 45) && n.whole == t[s..i] && n.point == (f > i) && n.fraction == FractionOf(t, i, f)
    ensures IsDecimal(n.whole) && IsDecimal(n.fraction) && (!n.point ==> n.fraction == [])
    ensures n.whole == [] ==> n.negative && n.fraction != []
    ensures MinusText(n) == t[..s] && FractionText(n) == t[i..f]
    ensures IsDecimal(n.whole + n.fraction)
    ensures
      var m := Scale(DigitsValue(n.whole + n.fraction) as real, false, |n.fraction|);
      Mantissa(t, s, i, f) == if n.negative then -m else m
  {
    hide CJsonGrammar.DigitsValue, CJsonGrammar.Scale, CJsonGrammar.DigitsEnd, IsDecimal;
    DecimalHere(t, s, i);
    if f > i {
      DecimalHere(t, i + 1, f);
      assert t[i..f] == [t[i]] + t[i + 1..f];
    }
    DecimalNothing();
    DecimalConcat(n.whole, n.fraction);
    if s == 0 {
      assert IsDigit(t[0]) && i > 0;
    }
  }

  lemma DecimalNothing()
    ensures IsDecimal([])
  {
  }

  lemma DecimalHere(t: Bytes, i: nat, j: nat)
    requires i <= j <= |t| && forall k :: i <= k < j ==> IsDigit(t[k])
    ensures IsDecimal(t[i..j])
  {
  }

  lemma TextHere(t: Bytes, s: nat, i: nat, f: nat, e: nat, n: Numeral)
    requires s <= i <= f <= e <= |t|
    requires MinusText(n) == t[..s] && n.whole == t[s..i] && FractionText(n) == t[i..f] && ExponentText(n) == t[f..e]
    ensures NumeralText(n) == t[..e]
  {
    hide MinusText, FractionText, ExponentText;
    assert t[..e] == t[..s] + (t[s..i] + (t[i..f] + t[f..e]));
  }

  lemma NumberIsText(c: Bytes, p: nat) returns (n: Numeral)
    requires p < |c| && ParseNumber(c, p).Done? && (c[p] == 45 || IsDigit(c[p]))
    ensures NumeralOk(n) && |NumeralText(n)| <= 63
    ensures At(c, p, NumeralText(n)) && ParseNumber(c, p) == Done(Number(NumeralValue(n)), p + |NumeralText(n)|)
  {
    hide CJsonGrammar.Strtod, CJsonGrammar.At, NumeralOk, NumeralText, NumeralValue;
    var token := c[p..NumberEnd(c, p, 63)];
    n := NumeralOfToken(token);
    AtSlice(c, p, p + Strtod(token).0);
    assert token[..Strtod(token).0] == c[p..p + Strtod(token).0];
  }

  // ---------- values ----------

  lemma {:induction false} ValueIsText(c: Bytes, p: nat, depth: int) returns (d: Doc)
    requires Terminated(c) && p < |c| && depth <= NESTING_LIMIT && ParseValue(c, p, depth).Done?
    ensures WellFormed(d) && Accepted(d, depth)
    ensures At(c, p, Render(d)) && ParseValue(c, p, depth) == Done(ValueOf(d), p + |Render(d)|)
    decreases |c| - p, 1
  {
    hide CJsonGrammar.At, CJsonGrammar.Terminated, CJsonGrammar.ParseItems, CJsonGrammar.ParseMembers;
    hide CJsonGrammar.ParseString, CJsonGrammar.ParseNumber, CJsonGrammar.SkipWhitespace;
    hide Quoted, CharsOk, WellPaired, CharsBytes, NumeralOk, NumeralText, NumeralValue;
    if Keyword(c, p, NULL_TEXT) || Keyword(c, p, FALSE_TEXT) || Keyword(c, p, TRUE_TEXT) {
      d := KeywordIsText(c, p, depth);
    } else if c[p] == QUOTE {
      var chs := StringIsText(c, p);
      d := StringDoc(chs);
    } else if c[p] == 45 || IsDigit(c[p]) {
      var n := NumberIsText(c, p);
      d := NumberDoc(n);
    } else if c[p] == 91 {
      d := ArrayIsText(c, p, depth);
    } else {
      d := ObjectIsText(c, p, depth);
    }
  }

  lemma KeywordIsText(c: Bytes, p: nat, depth: int) returns (d: Doc)
    requires Terminated(c) && p < |c| && depth <= NESTING_LIMIT && ParseValue(c, p, depth).Done?
    requires Keyword(c, p, NULL_TEXT) || Keyword(c, p, FALSE_TEXT) || Keyword(c, p, TRUE_TEXT)
    ensures WellFormed(d) && Accepted(d, depth)
    ensures At(c, p, Render(d)) && ParseValue(c, p, depth) == Done(ValueOf(d), p + |Render(d)|)
  {
    d := if Keyword(c, p, NULL_TEXT) then NullDoc else if Keyword(c, p, FALSE_TEXT) then FalseDoc else TrueDoc;
  }

  lemma BracketStep(c: Bytes, p: nat, depth: int)
    requires Terminated(c) && p < |c| && c[p] == 91 && ParseValue(c, p, depth).Done?
    ensures depth < NESTING_LIMIT && p + 1 < |c|
    ensures
      var first := SkipWhitespace(c, p + 1);
      if c[first] == 93 then ParseValue(c, p, depth) == Done(Array([]), first + 1)
      else
        var r := ParseItems(c, first, depth + 1);
        r.Done? && ParseValue(c, p, depth) == Done(Array(r.value), r.next)
  {
    hide CJsonGrammar.ParseItems, CJsonGrammar.ParseMembers, CJsonGrammar.ParseString, CJsonGrammar.ParseNumber;
    hide CJsonGrammar.SkipWhitespace;
    assert c[|c| - 1] == 0;
  }

  lemma BraceStep(c: Bytes, p: nat, depth: int)
    requires Terminated(c) && p < |c| && c[p] == 123 && ParseValue(c, p, depth).Done?
    ensures depth < NESTING_LIMIT && p + 1 < |c|
    ensures
      var first := SkipWhitespace(c, p + 1);
      if c[first] == 125 then ParseValue(c, p, depth) == Done(Object([]), first + 1)
      else
        var r := ParseMembers(c, first, depth + 1);
        r.Done? && ParseValue(c, p, depth) == Done(Object(r.value), r.next)
  {
    hide CJsonGrammar.ParseItems, CJsonGrammar.ParseMembers, CJsonGrammar.ParseString, CJsonGrammar.ParseNumber;
    hide CJsonGrammar.SkipWhitespace;
    assert c[|c| - 1] == 0;
  }

  lemma {:induction false} ArrayIsText(c: Bytes, p: nat, depth: int) returns (d: Doc)
    requires Terminated(c) && p < |c| && c[p] == 91 && depth <= NESTING_LIMIT && ParseValue(c, p, depth).Done?
    ensures WellFormed(d) && Accepted(d, depth)
    ensures At(c, p, Render(d)) && ParseValue(c, p, depth) == Done(ValueOf(d), p + |Render(d)|)
    decreases |c| - p, 0
  {
    hide CJsonGrammar.At, CJsonGrammar.Terminated, CJsonGrammar.ParseValue, CJsonGrammar.SkipWhitespace;
    hide ElementsText, EntriesText, Accepted, ElementsAccepted, NumeralOk, NumeralText, NumeralValue, CharsOk, Quoted;
    hide CharsBytes, Blank, CJsonGrammar.ParseItems;
    var first := SkipWhitespace(c, p + 1);
    var blank := c[p + 1..first];
    BracketStep(c, p, depth);
    BlankRun(c, p + 1);
    ByteHere(c, p, 91);
    if c[first] == 93 {
      d := ArrayDoc(blank, []);
      ByteHere(c, first, 93);
      AtConcat(c, p + 1, blank, [93]);
      AtConcat(c, p, [91], blank + [93]);
      NoElements(depth + 1);
      AcceptedArray(blank, [], depth);
    } else {
      var es := ItemsAreText(c, first, depth + 1);
      var fs := WithBlank(c, p + 1, first, es, depth + 1);
      d := ArrayDoc(blank, fs);
      AtConcat(c, p, [91], ElementsText(fs));
      AcceptedArray(blank, fs, depth);
    }
  }

  lemma ByteHere(c: Bytes, p: nat, b: Byte)
    requires p < |c| && c[p] == b
    ensures At(c, p, [b])
  {
  }

  /** The blanks in front of the first element belong to it. */
  lemma WithBlank(c: Bytes, p: nat, q: nat, es: seq<Element>, depth: int) returns (fs: seq<Element>)
    requires p <= q <= |c| && Blank(c[p..q]) && At(c, p, c[p..q])
    requires es != [] && es[0].before == [] && ElementsOk(es) && ElementsAccepted(es, depth)
    requires At(c, q, ElementsText(es))
    ensures fs != [] && ElementsOk(fs) && ElementsAccepted(fs, depth) && ElementsValue(fs) == ElementsValue(es)
    ensures At(c, p, ElementsText(fs)) && p + |ElementsText(fs)| == q + |ElementsText(es)|
    ensures fs[0].before == c[p..q] && fs[0].value == es[0].value && fs[0].after == es[0].after && fs[1..] == es[1..]
  {
    hide CJsonGrammar.At, WellFormed, Readable, ValueOf, Render, Blank, CJsonTree.Height;
    var e := es[0];
    fs := [Element(c[p..q], e.value, e.after)] + es[1..];
    assert fs[1..] == es[1..];
    assert forall i :: 1 <= i < |fs| ==> fs[i] == es[i];
    assert ElementsText(fs) == c[p..q] + ElementsText(es);
    AtConcat(c, p, c[p..q], ElementsText(es));
  }

  lemma ItemsStep(c: Bytes, p: nat, depth: int)
    requires Terminated(c) && p < |c| && ParseItems(c, p, depth).Done?
    ensures ParseValue(c, p, depth).Done?
    ensures
      var v, q := ParseValue(c, p, depth).value, SkipWhitespace(c, ParseValue(c, p, depth).next);
      if c[q] == COMMA then
        && q + 1 < |c| && ParseItems(c, SkipWhitespace(c, q + 1), depth).Done?
        && var rest := ParseItems(c, SkipWhitespace(c, q + 1), depth);
           ParseItems(c, p, depth) == Done([v] + rest.value, rest.next)
      else c[q] == 93 && ParseItems(c, p, depth) == Done([v], q + 1)
  {
    hide CJsonGrammar.ParseValue, CJsonGrammar.SkipWhitespace;
    assert c[|c| - 1] == 0;
  }

  lemma {:induction false} ItemsAreText(c: Bytes, p: nat, depth: int) returns (es: seq<Element>)
    requires Terminated(c) && p < |c| && depth <= NESTING_LIMIT && ParseItems(c, p, depth).Done?
    ensures es != [] && es[0].before == [] && ElementsOk(es) && ElementsAccepted(es, depth)
    ensures At(c, p, ElementsText(es))
    ensures ParseItems(c, p, depth) == Done(ElementsValue(es), p + |ElementsText(es)|)
    decreases |c| - p, 2
  {
    hide CJsonGrammar.At, CJsonGrammar.Terminated, CJsonGrammar.ParseValue, CJsonGrammar.ParseItems;
    hide CJsonGrammar.SkipWhitespace, Render, ElementsText, WellFormed, ValueOf, Accepted, ElementsAccepted, Blank;
    ItemsStep(c, p, depth);
    var d := ValueIsText(c, p, depth);
    var next := p + |Render(d)|;
    var q := SkipWhitespace(c, next);
    var e := Element([], d, c[next..q]);
    BlankRun(c, next);
    NothingBlank();
    if c[q] == COMMA {
      var u := SkipWhitespace(c, q + 1);
      BlankRun(c, q + 1);
      var rest := ItemsAreText(c, u, depth);
      var more := WithBlank(c, q + 1, u, rest, depth);
      es := ElementCons(c, p, e, more, depth);
    } else {
      es := [e];
      NoElements(depth);
      LastElement(c, p, e, depth);
    }
  }

  lemma NothingBlank()
    ensures Blank([])
  {
  }

  /** An element, a comma and the rest. */
  lemma ElementCons(c: Bytes, p: nat, e: Element, more: seq<Element>, depth: int) returns (es: seq<Element>)
    requires ElementBlanks(e) && e.before == [] && WellFormed(e.value) && Accepted(e.value, depth)
    requires more != [] && ElementsOk(more) && ElementsAccepted(more, depth)
    requires var q := p + |Render(e.value)|; var r := q + |e.after|;
      At(c, p, Render(e.value)) && At(c, q, e.after) && r < |c| && c[r] == COMMA && At(c, r + 1, ElementsText(more))
    ensures es == [e] + more && ElementsOk(es) && ElementsAccepted(es, depth) && At(c, p, ElementsText(es))
    ensures |ElementsText(es)| == |Render(e.value)| + |e.after| + 1 + |ElementsText(more)|
    ensures ElementsValue(es) == [ValueOf(e.value)] + ElementsValue(more)
  {
    hide CJsonGrammar.At, WellFormed, Readable, ValueOf, Render, ElementBlanks, Accepted, ElementsAccepted;
    es := [e] + more;
    assert es[1..] == more;
    ElementsAcceptedStep(es, depth);
    var q := p + |Render(e.value)|;
    var r := q + |e.after|;
    assert ElementsText(es) == Render(e.value) + (e.after + ([COMMA] + ElementsText(more)));
    ByteHere(c, r, COMMA);
    AtConcat(c, r, [COMMA], ElementsText(more));
    AtConcat(c, q, e.after, [COMMA] + ElementsText(more));
    AtConcat(c, p, Render(e.value), e.after + ([COMMA] + ElementsText(more)));
  }

  lemma LastElement(c: Bytes, p: nat, e: Element, depth: int)
    requires ElementBlanks(e) && e.before == [] && WellFormed(e.value) && Accepted(e.value, depth)
    requires ElementsAccepted([], depth)
    requires var q := p + |Render(e.value)|; var r := q + |e.after|;
      At(c, p, Render(e.value)) && At(c, q, e.after) && r < |c| && c[r] == 93
    ensures ElementsOk([e]) && ElementsAccepted([e], depth) && At(c, p, ElementsText([e]))
    ensures |ElementsText([e])| == |Render(e.value)| + |e.after| + 1 && ElementsValue([e]) == [ValueOf(e.value)]
  {
    hide CJsonGrammar.At, WellFormed, Readable, ValueOf, Render, ElementBlanks, Accepted, ElementsAccepted;
    assert [e][1..] == [];
    ElementsAcceptedStep([e], depth);
    var q := p + |Render(e.value)|;
    assert ElementsText([e]) == Render(e.value) + (e.after + [93]);
    ByteHere(c, q + |e.after|, 93);
    AtConcat(c, q, e.after, [93]);
    AtConcat(c, p, Render(e.value), e.after + [93]);
  }

  lemma {:induction false} ObjectIsText(c: Bytes, p: nat, depth: int) returns (d: Doc)
    requires Terminated(c) && p < |c| && c[p] == 123 && depth <= NESTING_LIMIT && ParseValue(c, p, depth).Done?
    ensures WellFormed(d) && Accepted(d, depth)
    ensures At(c, p, Render(d)) && ParseValue(c, p, depth) == Done(ValueOf(d), p + |Render(d)|)
    decreases |c| - p, 0
  {
    hide CJsonGrammar.At, CJsonGrammar.Terminated, CJsonGrammar.ParseValue, CJsonGrammar.SkipWhitespace;
    hide ElementsText, EntriesText, Accepted, EntriesAccepted, NumeralOk, NumeralText, NumeralValue, CharsOk, Quoted;
    hide CharsBytes, Blank, EntryBlanks, CJsonGrammar.ParseMembers;
    var first := SkipWhitespace(c, p + 1);
    var blank := c[p + 1..first];
    BraceStep(c, p, depth);
    BlankRun(c, p + 1);
    ByteHere(c, p, 123);
    if c[first] == 125 {
      d := ObjectDoc(blank, []);
      ByteHere(c, first, 125);
      AtConcat(c, p + 1, blank, [125]);
      AtConcat(c, p, [123], blank + [125]);
      NoEntries(depth + 1);
      AcceptedObject(blank, [], depth);
    } else {
      var es := MembersAreText(c, first, depth + 1);
      var fs := WithBlankKey(c, p + 1, first, es, depth + 1);
      d := ObjectDoc(blank, fs);
      AtConcat(c, p, [123], EntriesText(fs));
      AcceptedObject(blank, fs, depth);
    }
  }

  /** The blanks in front of the first key belong to its member. */
  lemma WithBlankKey(c: Bytes, p: nat, q: nat, es: seq<Entry>, depth: int) returns (fs: seq<Entry>)
    requires p <= q <= |c| && Blank(c[p..q]) && At(c, p, c[p..q])
    requires es != [] && es[0].before == [] && EntriesOk(es) && EntriesAccepted(es, depth) && At(c, q, EntriesText(es))
    ensures fs != [] && EntriesOk(fs) && EntriesAccepted(fs, depth) && EntriesValue(fs) == EntriesValue(es)
    ensures At(c, p, EntriesText(fs)) && p + |EntriesText(fs)| == q + |EntriesText(es)|
    ensures fs[0] == es[0].(before := c[p..q]) && fs[1..] == es[1..]
  {
    hide CJsonGrammar.At, WellFormed, Readable, ValueOf, Render, Blank;
    hide CharsOk, WellPaired, CharsBytes, CJsonTree.Height;
    hide Quoted;
    fs := [es[0].(before := c[p..q])] + es[1..];
    assert fs[1..] == es[1..];
    assert forall i :: 1 <= i < |fs| ==> fs[i] == es[i];
    assert EntriesText(fs) == c[p..q] + EntriesText(es);
    AtConcat(c, p, c[p..q], EntriesText(es));
  }

  /** An accepted member, without the blanks in front of it and behind it. */
  lemma {:induction false} MemberIsText(c: Bytes, p: nat, depth: int) returns (e: Entry)
    requires Terminated(c) && p < |c| && depth <= NESTING_LIMIT && ParseMember(c, p, depth).Done?
    ensures e.before == [] == e.after && EntryBlanks(e) && CharsOk(e.key) && WellPaired(e.key)
    ensures WellFormed(e.value) && Accepted(e.value, depth)
    ensures At(c, p, KeyText(e)) && At(c, p + |KeyText(e)|, Render(e.value))
    ensures ParseMember(c, p, depth)
         == Done(Member(CharsBytes(e.key), ValueOf(e.value)), p + |KeyText(e)| + |Render(e.value)|)
    decreases |c| - p, 2
  {
    hide CJsonGrammar.At, CJsonGrammar.Terminated, CJsonGrammar.ParseValue, CJsonGrammar.ParseString;
    hide CJsonGrammar.SkipWhitespace, Render, Quoted, WellFormed, ValueOf, Accepted;
    hide Blank, CharsOk, WellPaired, CharsBytes;
    var chs := StringIsText(c, p);
    var q := p + |Quoted(chs)|;
    var colon := SkipWhitespace(c, q);
    BlankRun(c, q);
    var v := SkipWhitespace(c, colon + 1);
    BlankRun(c, colon + 1);
    var d := ValueIsText(c, v, depth);
    e := Entry([], chs, c[q..colon], c[colon + 1..v], d, []);
    NothingBlank();
    ByteHere(c, colon, COLON);
    AtConcat(c, colon, [COLON], e.beforeValue);
    AtConcat(c, q, e.afterKey, [COLON] + e.beforeValue);
    AtConcat(c, p, Quoted(chs), e.afterKey + ([COLON] + e.beforeValue));
  }

  lemma MembersStep(c: Bytes, p: nat, depth: int)
    requires Terminated(c) && p < |c| && ParseMembers(c, p, depth).Done?
    ensures ParseMember(c, p, depth).Done?
    ensures
      var m, q := ParseMember(c, p, depth).value, SkipWhitespace(c, ParseMember(c, p, depth).next);
      if c[q] == COMMA then
        && q + 1 < |c| && ParseMembers(c, SkipWhitespace(c, q + 1), depth).Done?
        && var rest := ParseMembers(c, SkipWhitespace(c, q + 1), depth);
           ParseMembers(c, p, depth) == Done([m] + rest.value, rest.next)
      else c[q] == 125 && ParseMembers(c, p, depth) == Done([m], q + 1)
  {
    hide CJsonGrammar.ParseMember, CJsonGrammar.SkipWhitespace;
    assert c[|c| - 1] == 0;
  }

  lemma {:induction false} MembersAreText(c: Bytes, p: nat, depth: int) returns (es: seq<Entry>)
    requires Terminated(c) && p < |c| && depth <= NESTING_LIMIT && ParseMembers(c, p, depth).Done?
    ensures es != [] && es[0].before == [] && EntriesOk(es) && EntriesAccepted(es, depth)
    ensures At(c, p, EntriesText(es))
    ensures ParseMembers(c, p, depth) == Done(EntriesValue(es), p + |EntriesText(es)|)
    decreases |c| - p, 3
  {
    hide CJsonGrammar.At, CJsonGrammar.Terminated, CJsonGrammar.ParseMember, CJsonGrammar.ParseMembers;
    hide CJsonGrammar.SkipWhitespace, Render, KeyText, EntriesText, WellFormed, ValueOf, Accepted, EntriesAccepted;
    hide Blank, CharsOk, WellPaired, CharsBytes;
    MembersStep(c, p, depth);
    var m := MemberIsText(c, p, depth);
    var next := p + |KeyText(m)| + |Render(m.value)|;
    var q := SkipWhitespace(c, next);
    var e := m.(after := c[next..q]);
    BlankRun(c, next);
    SameKeyText(m, e);
    if c[q] == COMMA {
      var u := SkipWhitespace(c, q + 1);
      BlankRun(c, q + 1);
      var rest := MembersAreText(c, u, depth);
      var more := WithBlankKey(c, q + 1, u, rest, depth);
      es := EntryCons(c, p, e, more, depth);
    } else {
      es := [e];
      NoEntries(depth);
      LastEntry(c, p, e, depth);
    }
  }

  lemma SameKeyText(m: Entry, e: Entry)
    requires e == m.(after := e.after)
    ensures KeyText(e) == KeyText(m)
  {
  }

  /** A member, a comma and the rest. */
  lemma EntryCons(c: Bytes, p: nat, e: Entry, more: seq<Entry>, depth: int) returns (es: seq<Entry>)
    requires EntryBlanks(e) && e.before == [] && CharsOk(e.key) && WellPaired(e.key)
    requires WellFormed(e.value) && Accepted(e.value, depth)
    requires more != [] && EntriesOk(more) && EntriesAccepted(more, depth)
    requires var v := p + |KeyText(e)|; var q := v + |Render(e.value)|; var r := q + |e.after|;
      && At(c, p, KeyText(e)) && At(c, v, Render(e.value)) && At(c, q, e.after) && r < |c| && c[r] == COMMA
      && At(c, r + 1, EntriesText(more))
    ensures es == [e] + more && EntriesOk(es) && EntriesAccepted(es, depth) && At(c, p, EntriesText(es))
    ensures |EntriesText(es)| == |KeyText(e)| + |Render(e.value)| + |e.after| + 1 + |EntriesText(more)|
    ensures EntriesValue(es) == [Member(CharsBytes(e.key), ValueOf(e.value))] + EntriesValue(more)
  {
    hide CJsonGrammar.At, WellFormed, Readable, ValueOf, Render, KeyText, EntryBlanks, Accepted, EntriesAccepted;
    hide CharsOk, WellPaired, CharsBytes;
    es := [e] + more;
    assert es[1..] == more;
    EntriesAcceptedStep(es, depth);
    var v := p + |KeyText(e)|;
    var q := v + |Render(e.value)|;
    var r := q + |e.after|;
    assert EntriesText(es) == KeyText(e) + (Render(e.value) + (e.after + ([COMMA] + EntriesText(more))));
    ByteHere(c, r, COMMA);
    AtConcat(c, r, [COMMA], EntriesText(more));
    AtConcat(c, q, e.after, [COMMA] + EntriesText(more));
    AtConcat(c, v, Render(e.value), e.after + ([COMMA] + EntriesText(more)));
    AtConcat(c, p, KeyText(e), Render(e.value) + (e.after + ([COMMA] + EntriesText(more))));
  }

  lemma LastEntry(c: Bytes, p: nat, e: Entry, depth: int)
    requires EntryBlanks(e) && e.before == [] && CharsOk(e.key) && WellPaired(e.key)
    requires WellFormed(e.value) && Accepted(e.value, depth) && EntriesAccepted([], depth)
    requires var v := p + |KeyText(e)|; var q := v + |Render(e.value)|; var r := q + |e.after|;
      At(c, p, KeyText(e)) && At(c, v, Render(e.value)) && At(c, q, e.after) && r < |c| && c[r] == 125
    ensures EntriesOk([e]) && EntriesAccepted([e], depth) && At(c, p, EntriesText([e]))
    ensures |EntriesText([e])| == |KeyText(e)| + |Render(e.value)| + |e.after| + 1
    ensures EntriesValue([e]) == [Member(CharsBytes(e.key), ValueOf(e.value))]
  {
    hide CJsonGrammar.At, WellFormed, Readable, ValueOf, Render, KeyText, EntryBlanks, Accepted, EntriesAccepted;
    hide CharsOk, WellPaired, CharsBytes;
    assert [e][1..] == [];
    EntriesAcceptedStep([e], depth);
    var v := p + |KeyText(e)|;
    var q := v + |Render(e.value)|;
    assert EntriesText([e]) == KeyText(e) + (Render(e.value) + (e.after + [125]));
    ByteHere(c, q + |e.after|, 125);
    AtConcat(c, q, e.after, [125]);
    AtConcat(c, v, Render(e.value), e.after + [125]);
    AtConcat(c, p, KeyText(e), Render(e.value) + (e.after + [125]));
  }

  // ---------- whole texts ----------

  /** The text is that of an acceptable value with whitespace around it, possibly behind a byte order mark. */
  ghost predicate IsDocument(text: Bytes, bom: bool, before: Bytes, d: Doc, after: Bytes) {
    && Blank(before) && Blank(after) && WellFormed(d) && Accepted(d, 0) && text == DocumentText(bom, before, d, after)
  }

  /** Where an accepted text comes from. */
  lemma AcceptedIsDocument(text: Bytes) returns (bom: bool, before: Bytes, d: Doc, after: Bytes)
    requires NulFree(text) && ParseText(text, true).Done?
    ensures IsDocument(text, bom, before, d, after)
  {
    hide CJsonGrammar.ParseValue, CJsonGrammar.SkipWhitespace, CJsonGrammar.SkipBom, CJsonGrammar.At;
    hide Render, WellFormed, Accepted, Blank, ValueOf, DocumentText, Lead;
    var c := text + [0];
    var start := SkipBom(c);
    bom := start == 3;
    TerminatedText(text);
    LeadHere(text, start);
    var p := SkipWhitespace(c, start);
    BlankRun(c, start);
    d := ValueIsText(c, p, 0);
    var next := p + |Render(d)|;
    BlankRun(c, next);
    EndsAtNul(text, SkipWhitespace(c, next));
    before, after := c[start..p], c[next..|text|];
    AtIsSlice(c, p, Render(d), next);
    Assembled(text, start, p, next, d);
  }

  lemma Assembled(text: Bytes, start: nat, p: nat, next: nat, d: Doc)
    requires start <= p <= next <= |text| && (text + [0])[..start] == Lead(start == 3)
    requires (text + [0])[p..next] == Render(d)
    ensures text == DocumentText(start == 3, (text + [0])[start..p], d, (text + [0])[next..|text|])
  {
    hide Render, Lead;
    var c := text + [0];
    assert text == c[..start] + (c[start..p] + (c[p..next] + c[next..|text|]));
  }

  lemma EndsAtNul(text: Bytes, q: nat)
    requires NulFree(text) && q <= |text| && (text + [0])[q] == 0
    ensures q == |text|
  {
  }

  lemma LeadHere(text: Bytes, start: nat)
    requires start == SkipBom(text + [0])
    ensures start <= |text| && (text + [0])[..start] == Lead(start == 3)
  {
  }

  /** A text is accepted, terminator required, if and only if it is that of an acceptable value with whitespace
      around it. The parse then gives that value. */
  lemma AcceptedExactly(text: Bytes)
    requires NulFree(text)
    ensures ParseText(text, true).Done? <==>
      exists bom, before, d, after :: IsDocument(text, bom, before, d, after)
    ensures forall bom, before, d, after :: IsDocument(text, bom, before, d, after) ==>
      ParseText(text, true) == Done(ValueOf(d), |text|)
  {
    hide CJsonGrammar.ParseText, DocumentText, WellFormed, Accepted, Blank;
    if ParseText(text, true).Done? {
      var bom, before, d, after := AcceptedIsDocument(text);
    }
    forall bom, before, d, after | IsDocument(text, bom, before, d, after)
      ensures ParseText(text, true) == Done(ValueOf(d), |text|)
    {
      TextParses(bom, before, d, after);
    }
  }
}
