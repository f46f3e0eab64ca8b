/** Strings and numbers in a buffer: what the parser makes of each text that it can have. */
module CJsonTokens {
  import opened Collections
  import opened CJsonTree
  import opened CJsonText
  import opened CJsonGrammar
  import opened CJsonLayout
  import opened CJsonUnicode
  import opened CJsonLiterals
  import opened CJsonSyntax

  // ---------- letters and digits ----------

  /** The bytes that both sides name. */
  lemma Punctuation()
    ensures [QUOTE, BACKSLASH, COMMA, COLON] == Ascii("\"\\,:") && [TAB, NEWLINE, SPACE] == Ascii("\t\n ")
    ensures NULL_TEXT == Ascii("null") && FALSE_TEXT == Ascii("false") && TRUE_TEXT == Ascii("true")
    ensures BOM == [0xEF, 0xBB, 0xBF] && NESTING_LIMIT == 1000
  {
  }

  /** The parser reads each short escape as it is meant. */
  lemma UnshortMeans(letter: Byte)
    ensures Meaning(letter) == if Unshort(letter) != 0 then Some(Unshort(letter)) else None
  {
  }

  lemma LaxUnitCode(t: Bytes, n: nat)
    requires |t| == 6
    ensures LaxUnit(t, n) <==> t[0] == BACKSLASH && t[1] == 117 && NulFree(t) && Hex4(t, 2) == n
  {
    hide CJsonGrammar.Hex4, FourHex, IsHexDigit;
    Hex4Means(t, 2, n);
    assert t[2..6] == t[2..];
  }

  // ---------- strings ----------

  /** The first pass goes from pair to pair, so that it stops behind a tokenised inside. */
  lemma {:induction false} TokensEnd(c: Bytes, p: nat, t: Bytes)
    requires At(c, p, t) && Tokenised(t) && p + |t| < |c| && c[p + |t|] == QUOTE
    ensures StringEnd(c, p) == p + |t|
    decreases |t|
  {
    hide CJsonGrammar.At;
    if t != [] {
      var k := if t[0] == BACKSLASH then 2 else 1;
      AtByte(c, p, t, 0);
      assert t == t[..k] + t[k..];
      AtConcat(c, p, t[..k], t[k..]);
      TokensEnd(c, p + k, t[k..]);
    }
  }

  lemma LaxUnitLands(c: Bytes, p: nat, t: Bytes, n: nat)
    requires At(c, p, t) && LaxUnit(t, n)
    ensures p + 6 <= |c| && c[p] == BACKSLASH && c[p + 1] == 117 && Hex4(c, p + 2) == n
  {
    hide FourHex, IsHexDigit;
    LaxUnitCode(t, n);
    AtByte(c, p, t, 0); AtByte(c, p, t, 1); AtByte(c, p, t, 2);
    AtByte(c, p, t, 3); AtByte(c, p, t, 4); AtByte(c, p, t, 5);
  }

  /** What stands at q opens no low surrogate: the text of chs does, up to the closing quote at end. */
  lemma NoLowAhead(c: Bytes, q: nat, chs: seq<Char>, end: nat)
    requires Reads(chs) && At(c, q, CharsText(chs)) && q + |CharsText(chs)| == end < |c| && c[end] == QUOTE
    requires chs == [] || !chs[0].Unit? || !LowSurrogate(chs[0].code)
    ensures end - q >= 6 && c[q] == BACKSLASH && c[q + 1] == 117 ==> !LowSurrogate(Hex4(c, q + 2))
  {
    hide CJsonGrammar.At, CJsonGrammar.Hex4, CharsText;
    if chs != [] {
      CharsTextSplit(chs, 1);
      AtConcat(c, q, CharText(chs[0]), CharsText(chs[1..]));
      match chs[0]
      case Plain(_) => AtByte(c, q, CharText(chs[0]), 0);
      case Short(_) => AtByte(c, q, CharText(chs[0]), 1);
      case Unit(text, code) => LaxUnitLands(c, q, text, code);
      case Dangling =>
        assert chs[1..] == [];
        NoText();
    } else {
      NoText();
    }
  }

  lemma NoText()
    ensures CharsText([]) == []
  {
  }

  lemma CharsTextSplit(chs: seq<Char>, k: nat)
    requires k <= |chs| && 1 <= k <= 2
    ensures CharsText(chs) == CharText(chs[0]) + CharsText(chs[1..])
    ensures k == 2 ==> CharsText(chs[1..]) == CharText(chs[1]) + CharsText(chs[2..])
  {
    if k == 2 {
      assert chs[1..][1..] == chs[2..];
    }
  }

  /** One unit in the second pass, with what follows it. */
  lemma UnitStep(c: Bytes, p: nat, chs: seq<Char>, q: nat, end: nat)
    requires chs != [] && chs[0].Unit? && Reads(chs) && At(c, p, CharsText(chs))
    requires p + |CharsText(chs)| == end == q + |CharsText(chs[Taken(chs)..])| && end < |c| && c[end] == QUOTE
    ensures
      if StartsPaired(chs) then q <= end && Unescape(c, p, end) == Prepend(FirstBytes(chs), Unescape(c, q, end))
      else Unescape(c, p, end).Failed?
  {
    hide CJsonGrammar.At, CJsonGrammar.Hex4, CJsonGrammar.Utf8, CharsText, LaxUnit;
    CharsTextSplit(chs, 1);
    AtConcat(c, p, CharText(chs[0]), CharsText(chs[1..]));
    LaxUnitLands(c, p, chs[0].text, chs[0].code);
    UnitLength(chs[0].text, chs[0].code);
    if PairAhead(chs) {
      CharsTextSplit(chs, 2);
      AtConcat(c, p + 6, CharText(chs[1]), CharsText(chs[2..]));
      LaxUnitLands(c, p + 6, chs[1].text, chs[1].code);
      UnitLength(chs[1].text, chs[1].code);
    } else if HighSurrogate(chs[0].code) {
      NoLowAhead(c, p + 6, chs[1..], end);
    }
  }

  lemma UnitLength(t: Bytes, n: nat)
    requires LaxUnit(t, n)
    ensures |t| == 6 && n < 0x10000
  {
  }

  /** The second pass on the inside of a string: it fails exactly on an unpaired surrogate. */
  lemma {:induction false} CharsUnescape(c: Bytes, p: nat, chs: seq<Char>, end: nat)
    requires Reads(chs) && At(c, p, CharsText(chs))
    requires p + |CharsText(chs)| == end < |c| && c[end] == QUOTE
    ensures Unescape(c, p, end).Done? <==> WellPaired(chs)
    ensures WellPaired(chs) ==> Unescape(c, p, end).value == CharsBytes(chs)
    decreases |chs|
  {
    hide CJsonGrammar.At, CJsonGrammar.Unescape, CharsText, CharOk, FirstBytes, StartsPaired, Taken;
    if chs == [] {
      NoText();
      UnescapeNothing(c, end);
    } else {
      var k := Taken(chs);
      AtTaken(c, p, chs, end);
      var q := end - |CharsText(chs[k..])|;
      CharsUnescape(c, q, chs[k..], end);
      FirstStep(c, p, chs, q, end);
    }
  }

  lemma UnescapeNothing(c: Bytes, end: nat)
    requires end < |c|
    ensures Unescape(c, end, end) == Done([], end) && Unescape(c, end + 1, end) == Done([], end + 1)
  {
  }

  /** The first character of a string in the second pass. */
  lemma FirstStep(c: Bytes, p: nat, chs: seq<Char>, q: nat, end: nat)
    requires chs != [] && Reads(chs) && At(c, p, CharsText(chs))
    requires p + |CharsText(chs)| == end == q + |CharsText(chs[Taken(chs)..])| && end < |c| && c[end] == QUOTE
    ensures
      var r, rest := Unescape(c, p, end), Unescape(c, q, end);
      if StartsPaired(chs) then r.Done? == rest.Done? && (rest.Done? ==> r.value == FirstBytes(chs) + rest.value)
      else r.Failed?
  {
    hide CJsonGrammar.At, CJsonGrammar.Utf16Literal, CJsonGrammar.Utf8, CharsText, LaxUnit;
    var ch := chs[0];
    if ch.Unit? {
      UnitStep(c, p, chs, q, end);
    } else {
      CharsTextSplit(chs, 1);
      AtConcat(c, p, CharText(ch), CharsText(chs[1..]));
      AtByte(c, p, CharText(ch), 0);
      if ch.Short? {
        AtByte(c, p, CharText(ch), 1);
      } else if ch.Dangling? {
        assert chs[1..] == [];
        NoText();
        UnescapeNothing(c, end);
      }
    }
  }

  lemma AtTaken(c: Bytes, p: nat, chs: seq<Char>, end: nat)
    requires chs != [] && At(c, p, CharsText(chs)) && p + |CharsText(chs)| == end
    ensures var q := end - |CharsText(chs[Taken(chs)..])|; p <= q && At(c, q, CharsText(chs[Taken(chs)..]))
  {
    hide CJsonGrammar.At, CharsText, CharText;
    CharsTextSplit(chs, Taken(chs));
    AtConcat(c, p, CharText(chs[0]), CharsText(chs[1..]));
    if Taken(chs) == 2 {
      AtConcat(c, p + |CharText(chs[0])|, CharText(chs[1]), CharsText(chs[2..]));
    }
  }

  /** A string parses to the bytes it stands for if its surrogates are paired, and is rejected otherwise. */
  lemma StringParses(c: Bytes, p: nat, chs: seq<Char>)
    requires CharsOk(chs) && At(c, p, Quoted(chs))
    ensures p < |c|
    ensures if WellPaired(chs) then ParseString(c, p) == Done(CharsBytes(chs), p + |Quoted(chs)|)
            else ParseString(c, p).Failed?
  {
    hide CJsonGrammar.At, CharsText, CharsBytes, Reads, WellPaired;
    hide Tokenised, CJsonGrammar.StringEnd, CJsonGrammar.Unescape;
    var t := CharsText(chs);
    AtThree(c, p, [QUOTE], t, [QUOTE]);
    AtByte(c, p, [QUOTE], 0);
    AtByte(c, p + 1 + |t|, [QUOTE], 0);
    TokensEnd(c, p + 1, t);
    CharsUnescape(c, p + 1, chs, p + 1 + |t|);
  }

  /** The strings of RFC 8259 read both ways. */
  lemma {:induction false} StrictCharsOk(chs: seq<Char>)
    requires StrictChars(chs)
    ensures CharsOk(chs)
    decreases |chs|
  {
    hide CJsonGrammar.Hex4;
    if chs != [] {
      StrictCharsOk(chs[1..]);
      StrictCharOk(chs[0], CharsText(chs[1..]));
      forall i | 0 <= i < |chs| ensures CharOk(chs[i]) && !chs[i].Dangling? {
        StrictCharOk(chs[i], []);
      }
    }
  }

  lemma {:induction false} PlainThenTokenised(t: Bytes, rest: Bytes)
    requires (forall i :: 0 <= i < |t| ==> t[i] != QUOTE && t[i] != BACKSLASH) && Tokenised(rest)
    ensures Tokenised(t + rest)
    decreases |t|
  {
    if t == [] {
      assert t + rest == rest;
    } else {
      assert (t + rest)[1..] == t[1..] + rest;
      PlainThenTokenised(t[1..], rest);
    }
  }

  lemma StrictCharOk(ch: Char, rest: Bytes)
    requires StrictChar(ch) && Tokenised(rest)
    ensures CharOk(ch) && Tokenised(CharText(ch) + rest)
  {
    hide CJsonGrammar.Hex4, IsUnit, LaxUnit, FourHex;
    if ch.Unit? {
      UnitShape(ch.text, ch.code);
    }
    var t := CharText(ch);
    match ch
    case Plain(_) => assert (t + rest)[1..] == rest;
    case Short(_) => assert (t + rest)[2..] == rest;
    case Unit(text, code) =>
      StrictUnitOk(text, code);
      var u := t + rest;
      assert u[2..] == text[2..] + rest;
      PlainThenTokenised(text[2..], rest);
  }

  lemma UnitShape(t: Bytes, n: nat)
    requires IsUnit(t, n)
    ensures |t| == 6 && t[0] == BACKSLASH && t[1] == 117
  {
  }

  lemma StrictUnitOk(t: Bytes, n: nat)
    requires IsUnit(t, n)
    ensures LaxUnit(t, n) && forall i :: 2 <= i < 6 ==> t[i] != BACKSLASH && t[i] != QUOTE
  {
    hide FourHex, CJsonGrammar.Hex4;
    UnitDigits(t, n);
    forall i | 0 <= i < 6 ensures t[i] != 0 {
      assert i >= 2 ==> IsHexDigit(t[i]);
    }
  }

  // ---------- numbers ----------

  lemma {:induction false} NumberEndOfRun(c: Bytes, p: nat, len: nat, room: nat)
    requires p + len < |c| && len <= room && !NumberByte(c[p + len])
    requires forall i :: p <= i < p + len ==> NumberByte(c[i])
    ensures NumberEnd(c, p, room) == p + len
    decreases len
  {
    if len > 0 {
      NumberEndOfRun(c, p + 1, len - 1, room - 1);
    }
  }

  /** A run of digits ends at the first byte that is none. */
  lemma {:induction false} DigitsEndOfRun(t: Bytes, i: nat, j: nat)
    requires i <= j <= |t| && (forall k :: i <= k < j ==> IsDigit(t[k])) && (j < |t| ==> !IsDigit(t[j]))
    ensures DigitsEnd(t, i) == j
    decreases j - i
  {
    if i < j {
      DigitsEndOfRun(t, i + 1, j);
    }
  }

  ghost predicate NumberBytes(t: Bytes) {
    forall i :: 0 <= i < |t| ==> NumberByte(t[i])
  }

  lemma NumberBytesConcat(a: Bytes, b: Bytes)
    requires NumberBytes(a) && NumberBytes(b)
    ensures NumberBytes(a + b)
  {
  }

  lemma NumeralBytes(n: Numeral)
    requires NumeralOk(n)
    ensures NumberBytes(NumeralText(n))
    ensures |NumeralText(n)| > 0 && (NumeralText(n)[0] == 45 || IsDigit(NumeralText(n)[0]))
  {
    hide ExponentText, NumberBytes;
    ExponentBytes(n);
    FractionBytes(n);
    NumberBytesConcat(FractionText(n), ExponentText(n));
    NumberBytesConcat(n.whole, FractionText(n) + ExponentText(n));
    NumberBytesConcat(MinusText(n), n.whole + (FractionText(n) + ExponentText(n)));
  }

  lemma FractionBytes(n: Numeral)
    requires NumeralOk(n)
    ensures NumberBytes(FractionText(n)) && NumberBytes(n.whole) && NumberBytes(MinusText(n))
  {
    hide NumeralText;
  }

  lemma ExponentBytes(n: Numeral)
    requires NumeralOk(n)
    ensures NumberBytes(ExponentText(n))
  {
    hide NumeralText;
    if n.exponent.Some? {
      var e := n.exponent.value;
      NumberBytesConcat(e.sign, e.digits);
      NumberBytesConcat([e.mark], e.sign + e.digits);
    }
  }

  lemma FourParts(a: Bytes, b: Bytes, d: Bytes, e: Bytes)
    ensures var t, i, j, k := a + (b + (d + e)), |a|, |a| + |b|, |a| + |b| + |d|;
      t[..i] == a && t[i..j] == b && t[j..k] == d && t[k..] == e
  {
    var t, i, j := a + (b + (d + e)), |a|, |a| + |b|;
    TwoParts(a, b + (d + e));
    TwoParts(b, d + e);
    TwoParts(d, e);
    assert t[i..j] == t[i..][..|b|];
    assert t[j..] == t[i..][|b|..];
    assert t[j..j + |d|] == t[j..][..|d|];
    assert t[j + |d|..] == t[j..][|d|..];
  }

  lemma TwoParts(a: Bytes, b: Bytes)
    ensures (a + b)[..|a|] == a && (a + b)[|a|..] == b
  {
  }

  lemma SliceAt(t: Bytes, i: nat, j: nat, w: Bytes)
    requires i <= j <= |t| && t[i..j] == w
    ensures |w| == j - i && forall k :: i <= k < j ==> t[k] == w[k - i]
  {
  }

  lemma NumeralParts(n: Numeral)
    ensures
      var t, s := NumeralText(n), |MinusText(n)|;
      var i := s + |n.whole|; var g := i + |FractionText(n)|;
      && g <= |t| && t[s..i] == n.whole && t[i..g] == FractionText(n) && t[g..] == ExponentText(n)
      && t[i..] == FractionText(n) + ExponentText(n) && (n.negative ==> t[0] == 45)
  {
    hide FractionText, ExponentText;
    var t, i := NumeralText(n), |MinusText(n)| + |n.whole|;
    FourParts(MinusText(n), n.whole, FractionText(n), ExponentText(n));
    assert t[i..] == t[i..i + |FractionText(n)|] + t[i + |FractionText(n)|..];
  }

  /** Where the whole part of a numeral lies. */
  lemma WholePart(n: Numeral, t: Bytes, s: nat, i: nat)
    requires NumeralOk(n) && t == NumeralText(n) && s == |MinusText(n)| && i == s + |n.whole|
    ensures s <= i <= |t| && 0 < |t| && t[s..i] == n.whole && DigitsEnd(t, s) == i && (i == s ==> n.fraction != [])
    ensures (n.negative <==> t[0] == 45) && t[0] != 43 && SignLength(t) == s
  {
    hide CJsonGrammar.DigitsEnd, NumeralText, FractionText, ExponentText;
    NumeralParts(n);
    NumeralBytes(n);
    SliceAt(t, s, i, n.whole);
    RestOpens(n, t, i);
    DigitsEndOfRun(t, s, i);
  }

  lemma RestOpens(n: Numeral, t: Bytes, i: nat)
    requires NumeralOk(n) && i <= |t| && t[i..] == FractionText(n) + ExponentText(n)
    ensures i < |t| ==> !IsDigit(t[i]) && (t[i] == 46 <==> n.point)
    ensures i == |t| ==> !n.point && n.exponent.None?
  {
    assert i < |t| ==> t[i] == t[i..][0];
  }

  lemma FractionPart(n: Numeral, t: Bytes, i: nat, g: nat)
    requires NumeralOk(n) && t == NumeralText(n) && i == |MinusText(n)| + |n.whole| && g == i + |FractionText(n)|
    ensures i <= g <= |t| && t[g..] == ExponentText(n)
    ensures FractionEnd(t, i) == g && FractionOf(t, i, g) == n.fraction
  {
    hide CJsonGrammar.DigitsEnd, ExponentText, MinusText, IsDecimal, NumeralText;
    NumeralParts(n);
    FractionSlices(n, t, i, g);
    ExponentOpens(n, t, g);
    if n.point {
      DigitsEndOfRun(t, i + 1, g);
    }
  }

  lemma FractionSlices(n: Numeral, t: Bytes, i: nat, g: nat)
    requires NumeralOk(n) && i <= g <= |t| && t[i..g] == FractionText(n) && t[g..] == ExponentText(n)
    ensures n.point ==> i < g && t[i] == 46 && t[i + 1..g] == n.fraction
    ensures forall k :: i + 1 <= k < g ==> IsDigit(t[k])
    ensures !n.point ==> i == g && (g < |t| ==> t[g] != 46)
  {
    hide NumeralText;
    SliceAt(t, i, g, FractionText(n));
    ExponentOpens(n, t, g);
  }

  lemma ExponentOpens(n: Numeral, t: Bytes, g: nat)
    requires NumeralOk(n) && g <= |t| && t[g..] == ExponentText(n)
    ensures g < |t| <==> n.exponent.Some?
    ensures g < |t| ==> t[g] == n.exponent.value.mark && !IsDigit(t[g]) && (t[g] == 101 || t[g] == 69)
  {
    assert g < |t| ==> t[g] == t[g..][0];
  }

  /** Digits up to the end are read up to the end. */
  lemma DigitsToEnd(t: Bytes, k: nat, digits: Bytes)
    requires k <= |t| && t[k..|t|] == digits && digits != [] && IsDecimal(digits)
    ensures k < |t| && IsDigit(t[k]) && DigitsEnd(t, k) == |t|
  {
    hide CJsonGrammar.DigitsEnd, IsDecimal;
    DigitsAt(t, k, digits);
    DigitsEndOfRun(t, k, |t|);
  }

  lemma DigitsAt(t: Bytes, k: nat, digits: Bytes)
    requires k <= |t| && t[k..|t|] == digits && IsDecimal(digits)
    ensures forall i :: k <= i < |t| ==> IsDigit(t[i])
  {
    SliceAt(t, k, |t|, digits);
  }

  lemma ExponentAt(n: Numeral, e: Exponent, t: Bytes, g: nat)
    requires NumeralOk(n) && n.exponent == Some(e) && g <= |t| && t[g..] == ExponentText(n)
    ensures ExponentStart(t, g) == g + 1 + |e.sign| && g + 1 + |e.sign| + |e.digits| == |t|
    ensures (t[g + 1] == 45 <==> e.sign == [45]) && e.digits != [] && IsDecimal(e.digits)
    ensures t[g + 1 + |e.sign|..|t|] == e.digits
  {
    hide NumeralText, FractionText, MinusText, IsDecimal, CJsonGrammar.ExponentStart;
    ExponentSlices(e, t, g);
    ExponentStarts(e, t, g);
  }

  lemma ExponentSlices(e: Exponent, t: Bytes, g: nat)
    requires g <= |t| && t[g..] == [e.mark] + (e.sign + e.digits)
    ensures g + 1 + |e.sign| + |e.digits| == |t| && t[g + 1 + |e.sign|..|t|] == e.digits
    ensures forall k :: g + 1 <= k < g + 1 + |e.sign| ==> t[k] == e.sign[k - g - 1]
  {
    var front := [e.mark] + e.sign;
    assert t[g..] == front + e.digits;
    TwoParts(front, e.digits);
    assert t[g + |front|..|t|] == t[g..][|front|..];
    SliceAt(t, g, g + |front|, t[g..][..|front|]);
  }

  lemma ExponentStarts(e: Exponent, t: Bytes, g: nat)
    requires g + 1 + |e.sign| + |e.digits| == |t| && t[g + 1 + |e.sign|..|t|] == e.digits
    requires forall k :: g + 1 <= k < g + 1 + |e.sign| ==> t[k] == e.sign[k - g - 1]
    requires e.sign in [[], [43], [45]] && e.digits != [] && IsDecimal(e.digits)
    ensures ExponentStart(t, g) == g + 1 + |e.sign| && (t[g + 1] == 45 <==> e.sign == [45])
  {
    SliceAt(t, g + 1 + |e.sign|, |t|, e.digits);
    assert IsDigit(e.digits[0]) && t[g + 1 + |e.sign|] == e.digits[0];
    assert e.sign == [] || (|e.sign| == 1 && t[g + 1] == e.sign[0]);
  }

  // ---------- what digits are worth ----------

  lemma WholeStep(t: Bytes)
    requires t != [] && IsDecimal(t)
    ensures IsDecimal(t[1..]) && IsDigit(t[0]) && Whole(t) == (t[0] - 48) * Tens(|t| - 1) + Whole(t[1..])
  {
    hide Tens;
  }

  lemma WholeOne(d: Byte)
    requires IsDigit(d)
    ensures IsDecimal([d]) && Whole([d]) == d - 48
  {
    WholeStep([d]);
    assert [d][1..] == [] && Tens(0) == 1 && Whole([]) == 0;
  }

  lemma DecimalAppend(t: Bytes, d: Byte)
    requires IsDecimal(t + [d])
    ensures IsDecimal(t) && IsDigit(d) && (t != [] ==> IsDigit(t[0]) && IsDecimal(t[1..] + [d]))
    ensures t != [] ==> (t + [d])[0] == t[0] && (t + [d])[1..] == t[1..] + [d]
  {
    assert (t + [d])[|t|] == d && (t + [d])[..|t|] == t;
  }

  lemma {:induction false} WholeAppend(t: Bytes, d: Byte)
    requires IsDecimal(t + [d])
    ensures IsDecimal(t) && IsDigit(d) && Whole(t + [d]) == 10 * Whole(t) + (d - 48)
    decreases |t|
  {
    hide Whole, IsDecimal, Tens;
    DecimalAppend(t, d);
    if t == [] {
      WholeOne(d);
      assert t + [d] == [d] && Whole(t) == 0 by { WholeNothing(); }
    } else {
      WholeAppend(t[1..], d);
      WholeStep(t);
      WholeStep(t + [d]);
      NextTen(t[0] - 48, |t|);
    }
  }

  lemma WholeNothing()
    ensures IsDecimal([]) && Whole([]) == 0
  {
  }

  lemma NextTen(x: int, n: nat)
    requires n > 0
    ensures x * Tens(n) == 10 * (x * Tens(n - 1))
  {
    var p := Tens(n - 1);
    assert Tens(n) == 10 * p;
  }

  /** The parser's loop over digits gives their value by place. */
  lemma {:induction false} DigitsValueIsWhole(t: Bytes)
    requires IsDecimal(t)
    ensures DigitsValue(t) == Whole(t)
    decreases |t|
  {
    hide Whole;
    if t == [] {
      WholeNothing();
    } else {
      var n := |t| - 1;
      assert t == t[..n] + [t[n]];
      WholeAppend(t[..n], t[n]);
      DigitsValueIsWhole(t[..n]);
    }
  }

  lemma {:induction false} ScaleIsShifted(m: real, up: bool, e: nat)
    ensures Scale(m, up, e) == Shifted(m, up, e)
    decreases e
  {
    if e > 0 {
      ScaleIsShifted(if up then m * 10.0 else m / 10.0, up, e - 1);
      ScaleStep(m, PowerOfTen(e - 1));
    }
  }

  lemma ScaleStep(m: real, p: real)
    requires p > 0.0
    ensures m * 10.0 * p == m * (10.0 * p) && m / 10.0 / p == m / (10.0 * p)
  {
  }

  /** Digits behind the point count a tenth of a tenth less each. */
  lemma {:induction false} PointMoves(a: Bytes, b: Bytes)
    requires IsDecimal(a) && IsDecimal(b)
    ensures IsDecimal(a + b) && Whole(a + b) as real == (Whole(a) as real + Fraction(b)) * PowerOfTen(|b|)
    decreases |b|
  {
    hide Whole, IsDecimal, Fraction, CJsonGrammar.PowerOfTen;
    if b == [] {
      assert a + b == a;
      NoFraction();
    } else {
      DecimalSplit(a, b);
      FirstOfFraction(b);
      NextPower(|b|);
      WholeAppend(a, b[0]);
      PointMoves(a + [b[0]], b[1..]);
      Distribute(Whole(a) as real, (b[0] - 48) as real, Fraction(b[1..]), PowerOfTen(|b| - 1));
    }
  }

  lemma NoFraction()
    ensures IsDecimal([]) && Fraction([]) == 0.0 && PowerOfTen(0) == 1.0
  {
  }

  lemma DecimalSplit(a: Bytes, b: Bytes)
    requires b != [] && IsDecimal(a) && IsDecimal(b)
    ensures a + b == a + [b[0]] + b[1..] && IsDecimal(a + [b[0]]) && IsDecimal(b[1..])
  {
    assert b == [b[0]] + b[1..];
  }

  lemma FirstOfFraction(b: Bytes)
    requires b != [] && IsDecimal(b)
    ensures IsDecimal(b[1..]) && Fraction(b) == ((b[0] - 48) as real + Fraction(b[1..])) / 10.0
  {
  }

  lemma NextPower(n: nat)
    requires n > 0
    ensures PowerOfTen(n) == 10.0 * PowerOfTen(n - 1)
  {
  }

  lemma DecimalConcat(a: Bytes, b: Bytes)
    requires IsDecimal(a) && IsDecimal(b)
    ensures IsDecimal(a + b)
  {
  }

  lemma Distribute(w: real, d: real, f: real, p: real)
    ensures (10.0 * w + d + f) * p == (w + (d + f) / 10.0) * (10.0 * p)
  {
    var x := w + (d + f) / 10.0;
    assert 10.0 * w + d + f == 10.0 * x;
    assert (10.0 * x) * p == x * (10.0 * p);
  }

  /** So the parser's way of computing a value, all digits first and then the powers, gives the exact one. */
  lemma MantissaMeans(whole: Bytes, fraction: Bytes)
    requires IsDecimal(whole) && IsDecimal(fraction)
    ensures IsDecimal(whole + fraction)
    ensures Scale(DigitsValue(whole + fraction) as real, false, |fraction|) == Whole(whole) as real + Fraction(fraction)
  {
    hide Whole, IsDecimal, Fraction, CJsonGrammar.PowerOfTen, CJsonGrammar.DigitsValue;
    PointMoves(whole, fraction);
    DigitsValueIsWhole(whole + fraction);
    Quotient(Whole(whole) as real + Fraction(fraction), PowerOfTen(|fraction|));
  }

  lemma Quotient(x: real, p: real)
    requires p > 0.0
    ensures x * p / p == x
  {
  }

  /** The value of a numeral as the parser computes it. */
  lemma NumeralComputed(n: Numeral)
    requires NumeralOk(n)
    ensures IsDecimal(n.whole + n.fraction)
    ensures
      var m := Scale(DigitsValue(n.whole + n.fraction) as real, false, |n.fraction|);
      var signed := if n.negative then -m else m;
      NumeralValue(n) ==
        if n.exponent.None? then signed
        else Scale(signed, n.exponent.value.sign != [45], DigitsValue(n.exponent.value.digits))
  {
    hide CJsonGrammar.Scale, CJsonGrammar.DigitsValue, Whole, Fraction, Shifted, IsDecimal;
    MantissaMeans(n.whole, n.fraction);
    if n.exponent.Some? {
      var m := Whole(n.whole) as real + Fraction(n.fraction);
      var e := n.exponent.value;
      DigitsValueIsWhole(e.digits);
      ScaleIsShifted(if n.negative then -m else m, e.sign != [45], Whole(e.digits));
    }
  }

  lemma StrtodOfNumeral(n: Numeral)
    requires NumeralOk(n)
    ensures Strtod(NumeralText(n)) == (|NumeralText(n)|, NumeralValue(n))
  {
    hide CJsonGrammar.DigitsEnd, CJsonGrammar.DigitsValue, CJsonGrammar.Scale, CJsonGrammar.Mantissa;
    hide CJsonGrammar.FractionEnd, CJsonGrammar.FractionOf, CJsonGrammar.SignLength, CJsonGrammar.ExponentStart;
    hide NumeralText, NumeralOk, ExponentText, FractionText;
    var t, s := NumeralText(n), |MinusText(n)|;
    var i := s + |n.whole|;
    var g := i + |FractionText(n)|;
    WholePart(n, t, s, i);
    FractionPart(n, t, i, g);
    ExponentOpens(n, t, g);
    MantissaOf(n, t, s, i, g);
    NumeralComputed(n);
    if n.exponent.Some? {
      var e := n.exponent.value;
      ExponentAt(n, e, t, g);
      DigitsToEnd(t, g + 1 + |e.sign|, e.digits);
    }
  }

  lemma MantissaOf(n: Numeral, t: Bytes, s: nat, i: nat, g: nat)
    requires NumeralOk(n) && s == |MinusText(n)| && s <= i <= g <= |t| && |t| > 0
    requires t[s..i] == n.whole && FractionOf(t, i, g) == n.fraction && (n.negative <==> t[0] == 45)
    requires (forall k :: s <= k < i ==> IsDigit(t[k])) && forall k :: i + 1 <= k < g ==> IsDigit(t[k])
    ensures IsDecimal(n.whole + n.fraction)
    ensures var m := Scale(DigitsValue(n.whole + n.fraction) as real, false, |n.fraction|);
      Mantissa(t, s, i, g) == if n.negative then -m else m
  {
    hide NumeralText, CJsonGrammar.FractionOf, CJsonGrammar.Scale, CJsonGrammar.DigitsValue;
  }

  /** The parse stopped in front of a byte that a number could go on with, if it did not fail at once. */
  ghost predicate Stuck<T>(c: Bytes, r: Parsed<T>) {
    r.Done? ==> r.next < |c| && NumberByte(c[r.next])
  }

  /** A number of at most 63 bytes parses to its exact value; a longer one is left in the middle. */
  lemma NumberParses(c: Bytes, p: nat, n: Numeral)
    requires NumeralOk(n) && At(c, p, NumeralText(n))
    requires p + |NumeralText(n)| < |c| && !NumberByte(c[p + |NumeralText(n)|])
    ensures
      if |NumeralText(n)| <= 63 then ParseNumber(c, p) == Done(Number(NumeralValue(n)), p + |NumeralText(n)|)
      else Stuck(c, ParseNumber(c, p))
  {
    hide CJsonGrammar.Strtod, CJsonGrammar.At, CJsonGrammar.NumberEnd, NumeralText, NumeralValue;
    var t := NumeralText(n);
    NumeralBytes(n);
    forall i | p <= i < p + |t| ensures NumberByte(c[i]) && c[i] == t[i - p] {
      AtByte(c, p, t, i - p);
    }
    if |t| <= 63 {
      StrtodOfNumeral(n);
      NumberEndOfRun(c, p, |t|, 63);
      assert c[p..p + |t|] == t;
    }
  }
}
