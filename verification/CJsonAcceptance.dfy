/** What the parser makes of every text: one that is readable and nests no deeper than the limit parses to the value
    it stands for, and every other is rejected. */
module CJsonAcceptance {
  import opened Collections
  import opened CJsonTree
  import opened CJsonText
  import opened CJsonGrammar
  import opened CJsonLayout
  import opened CJsonUnicode
  import opened CJsonLiterals
  import opened CJsonSyntax
  import opened CJsonTokens

  /** A parse that succeeds with v exactly if ok. */
  ghost predicate Yields<T>(r: Parsed<T>, ok: bool, v: T, next: nat) {
    if ok then r == Done(v, next) else r.Failed?
  }

  /** A parse that succeeds with v if ok, and otherwise fails at once or stops in the middle of a number. */
  ghost predicate YieldsOrSticks<T>(c: Bytes, r: Parsed<T>, ok: bool, v: T, next: nat) {
    if ok then r == Done(v, next) else Stuck(c, r)
  }

  /** A byte that opens a value or a key: ASCII above the blanks, and neither closing bracket. */
  predicate Opens(b: Byte) { 32 < b < 128 && b != 93 && b != 125 }

  lemma RenderOpens(d: Doc)
    requires WellFormed(d)
    ensures |Render(d)| > 0 && Opens(Render(d)[0])
  {
    hide ElementsText, EntriesText, CharsText, NumeralText;
    if d.NumberDoc? {
      NumeralBytes(d.numeral);
    }
  }

  lemma LeafParses(d: Doc, c: Bytes, p: nat, depth: int)
    requires WellFormed(d) && Terminated(c) && !d.ArrayDoc? && !d.ObjectDoc? && depth <= NESTING_LIMIT
    requires At(c, p, Render(d)) && p + |Render(d)| < |c| && !NumberByte(c[p + |Render(d)|])
    ensures YieldsOrSticks(c, ParseValue(c, p, depth), Accepted(d, depth), ValueOf(d), p + |Render(d)|)
    ensures !Accepted(d, depth) && !d.NumberDoc? ==> ParseValue(c, p, depth).Failed?
  {
    hide CJsonGrammar.ParseString, CJsonGrammar.ParseNumber, CJsonGrammar.Terminated, Quoted, NumeralText, NumeralValue;
    hide WellPaired, CharsBytes;
    RenderOpens(d);
    AtByte(c, p, Render(d), 0);
    match d
    case StringDoc(chs) =>
      QuoteOpens(chs);
      StringParses(c, p, chs);
    case NumberDoc(n) =>
      NumeralBytes(n);
      NumberParses(c, p, n);
    case _ =>
  }

  lemma QuoteOpens(chs: seq<Char>)
    ensures |Quoted(chs)| > 0 && Quoted(chs)[0] == QUOTE
  {
  }

  /** What follows a value: blanks, then a comma or a closing bracket. */
  lemma AfterValue(c: Bytes, q: nat, after: Bytes, b: Byte)
    requires At(c, q, after + [b]) && Blank(after) && (b == COMMA || b == 93 || b == 125)
    ensures q + |after| < |c| && !NumberByte(c[q]) && SkipWhitespace(c, q) == q + |after| && c[q + |after|] == b
  {
    AtConcat(c, q, after, [b]);
    AtByte(c, q + |after|, [b], 0);
    SkipBlank(c, q, after);
  }

  lemma {:induction false} ValueParses(d: Doc, c: Bytes, p: nat, depth: int)
    requires WellFormed(d) && Terminated(c) && depth <= NESTING_LIMIT
    requires At(c, p, Render(d)) && p + |Render(d)| < |c| && !NumberByte(c[p + |Render(d)|])
    ensures YieldsOrSticks(c, ParseValue(c, p, depth), Accepted(d, depth), ValueOf(d), p + |Render(d)|)
    ensures !Accepted(d, depth) && !d.NumberDoc? ==> ParseValue(c, p, depth).Failed?
    decreases d, 1
  {
    hide CJsonGrammar.At, CJsonGrammar.ParseValue, CJsonGrammar.Terminated, ElementsText, EntriesText;
    hide CJsonTree.ItemsHeight, CJsonTree.MembersHeight, NumeralText, NumeralValue, WellPaired, CharsBytes;
    hide Accepted, ElementsAccepted, EntriesAccepted, CJsonGrammar.NumberByte, NumeralOk;
    match d
    case ArrayDoc(blank, es) =>
      AcceptedArray(blank, es, depth);
      ArrayParses(blank, es, c, p, depth);
    case ObjectDoc(blank, es) =>
      AcceptedObject(blank, es, depth);
      ObjectParses(blank, es, c, p, depth);
    case _ => LeafParses(d, c, p, depth);
  }

  lemma AcceptedArray(blank: Bytes, es: seq<Element>, depth: int)
    requires Blank(blank) && ElementsOk(es)
    ensures Accepted(ArrayDoc(blank, es), depth) <==> ElementsAccepted(es, depth + 1)
  {
    hide CJsonTree.ItemsHeight;
  }

  lemma AcceptedObject(blank: Bytes, es: seq<Entry>, depth: int)
    requires Blank(blank) && EntriesOk(es)
    ensures Accepted(ObjectDoc(blank, es), depth) <==> EntriesAccepted(es, depth + 1)
  {
    hide CJsonTree.MembersHeight;
  }

  lemma ElementsSplit(es: seq<Element>, b: Byte, more: Bytes)
    requires es != [] && b == (if |es| == 1 then 93 else COMMA)
    requires more == if |es| == 1 then [] else ElementsText(es[1..])
    ensures ElementsText(es) == es[0].before + (Render(es[0].value) + ((es[0].after + [b]) + more))
  {
    hide Render;
    ConcatAssociates(es[0].after, [b], more);
    assert [b] + more == if |es| == 1 then [93] else [COMMA] + ElementsText(es[1..]);
  }

  /** The elements from p on, the next one standing behind its blanks. */
  lemma ElementLayout(es: seq<Element>, c: Bytes, p: nat)
    requires es != [] && At(c, p, ElementsText(es))
    requires ElementBlanks(es[0]) && WellFormed(es[0].value)
    ensures
      var v := p + |es[0].before|; var q := v + |Render(es[0].value)|; var r := q + |es[0].after|;
      && r < |c| && At(c, v, Render(es[0].value)) && SkipWhitespace(c, p) == v && c[v] != 93 && !NumberByte(c[q])
      && SkipWhitespace(c, q) == r && c[r] == (if |es| == 1 then 93 else COMMA)
      && p + |ElementsText(es)| == r + (if |es| == 1 then 1 else 1 + |ElementsText(es[1..])|)
      && (|es| > 1 ==> At(c, r + 1, ElementsText(es[1..])))
  {
    hide CJsonGrammar.At, Render, ElementsText, CJsonGrammar.SkipWhitespace, Blank;
    var e, t := es[0], Render(es[0].value);
    var b: Byte := if |es| == 1 then 93 else COMMA;
    var more: Bytes := if |es| == 1 then [] else ElementsText(es[1..]);
    ElementsSplit(es, b, more);
    AtThree(c, p, e.before, t, (e.after + [b]) + more);
    var q := p + |e.before| + |t|;
    AtConcat(c, q, e.after + [b], more);
    AfterValue(c, q, e.after, b);
    RenderOpens(e.value);
    AtByte(c, p + |e.before|, t, 0);
    SkipBlank(c, p, e.before);
  }

  ghost predicate ElementsOk(es: seq<Element>) {
    forall i :: 0 <= i < |es| ==> ElementBlanks(es[i]) && WellFormed(es[i].value)
  }

  ghost predicate ElementsAccepted(es: seq<Element>, depth: int)
    requires ElementsOk(es)
  {
    (forall i :: 0 <= i < |es| ==> Readable(es[i].value)) && depth + ItemsHeight(ElementsValue(es)) <= NESTING_LIMIT
  }

  lemma ElementsAcceptedStep(es: seq<Element>, depth: int)
    requires es != [] && ElementsOk(es)
    ensures ElementsAccepted(es, depth) <==> Accepted(es[0].value, depth) && ElementsAccepted(es[1..], depth)
  {
    hide WellFormed, ValueOf, Readable, ElementBlanks, CJsonTree.Height;
  }

  lemma {:induction false} ArrayParses(blank: Bytes, es: seq<Element>, c: Bytes, p: nat, depth: int)
    requires Blank(blank) && ElementsOk(es) && Terminated(c) && depth <= NESTING_LIMIT
    requires
      var t: Bytes := [91] + if es == [] then blank + [93] else ElementsText(es);
      At(c, p, t) && p + |t| < |c|
    ensures
      var t: Bytes := [91] + if es == [] then blank + [93] else ElementsText(es);
      Yields(ParseValue(c, p, depth), ElementsAccepted(es, depth + 1), Array(ElementsValue(es)), p + |t|)
    decreases es, 1
  {
    hide CJsonGrammar.At, CJsonGrammar.SkipWhitespace, CJsonGrammar.Terminated, ElementsText, WellFormed, ElementBlanks;
    hide CJsonGrammar.ParseItems, CJsonGrammar.ParseMembers, CJsonGrammar.ParseString, CJsonGrammar.ParseNumber;
    hide Render, CJsonTree.Height, Readable;
    var rest: Bytes := if es == [] then blank + [93] else ElementsText(es);
    AtConcat(c, p, [91], rest);
    AtByte(c, p, [91], 0);
    if es == [] {
      AfterValue(c, p + 1, blank, 93);
    } else {
      ElementLayout(es, c, p + 1);
      if depth < NESTING_LIMIT {
        ElementsParse(es, c, p + 1, depth + 1);
      }
    }
  }

  lemma {:induction false} ElementsParse(es: seq<Element>, c: Bytes, p: nat, depth: int)
    requires es != [] && ElementsOk(es) && Terminated(c) && depth <= NESTING_LIMIT
    requires At(c, p, ElementsText(es)) && p + |ElementsText(es)| < |c|
    ensures p + |es[0].before| < |c|
    ensures Yields(ParseItems(c, p + |es[0].before|, depth), ElementsAccepted(es, depth), ElementsValue(es),
                   p + |ElementsText(es)|)
    decreases es, 0
  {
    hide CJsonGrammar.At, CJsonGrammar.ParseValue, CJsonGrammar.ParseItems, CJsonGrammar.SkipWhitespace;
    hide CJsonGrammar.Terminated, Render, ElementsText, WellFormed, ElementBlanks, ElementsAccepted, Accepted;
    hide YieldsOrSticks, Yields;
    var e, last, rest := es[0], |es| == 1, es[1..];
    ElementLayout(es, c, p);
    ElementsAcceptedStep(es, depth);
    var v := p + |e.before|;
    var q := v + |Render(e.value)|;
    var r := q + |e.after|;
    ValueParses(e.value, c, v, depth);
    if last {
      NoElements(depth);
    } else {
      ElementLayout(rest, c, r + 1);
      ElementsParse(rest, c, r + 1, depth);
    }
    ItemsJoin(ValueOf(e.value), ElementsValue(rest), c, v, q, r, if last then r else r + 1 + |rest[0].before|, depth,
              p + |ElementsText(es)|, Accepted(e.value, depth), ElementsAccepted(rest, depth));
  }

  lemma NoElements(depth: int)
    requires depth <= NESTING_LIMIT
    ensures ElementsAccepted([], depth) && ElementsValue([]) == []
  {
  }

  /** An element and the rest, each parsed as it should be, make up the elements parsed as they should be. */
  lemma ItemsJoin(v: Json, rest: seq<Json>, c: Bytes, p: nat, q: nat, r: nat, u: nat, depth: int, end: nat,
                  first: bool, others: bool)
    requires Terminated(c) && p < |c| && q < |c| && r < |c| && u < |c| && SkipWhitespace(c, q) == r
    requires YieldsOrSticks(c, ParseValue(c, p, depth), first, v, q)
    requires
      if rest == [] then others && c[r] == 93 && r + 1 == end
      else c[r] == COMMA && SkipWhitespace(c, r + 1) == u && Yields(ParseItems(c, u, depth), others, rest, end)
    ensures Yields(ParseItems(c, p, depth), first && others, [v] + rest, end)
  {
    hide CJsonGrammar.ParseValue, CJsonGrammar.SkipWhitespace, CJsonGrammar.Terminated;
    StuckStays(c, ParseValue(c, p, depth));
    assert rest == [] ==> [v] + rest == [v];
  }

  /** In the middle of a number there is no blank to skip, no comma and no bracket. */
  lemma StuckStays<T>(c: Bytes, r: Parsed<T>)
    requires |c| > 0 && (r.Done? ==> r.next < |c|)
    ensures Stuck(c, r) && r.Done? ==>
      SkipWhitespace(c, r.next) == r.next && c[r.next] > 32 && c[r.next] != COMMA && c[r.next] != 93 && c[r.next] != 125
  {
  }

  ghost predicate EntriesOk(es: seq<Entry>) {
    forall i :: 0 <= i < |es| ==> EntryBlanks(es[i]) && CharsOk(es[i].key) && WellFormed(es[i].value)
  }

  /** Key and colon, with the blanks around them. */
  lemma KeyLayout(e: Entry, c: Bytes, k: nat, b: Byte)
    requires EntryBlanks(e) && At(c, k, KeyText(e) + [b]) && b > 32
    ensures
      var q := k + |Quoted(e.key)|; var colon := q + |e.afterKey|; var v := k + |KeyText(e)|;
      && k < |c| && c[k] == QUOTE && At(c, k, Quoted(e.key)) && colon < |c| && c[colon] == COLON && v < |c|
      && SkipWhitespace(c, q) == colon && SkipWhitespace(c, colon + 1) == v
  {
    hide CJsonGrammar.At, CJsonGrammar.SkipWhitespace, Blank, Quoted;
    var q := k + |Quoted(e.key)|;
    var colon := q + |e.afterKey|;
    QuoteOpens(e.key);
    AtConcat(c, k, KeyText(e), [b]);
    AtConcat(c, k, Quoted(e.key), e.afterKey + ([COLON] + e.beforeValue));
    AtThree(c, q, e.afterKey, [COLON], e.beforeValue);
    AtByte(c, k, Quoted(e.key), 0);
    AtByte(c, colon, [COLON], 0);
    AtByte(c, k + |KeyText(e)|, [b], 0);
    SkipBlank(c, q, e.afterKey);
    SkipBlank(c, colon + 1, e.beforeValue);
  }

  lemma EntriesSplit(es: seq<Entry>, b: Byte, more: Bytes)
    requires es != [] && b == (if |es| == 1 then 125 else COMMA)
    requires more == if |es| == 1 then [] else EntriesText(es[1..])
    ensures EntriesText(es)
         == es[0].before + (KeyText(es[0]) + (Render(es[0].value) + ((es[0].after + [b]) + more)))
  {
    hide Render, KeyText;
    ConcatAssociates(es[0].after, [b], more);
    assert [b] + more == if |es| == 1 then [125] else [COMMA] + EntriesText(es[1..]);
  }

  /** The members from p on, the next one standing behind its blanks. */
  lemma EntryLayout(es: seq<Entry>, c: Bytes, p: nat)
    requires es != [] && At(c, p, EntriesText(es)) && EntryBlanks(es[0]) && WellFormed(es[0].value)
    ensures
      var e := es[0]; var k := p + |e.before|; var v := k + |KeyText(e)|; var q := v + |Render(e.value)|;
      var r := q + |e.after|;
      && r < |c| && At(c, k, KeyText(e) + [Render(e.value)[0]]) && At(c, v, Render(e.value)) && !NumberByte(c[q])
      && SkipWhitespace(c, p) == k && c[k] == QUOTE
      && SkipWhitespace(c, q) == r && c[r] == (if |es| == 1 then 125 else COMMA)
      && p + |EntriesText(es)| == r + (if |es| == 1 then 1 else 1 + |EntriesText(es[1..])|)
      && (|es| > 1 ==> At(c, r + 1, EntriesText(es[1..])))
  {
    hide CJsonGrammar.At, Render, EntriesText, CJsonGrammar.SkipWhitespace, Blank, KeyText;
    var e, t := es[0], Render(es[0].value);
    var b: Byte := if |es| == 1 then 125 else COMMA;
    var more: Bytes := if |es| == 1 then [] else EntriesText(es[1..]);
    EntriesSplit(es, b, more);
    var k := p + |e.before|;
    var v := k + |KeyText(e)|;
    AtThree(c, p, e.before, KeyText(e), t + ((e.after + [b]) + more));
    AtConcat(c, v, t, (e.after + [b]) + more);
    AtConcat(c, v + |t|, e.after + [b], more);
    AfterValue(c, v + |t|, e.after, b);
    RenderOpens(e.value);
    assert t == [t[0]] + t[1..];
    AtConcat(c, v, [t[0]], t[1..]);
    AtConcat(c, k, KeyText(e), [t[0]]);
    KeyLayout(e, c, k, t[0]);
    SkipBlank(c, p, e.before);
  }

  ghost predicate EntriesAccepted(es: seq<Entry>, depth: int)
    requires EntriesOk(es)
  {
    && (forall i :: 0 <= i < |es| ==> WellPaired(es[i].key) && Readable(es[i].value))
    && depth + MembersHeight(EntriesValue(es)) <= NESTING_LIMIT
  }

  lemma EntriesAcceptedStep(es: seq<Entry>, depth: int)
    requires es != [] && EntriesOk(es)
    ensures EntriesAccepted(es, depth)
       <==> WellPaired(es[0].key) && Accepted(es[0].value, depth) && EntriesAccepted(es[1..], depth)
  {
    hide WellFormed, ValueOf, Readable, EntryBlanks, CharsOk, WellPaired, CharsBytes, CJsonTree.Height;
  }

  lemma {:induction false} ObjectParses(blank: Bytes, es: seq<Entry>, c: Bytes, p: nat, depth: int)
    requires Blank(blank) && EntriesOk(es) && Terminated(c) && depth <= NESTING_LIMIT
    requires
      var t: Bytes := [123] + if es == [] then blank + [125] else EntriesText(es);
      At(c, p, t) && p + |t| < |c|
    ensures
      var t: Bytes := [123] + if es == [] then blank + [125] else EntriesText(es);
      Yields(ParseValue(c, p, depth), EntriesAccepted(es, depth + 1), Object(EntriesValue(es)), p + |t|)
    decreases es, 1
  {
    hide CJsonGrammar.At, CJsonGrammar.SkipWhitespace, CJsonGrammar.Terminated, EntriesText, WellFormed;
    hide CJsonGrammar.ParseItems, CJsonGrammar.ParseMembers, CJsonGrammar.ParseString, CJsonGrammar.ParseNumber;
    hide Render, KeyText, CharsOk, EntryBlanks, CJsonTree.Height, Readable, WellPaired;
    var rest: Bytes := if es == [] then blank + [125] else EntriesText(es);
    AtConcat(c, p, [123], rest);
    AtByte(c, p, [123], 0);
    if es == [] {
      AfterValue(c, p + 1, blank, 125);
    } else {
      EntryLayout(es, c, p + 1);
      if depth < NESTING_LIMIT {
        EntriesParse(es, c, p + 1, depth + 1);
      }
    }
  }

  lemma {:induction false} EntryParses(e: Entry, c: Bytes, k: nat, depth: int)
    requires EntryBlanks(e) && CharsOk(e.key) && WellFormed(e.value) && Terminated(c) && depth <= NESTING_LIMIT
    requires |Render(e.value)| > 0 && Render(e.value)[0] > 32 && At(c, k, KeyText(e) + [Render(e.value)[0]])
    requires var v := k + |KeyText(e)|; var q := v + |Render(e.value)|;
      At(c, v, Render(e.value)) && q < |c| && !NumberByte(c[q])
    ensures k < |c|
    ensures YieldsOrSticks(c, ParseMember(c, k, depth), WellPaired(e.key) && Accepted(e.value, depth),
                           Member(CharsBytes(e.key), ValueOf(e.value)), k + |KeyText(e)| + |Render(e.value)|)
    decreases e, 2
  {
    hide CJsonGrammar.At, CJsonGrammar.SkipWhitespace, CJsonGrammar.Terminated, CJsonGrammar.ParseValue;
    hide CJsonGrammar.ParseString, CJsonGrammar.NumberByte, Accepted;
    hide Render, KeyText, Quoted, WellFormed, CharsOk, EntryBlanks, CharsBytes, WellPaired;
    KeyLayout(e, c, k, Render(e.value)[0]);
    StringParses(c, k, e.key);
    ValueParses(e.value, c, k + |KeyText(e)|, depth);
  }

  lemma {:induction false} EntriesParse(es: seq<Entry>, c: Bytes, p: nat, depth: int)
    requires es != [] && EntriesOk(es) && Terminated(c) && depth <= NESTING_LIMIT
    requires At(c, p, EntriesText(es)) && p + |EntriesText(es)| < |c|
    ensures p + |es[0].before| < |c|
    ensures Yields(ParseMembers(c, p + |es[0].before|, depth), EntriesAccepted(es, depth), EntriesValue(es),
                   p + |EntriesText(es)|)
    decreases es, 0
  {
    hide CJsonGrammar.At, CJsonGrammar.ParseMember, CJsonGrammar.ParseMembers, CJsonGrammar.SkipWhitespace;
    hide CJsonGrammar.Terminated, Render, KeyText, EntriesText, WellFormed, CharsOk, EntryBlanks, CharsBytes;
    hide EntriesAccepted, Accepted, WellPaired, YieldsOrSticks, Yields;
    var e, last, rest := es[0], |es| == 1, es[1..];
    EntryLayout(es, c, p);
    EntriesAcceptedStep(es, depth);
    RenderOpens(e.value);
    var k := p + |e.before|;
    var q := k + |KeyText(e)| + |Render(e.value)|;
    var r := q + |e.after|;
    EntryParses(e, c, k, depth);
    if last {
      NoEntries(depth);
    } else {
      EntryLayout(rest, c, r + 1);
      EntriesParse(rest, c, r + 1, depth);
    }
    MembersJoin(Member(CharsBytes(e.key), ValueOf(e.value)), EntriesValue(rest), c, k, q, r,
                if last then r else r + 1 + |rest[0].before|, depth, p + |EntriesText(es)|,
                WellPaired(e.key) && Accepted(e.value, depth), EntriesAccepted(rest, depth));
  }

  lemma NoEntries(depth: int)
    requires depth <= NESTING_LIMIT
    ensures EntriesAccepted([], depth) && EntriesValue([]) == []
  {
  }

  /** A member and the rest, each parsed as it should be, make up the members parsed as they should be. */
  lemma MembersJoin(m: Member, rest: seq<Member>, c: Bytes, k: nat, q: nat, r: nat, u: nat, depth: int, end: nat,
                    first: bool, others: bool)
    requires Terminated(c) && k < |c| && q < |c| && r < |c| && u < |c| && SkipWhitespace(c, q) == r
    requires YieldsOrSticks(c, ParseMember(c, k, depth), first, m, q)
    requires
      if rest == [] then others && c[r] == 125 && r + 1 == end
      else c[r] == COMMA && SkipWhitespace(c, r + 1) == u && Yields(ParseMembers(c, u, depth), others, rest, end)
    ensures Yields(ParseMembers(c, k, depth), first && others, [m] + rest, end)
  {
    hide CJsonGrammar.ParseMember, CJsonGrammar.SkipWhitespace, CJsonGrammar.Terminated;
    StuckStays(c, ParseMember(c, k, depth));
    assert rest == [] ==> [m] + rest == [m];
  }

  // ---------- whole texts ----------

  lemma NulFreeConcat(a: Bytes, b: Bytes)
    ensures NulFree(a + b) <==> NulFree(a) && NulFree(b)
  {
    assert forall i :: 0 <= i < |a| ==> (a + b)[i] == a[i];
    if NulFree(a + b) {
      forall i | 0 <= i < |b| ensures b[i] != 0 {
        assert (a + b)[|a| + i] == b[i];
      }
    }
  }

  lemma BlankNulFree(w: Bytes)
    requires Blank(w)
    ensures NulFree(w)
  {
  }

  lemma CharNulFree(ch: Char)
    requires CharOk(ch)
    ensures NulFree(CharText(ch))
  {
    hide CJsonGrammar.Hex4;
  }

  lemma {:induction false} CharsNulFree(chs: seq<Char>)
    requires Reads(chs)
    ensures NulFree(CharsText(chs)) && NulFree(Quoted(chs))
    decreases |chs|
  {
    hide CharText, CharOk, CJsonTree.NulFree;
    if chs != [] {
      CharNulFree(chs[0]);
      CharsNulFree(chs[1..]);
      NulFreeConcat(CharText(chs[0]), CharsText(chs[1..]));
    } else {
      NothingNulFree();
    }
    SomeNulFree(QUOTE);
    NulFreeConcat(CharsText(chs), [QUOTE]);
    NulFreeConcat([QUOTE], CharsText(chs) + [QUOTE]);
  }

  lemma QuotedNulFree(chs: seq<Char>)
    requires CharsOk(chs)
    ensures NulFree(Quoted(chs))
  {
    hide Quoted, Tokenised;
    CharsNulFree(chs);
  }

  lemma NothingNulFree()
    ensures NulFree([])
  {
  }

  lemma SomeNulFree(b: Byte)
    ensures NulFree([b]) <==> b != 0
  {
    assert [b][0] == b;
  }

  lemma {:induction false} RenderNulFree(d: Doc)
    requires WellFormed(d)
    ensures NulFree(Render(d))
    decreases d, 1
  {
    hide ElementsText, EntriesText, Quoted, NumeralText, NumeralOk, CharsOk;
    match d
    case NumberDoc(n) =>
      NumeralBytes(n);
    case StringDoc(chs) =>
      QuotedNulFree(chs);
    case ArrayDoc(blank, es) =>
      if es == [] {
        BlankNulFree(blank);
      } else {
        ElementsNulFree(es);
      }
    case ObjectDoc(blank, es) =>
      if es == [] {
        BlankNulFree(blank);
      } else {
        EntriesNulFree(es);
      }
    case _ =>
  }

  lemma {:induction false} ElementsNulFree(es: seq<Element>)
    requires es != [] && ElementsOk(es)
    ensures NulFree(ElementsText(es))
    decreases es, 0
  {
    hide Render, WellFormed, Blank, CJsonTree.NulFree;
    var e := es[0];
    var more: Bytes := if |es| == 1 then [93] else [COMMA] + ElementsText(es[1..]);
    BlankNulFree(e.before);
    RenderNulFree(e.value);
    BlankNulFree(e.after);
    SomeNulFree(93);
    SomeNulFree(COMMA);
    if |es| > 1 {
      ElementsNulFree(es[1..]);
      NulFreeConcat([COMMA], ElementsText(es[1..]));
    }
    NulFreeConcat(e.after, more);
    NulFreeConcat(Render(e.value), e.after + more);
    NulFreeConcat(e.before, Render(e.value) + (e.after + more));
  }

  lemma KeyNulFree(e: Entry)
    requires EntryBlanks(e) && CharsOk(e.key)
    ensures NulFree(KeyText(e))
  {
    hide Quoted, Blank, CharsOk, CJsonTree.NulFree;
    QuotedNulFree(e.key);
    BlankNulFree(e.afterKey);
    BlankNulFree(e.beforeValue);
    SomeNulFree(COLON);
    NulFreeConcat([COLON], e.beforeValue);
    NulFreeConcat(e.afterKey, [COLON] + e.beforeValue);
    NulFreeConcat(Quoted(e.key), e.afterKey + ([COLON] + e.beforeValue));
  }

  lemma {:induction false} EntriesNulFree(es: seq<Entry>)
    requires es != [] && EntriesOk(es)
    ensures NulFree(EntriesText(es))
    decreases es, 0
  {
    hide Render, KeyText, WellFormed, Blank, CharsOk, CJsonTree.NulFree;
    var e := es[0];
    var more: Bytes := if |es| == 1 then [125] else [COMMA] + EntriesText(es[1..]);
    BlankNulFree(e.before);
    KeyNulFree(e);
    RenderNulFree(e.value);
    BlankNulFree(e.after);
    SomeNulFree(125);
    SomeNulFree(COMMA);
    if |es| > 1 {
      EntriesNulFree(es[1..]);
      NulFreeConcat([COMMA], EntriesText(es[1..]));
    }
    NulFreeConcat(e.after, more);
    NulFreeConcat(Render(e.value), e.after + more);
    NulFreeConcat(KeyText(e), Render(e.value) + (e.after + more));
    NulFreeConcat(e.before, KeyText(e) + (Render(e.value) + (e.after + more)));
  }

  lemma DocumentNulFree(bom: bool, before: Bytes, d: Doc, after: Bytes)
    requires Blank(before) && WellFormed(d) && Blank(after)
    ensures NulFree(DocumentText(bom, before, d, after))
  {
    hide Render, WellFormed, CJsonTree.NulFree, Blank;
    BlankNulFree(before);
    BlankNulFree(after);
    RenderNulFree(d);
    NothingNulFree();
    BomNulFree();
    NulFreeConcat(Render(d), after);
    NulFreeConcat(before, Render(d) + after);
    NulFreeConcat(Lead(bom), before + (Render(d) + after));
  }

  lemma BomNulFree()
    ensures NulFree(BOM)
  {
  }

  lemma TerminatedText(text: Bytes)
    requires NulFree(text)
    ensures Terminated(text + [0])
  {
  }

  /** Where the parser starts: behind the byte order mark, if there is one. */
  lemma BomIsSkipped(bom: bool, before: Bytes, d: Doc, after: Bytes)
    requires Blank(before) && WellFormed(d)
    ensures SkipBom(DocumentText(bom, before, d, after) + [0]) == if bom then 3 else 0
  {
    hide Render, WellFormed;
    RenderOpens(d);
    var c := DocumentText(bom, before, d, after) + [0];
    if bom {
      assert c == BOM + (before + (Render(d) + after) + [0]);
    } else {
      assert c == before + (Render(d) + (after + [0]));
      assert c[0] == if before == [] then Render(d)[0] else before[0];
    }
  }

  lemma DocumentParts(bom: bool, before: Bytes, d: Doc, after: Bytes)
    ensures
      var c := DocumentText(bom, before, d, after) + [0];
      && At(c, 0, Lead(bom) + (before + (Render(d) + (after + [0]))))
      && |c| == |Lead(bom)| + |before| + |Render(d)| + |after| + 1 && |Lead(bom)| == (if bom then 3 else 0)
  {
    hide Render, CJsonGrammar.At;
    Reassociated(Lead(bom), before, Render(d), after);
    AtSelf(DocumentText(bom, before, d, after) + [0]);
  }

  /** Where the value of a text lies in the parser's buffer, and what is around it. */
  lemma PartsLayout(lead: Bytes, before: Bytes, t: Bytes, after: Bytes, c: Bytes)
    requires Blank(before) && Blank(after) && |t| > 0 && t[0] > 32
    requires At(c, 0, lead + (before + (t + (after + [0])))) && |c| == |lead| + |before| + |t| + |after| + 1
    ensures
      var p := |lead| + |before|; var q := p + |t|;
      && |lead| < |c| && SkipWhitespace(c, |lead|) == p && At(c, p, t)
      && q + |after| + 1 == |c| && !NumberByte(c[q]) && SkipWhitespace(c, q) == q + |after| && c[q + |after|] == 0
  {
    hide Blank, CJsonGrammar.At, CJsonGrammar.SkipWhitespace, CJsonGrammar.NumberByte;
    var p := |lead|;
    AtConcat(c, 0, lead, before + (t + (after + [0])));
    AtThree(c, p, before, t, after + [0]);
    AtByte(c, p + |before|, t, 0);
    SkipBlank(c, p, before);
    AfterText(c, p + |before| + |t|, after);
  }

  lemma ConcatAssociates(a: Bytes, b: Bytes, d: Bytes)
    ensures a + b + d == a + (b + d)
  {
  }

  lemma Reassociated(lead: Bytes, before: Bytes, t: Bytes, after: Bytes)
    ensures lead + (before + (t + after)) + [0] == lead + (before + (t + (after + [0])))
  {
    ConcatAssociates(lead, before + (t + after), [0]);
    ConcatAssociates(before, t + after, [0]);
    ConcatAssociates(t, after, [0]);
  }

  lemma AtSelf(c: Bytes)
    ensures At(c, 0, c)
  {
  }

  /** Every text is parsed to the value it stands for if it is readable and nests at most 1000 containers, and is
      rejected otherwise. With the terminator required the parse ends at it, and without directly behind the value;
      only a number that is too long is then taken in part. */
  lemma TextParses(bom: bool, before: Bytes, d: Doc, after: Bytes)
    requires Blank(before) && WellFormed(d) && Blank(after)
    ensures NulFree(DocumentText(bom, before, d, after))
    ensures
      var text := DocumentText(bom, before, d, after);
      && Yields(ParseText(text, true), Accepted(d, 0), ValueOf(d), |text|)
      && (Accepted(d, 0) ==> ParseText(text, false) == Done(ValueOf(d), |text| - |after|))
      && (!Accepted(d, 0) && !d.NumberDoc? ==> ParseText(text, false).Failed?)
  {
    hide DocumentText, Render, WellFormed, Blank, CJsonGrammar.At, CJsonGrammar.ParseValue, CJsonGrammar.SkipWhitespace;
    hide CJsonGrammar.SkipBom, CJsonGrammar.Terminated, CJsonGrammar.NumberByte, Stuck, Accepted;
    hide CJsonTree.NulFree, CJsonTree.Height, Lead;
    var text := DocumentText(bom, before, d, after);
    var c, p := text + [0], |Lead(bom)| + |before|;
    DocumentNulFree(bom, before, d, after);
    TerminatedText(text);
    DocumentParts(bom, before, d, after);
    BomIsSkipped(bom, before, d, after);
    RenderOpens(d);
    PartsLayout(Lead(bom), before, Render(d), after, c);
    ValueParses(d, c, p, 0);
    StuckStays(c, ParseValue(c, p, 0));
  }

  /** The texts of RFC 8259 are texts in this sense. */
  lemma {:induction false} StrictIsWellFormed(d: Doc)
    requires Strict(d)
    ensures WellFormed(d)
  {
    hide CharsOk, StrictChars;
    match d
    case StringDoc(chs) => StrictCharsOk(chs);
    case ArrayDoc(_, es) =>
      forall i | 0 <= i < |es| ensures WellFormed(es[i].value) {
        StrictIsWellFormed(es[i].value);
      }
    case ObjectDoc(_, es) =>
      forall i | 0 <= i < |es| ensures CharsOk(es[i].key) && WellFormed(es[i].value) {
        StrictCharsOk(es[i].key);
        StrictIsWellFormed(es[i].value);
      }
    case _ =>
  }

  /** A text of RFC 8259 is accepted, with the value it stands for, if and only if its numbers have at most 63 bytes
      each, no unit in its strings is an unpaired surrogate, and it nests at most 1000 containers. */
  lemma StrictTextParses(bom: bool, before: Bytes, d: Doc, after: Bytes)
    requires Blank(before) && Strict(d) && Blank(after)
    ensures WellFormed(d) && NulFree(DocumentText(bom, before, d, after))
    ensures
      var text := DocumentText(bom, before, d, after);
      Yields(ParseText(text, true), Readable(d) && Height(ValueOf(d)) <= NESTING_LIMIT, ValueOf(d), |text|)
  {
    hide DocumentText, Strict, WellFormed, Blank, CJsonGrammar.ParseText, Readable, CJsonTree.Height;
    StrictIsWellFormed(d);
    TextParses(bom, before, d, after);
  }

  /** The text `"\uDEAD"`, an example of section 8.2 of RFC 8259: a text of that standard that is refused. */
  lemma LoneSurrogateTextIsRefused()
    ensures
      var d := StringDoc([Unit([92, 117, 68, 69, 65, 68], 0xDEAD)]);
      Strict(d) && Render(d) == [34, 92, 117, 68, 69, 65, 68, 34] && NulFree(Render(d))
      && ParseText(Render(d), true).Failed? && ParseText(Render(d), false).Failed?
  {
    hide CJsonGrammar.ParseText, StrictChars, StrictChar, CJsonGrammar.Hex4, WellPaired, Quoted, CharsText;
    var u := Unit([92, 117, 68, 69, 65, 68], 0xDEAD);
    var d := StringDoc([u]);
    LoneUnit(u);
    StrictIsWellFormed(d);
    TextParses(false, [], d, []);
    NothingAround(d);
  }

  /** A string of one unit with code 0 is accepted as U+0000, whatever stands for the four digits: `"\u0000"`, and
      `"\uZZZZ"`, which is no text of RFC 8259. */
  lemma ZeroUnitIsAccepted(digits: Bytes)
    requires |digits| == 4 && forall i :: 0 <= i < 4 ==> digits[i] != 0 && digits[i] != QUOTE && digits[i] != BACKSLASH
    requires Hex4(digits, 0) == 0
    ensures
      var text := [QUOTE] + ([BACKSLASH, 117] + digits + [QUOTE]);
      NulFree(text) && ParseText(text, true) == Done(String([0]), 8)
  {
    hide CJsonGrammar.ParseText, CJsonGrammar.Hex4, WellFormed, ValueOf, Render, CJsonTree.NulFree;
    var u := Unit([BACKSLASH, 117] + digits, 0);
    var d := StringDoc([u]);
    ZeroUnit(u, digits);
    NothingAround(d);
    TextParses(false, [], d, []);
  }

  lemma ZeroUnit(u: Char, digits: Bytes)
    requires |digits| == 4 && forall i :: 0 <= i < 4 ==> digits[i] != 0 && digits[i] != QUOTE && digits[i] != BACKSLASH
    requires Hex4(digits, 0) == 0 && u == Unit([BACKSLASH, 117] + digits, 0)
    ensures
      var d := StringDoc([u]);
      && Render(d) == [QUOTE] + ([BACKSLASH, 117] + digits + [QUOTE]) && |Render(d)| == 8
      && WellFormed(d) && Accepted(d, 0) && ValueOf(d) == String([0])
  {
    var t := u.text;
    assert t[0] == BACKSLASH && t[1] == 117 && t[2] == digits[0] && t[3] == digits[1];
    assert t[4] == digits[2] && t[5] == digits[3];
    assert [u][1..] == [];
    assert CharsText([u]) == t;
    assert t[2..] == digits;
    assert digits + [] == digits;
    PlainThenTokenised(digits, []);
    assert CharsBytes([u]) == Utf8(0) + CharsBytes([]);
  }

  lemma LoneUnit(u: Char)
    requires u == Unit([92, 117, 68, 69, 65, 68], 0xDEAD)
    ensures StrictChars([u]) && !WellPaired([u]) && Quoted([u]) == [34, 92, 117, 68, 69, 65, 68, 34]
  {
    assert Hex4(u.text, 2) == 0xDEAD;
    assert CharsText([u][1..]) == [];
  }

  lemma NothingAround(d: Doc)
    ensures Blank([]) && DocumentText(false, [], d, []) == Render(d)
  {
  }

  lemma AfterText(c: Bytes, q: nat, after: Bytes)
    requires At(c, q, after + [0]) && Blank(after) && q + |after| + 1 == |c|
    ensures !NumberByte(c[q]) && SkipWhitespace(c, q) == q + |after| && c[q + |after|] == 0
  {
    AtConcat(c, q, after, [0]);
    AtByte(c, q + |after|, [0], 0);
    SkipToEnd(c, q, after);
  }

  lemma {:induction false} SkipToEnd(c: Bytes, p: nat, w: Bytes)
    requires At(c, p, w) && Blank(w) && p + |w| + 1 == |c| && c[p + |w|] == 0
    ensures SkipWhitespace(c, p) == p + |w|
    decreases |w|
  {
    if w != [] {
      AtTail(c, p, w);
      SkipToEnd(c, p + 1, w[1..]);
    }
  }
}
