/** What printing looks like: the text as a picture of the tree, and that formatting adds nothing but blanks. */
module CJsonPretty {
  import opened Collections
  import opened CJsonLiterals
  import opened CJsonTree
  import opened CJsonText

  // ---------- the picture ----------

  /** The parts with a separator between them. */
  function Join(parts: seq<Bytes>, separator: Bytes): Bytes {
    if parts == [] then []
    else if |parts| == 1 then parts[0]
    else parts[0] + separator + Join(parts[1..], separator)
  }

  function Repeat(b: Byte, n: nat): (r: Bytes)
    ensures |r| == n && forall i :: 0 <= i < n ==> r[i] == b
  {
    seq(n, _ => b)
  }

  /** A byte inside a string: the seven short escapes, a control character in lower-case hexadecimal, or itself. */
  function Shown(b: Byte): Bytes {
    if b == 34 then Ascii("\\\"")
    else if b == 92 then Ascii("\\\\")
    else if b == 8 then Ascii("\\b")
    else if b == 9 then Ascii("\\t")
    else if b == 10 then Ascii("\\n")
    else if b == 12 then Ascii("\\f")
    else if b == 13 then Ascii("\\r")
    else if b < 32 then Ascii("\\u00") + [LOWER[b / 16] as int, LOWER[b % 16] as int]
    else [b]
  }

  function ShownAll(s: Bytes): Bytes {
    if s == [] then [] else Shown(s[0]) + ShownAll(s[1..])
  }

  function Quote(s: Bytes): Bytes {
    Ascii("\"") + ShownAll(s) + Ascii("\"")
  }

  /** Arrays on one line; objects, when formatting, with a line for each member, one tab deeper than their braces. */
  function Picture(v: Json, fmt: bool, depth: nat): Bytes
    decreases v, 1
  {
    match v
    case Null => Ascii("null")
    case False => Ascii("false")
    case True => Ascii("true")
    case Number(r) => NumberText(r.Floor)
    case String(s) => Quote(s)
    case Array(items) =>
      Ascii("[") + Join(Pictures(items, fmt, depth + 1), if fmt then Ascii(", ") else Ascii(",")) + Ascii("]")
    case Object(members) =>
      var lines := Lines(members, fmt, depth + 1);
      if !fmt then Ascii("{") + Join(lines, Ascii(",")) + Ascii("}")
      else if lines == [] then Ascii("{\n") + Repeat(9, depth) + Ascii("}")
      else Ascii("{\n") + Join(lines, Ascii(",\n")) + Ascii("\n") + Repeat(9, depth) + Ascii("}")
  }

  function Pictures(items: seq<Json>, fmt: bool, depth: nat): (r: seq<Bytes>)
    ensures |r| == |items| && forall i :: 0 <= i < |items| ==> r[i] == Picture(items[i], fmt, depth)
    decreases items, 0
  {
    if items == [] then [] else [Picture(items[0], fmt, depth)] + Pictures(items[1..], fmt, depth)
  }

  function Lines(members: seq<Member>, fmt: bool, depth: nat): (r: seq<Bytes>)
    ensures |r| == |members|
    ensures forall i :: 0 <= i < |members| ==>
      r[i] == Line(members[i].key, Picture(members[i].value, fmt, depth), fmt, depth)
    decreases members, 0
  {
    if members == [] then []
    else [Line(members[0].key, Picture(members[0].value, fmt, depth), fmt, depth)] + Lines(members[1..], fmt, depth)
  }

  /** A member: its key, a colon, and its value; when formatting, behind tabs and with a tab in between. */
  function Line(key: Bytes, value: Bytes, fmt: bool, depth: nat): Bytes {
    if fmt then Repeat(9, depth) + Quote(key) + Ascii(":\t") + value else Quote(key) + Ascii(":") + value
  }

  // ---------- the text is that picture ----------

  lemma Spelled()
    ensures Ascii("\"") == [QUOTE] && Ascii(",") == [COMMA] && Ascii(", ") == [COMMA, SPACE]
    ensures Ascii("[") == [91] && Ascii("]") == [93] && Ascii("{") == [123] && Ascii("}") == [125]
    ensures Ascii("{\n") == [123, NEWLINE] && Ascii("\n") == [NEWLINE] && Ascii(",\n") == [COMMA, NEWLINE]
    ensures Ascii(":") == [COLON] && Ascii(":\t") == [COLON, TAB]
    ensures NULL_TEXT == Ascii("null") && FALSE_TEXT == Ascii("false") && TRUE_TEXT == Ascii("true")
  {
  }

  lemma ShownIs(b: Byte)
    ensures Shown(b) == EscapeByte(b)
  {
    if b < 32 {
      LowerIs(b / 16);
      LowerIs(b % 16);
      assert Ascii("\\u00") == [92, 117, 48, 48];
    }
  }

  lemma LowerIs(v: nat)
    requires v < 16
    ensures LOWER[v] as int == HexDigit(v)
  {
    assert LOWER[0] == '0' && LOWER[1] == '1' && LOWER[2] == '2' && LOWER[3] == '3' && LOWER[4] == '4';
    assert LOWER[5] == '5' && LOWER[6] == '6' && LOWER[7] == '7' && LOWER[8] == '8' && LOWER[9] == '9';
    assert LOWER[10] == 'a' && LOWER[11] == 'b' && LOWER[12] == 'c' && LOWER[13] == 'd';
    assert LOWER[14] == 'e' && LOWER[15] == 'f';
  }

  lemma {:induction false} ShownAllIs(s: Bytes)
    ensures ShownAll(s) == Escape(s)
    decreases |s|
  {
    hide Shown, CJsonText.EscapeByte;
    if s != [] {
      ShownIs(s[0]);
      ShownAllIs(s[1..]);
    }
  }

  lemma QuoteIs(s: Bytes)
    ensures Quote(s) == StringText(s)
  {
    hide ShownAll, CJsonText.Escape;
    ShownAllIs(s);
    Spelled();
    assert [QUOTE] + Escape(s) + [QUOTE] == [QUOTE] + (Escape(s) + [QUOTE]);
  }

  lemma RepeatIs(n: nat)
    ensures Repeat(9, n) == Tabs(n)
  {
  }

  /** The printer's text, piece by piece from the left, is the picture. */
  lemma {:induction false} TextIsPicture(v: Json, fmt: bool, depth: nat)
    ensures Text(v, fmt, depth) == Picture(v, fmt, depth)
    decreases v, 1
  {
    hide CJsonText.ItemsText, CJsonText.MembersText, Pictures, Lines, Join, Quote, CJsonText.StringText;
    hide CJsonText.NumberText, CJsonText.Indent;
    Spelled();
    match v
    case String(s) => QuoteIs(s);
    case Array(items) =>
      ItemsPicture(items, fmt, depth + 1);
      var inner := Join(Pictures(items, fmt, depth + 1), if fmt then Ascii(", ") else Ascii(","));
      assert [91] + inner + [93] == [91] + (inner + [93]);
    case Object(members) =>
      MembersPicture(members, fmt, depth + 1);
      BracesAround(Lines(members, fmt, depth + 1), fmt, depth);
    case _ =>
  }

  /** Members and the closing brace, as the loop writes them. */
  function Closed(lines: seq<Bytes>, fmt: bool, depth: nat): Bytes {
    if lines == [] then Indent(fmt, depth) + [125]
    else lines[0] + MemberEnd(|lines| == 1, fmt) + Closed(lines[1..], fmt, depth)
  }

  lemma {:induction false} ClosedIsJoin(lines: seq<Bytes>, fmt: bool, depth: nat)
    requires lines != []
    ensures Closed(lines, fmt, depth)
      == Join(lines, if fmt then Ascii(",\n") else Ascii(","))
         + ((if fmt then [NEWLINE] else []) + (Indent(fmt, depth) + [125]))
    decreases |lines|
  {
    hide CJsonText.Indent;
    Spelled();
    if |lines| == 1 {
      assert lines[1..] == [];
    } else {
      ClosedIsJoin(lines[1..], fmt, depth);
    }
  }

  lemma BracesAround(lines: seq<Bytes>, fmt: bool, depth: nat)
    ensures Opening(fmt) + Closed(lines, fmt, depth) ==
      if !fmt then Ascii("{") + Join(lines, Ascii(",")) + Ascii("}")
      else if lines == [] then Ascii("{\n") + Repeat(9, depth) + Ascii("}")
      else Ascii("{\n") + Join(lines, Ascii(",\n")) + Ascii("\n") + Repeat(9, depth) + Ascii("}")
  {
    hide Join, Closed, CJsonText.Indent, Repeat, Ascii;
    Spelled();
    IndentIs(fmt, depth);
    if lines == [] {
      NoLines(fmt, depth);
      assert [123] + [] + [125] == [123] + ([] + [125]);
    } else {
      ClosedIsJoin(lines, fmt, depth);
      var j := Join(lines, if fmt then Ascii(",\n") else Ascii(","));
      assert [123] + (j + ([] + ([] + [125]))) == [123] + j + [125];
      assert [123, NEWLINE] + (j + ([NEWLINE] + (Repeat(9, depth) + [125])))
        == [123, NEWLINE] + j + [NEWLINE] + Repeat(9, depth) + [125];
    }
  }

  lemma NoLines(fmt: bool, depth: nat)
    ensures Closed([], fmt, depth) == Indent(fmt, depth) + [125] && Join([], Ascii(",")) == []
  {
  }

  lemma IndentIs(fmt: bool, depth: nat)
    ensures Indent(fmt, depth) == if fmt then Repeat(9, depth) else []
  {
    RepeatIs(depth);
  }

  lemma {:induction false} ItemsPicture(items: seq<Json>, fmt: bool, depth: nat)
    ensures ItemsText(items, fmt, depth)
      == Join(Pictures(items, fmt, depth), if fmt then Ascii(", ") else Ascii(",")) + [93]
    decreases items, 0
  {
    hide CJsonText.Text, Picture;
    Spelled();
    if items != [] {
      var ps := Pictures(items, fmt, depth);
      TextIsPicture(items[0], fmt, depth);
      ItemsPicture(items[1..], fmt, depth);
      assert ps[1..] == Pictures(items[1..], fmt, depth);
    }
  }

  lemma {:induction false} MembersPicture(members: seq<Member>, fmt: bool, depth: nat)
    requires depth >= 1
    ensures MembersText(members, fmt, depth) == Closed(Lines(members, fmt, depth), fmt, depth - 1)
    decreases members, 0
  {
    hide CJsonText.Text, Picture, Line, CJsonText.MemberText;
    if members != [] {
      var ls := Lines(members, fmt, depth);
      TextIsPicture(members[0].value, fmt, depth);
      MembersPicture(members[1..], fmt, depth);
      LineIs(members[0].key, Picture(members[0].value, fmt, depth), |members| == 1, fmt, depth);
      assert ls[1..] == Lines(members[1..], fmt, depth);
    }
  }

  lemma LineIs(key: Bytes, value: Bytes, last: bool, fmt: bool, depth: nat)
    ensures MemberText(key, value, last, fmt, depth) == Line(key, value, fmt, depth) + MemberEnd(last, fmt)
  {
    hide CJsonText.StringText, Quote, CJsonText.MemberEnd;
    Spelled();
    QuoteIs(key);
    RepeatIs(depth);
    assert [] + (StringText(key) + (AfterKey(fmt) + (value + MemberEnd(last, fmt))))
      == StringText(key) + AfterKey(fmt) + value + MemberEnd(last, fmt);
  }

  // ---------- formatting adds blanks only ----------

  /** A text without its blanks outside strings. */
  function Squeeze(t: Bytes, inside: bool): Bytes
    decreases |t|
  {
    if t == [] then []
    else if inside && t[0] == '\\' as int && |t| >= 2 then t[..2] + Squeeze(t[2..], true)
    else if inside then [t[0]] + Squeeze(t[1..], t[0] != '\"' as int)
    else if t[0] <= ' ' as int then Squeeze(t[1..], false)
    else [t[0]] + Squeeze(t[1..], t[0] == '\"' as int)
  }

  ghost predicate Bare(t: Bytes) {
    forall i :: 0 <= i < |t| ==> t[i] > 32 && t[i] != 34
  }

  lemma {:induction false} BareStays(t: Bytes, rest: Bytes)
    requires Bare(t)
    ensures Squeeze(t + rest, false) == t + Squeeze(rest, false)
    decreases |t|
  {
    if t == [] {
      assert t + rest == rest;
    } else {
      assert (t + rest)[1..] == t[1..] + rest;
      BareStays(t[1..], rest);
      assert t == [t[0]] + t[1..];
    }
  }

  lemma {:induction false} BlanksGo(w: Bytes, rest: Bytes)
    requires forall i :: 0 <= i < |w| ==> w[i] <= 32
    ensures Squeeze(w + rest, false) == Squeeze(rest, false)
    decreases |w|
  {
    if w == [] {
      assert w + rest == rest;
    } else {
      assert (w + rest)[1..] == w[1..] + rest;
      BlanksGo(w[1..], rest);
    }
  }

  /** One escaped byte inside a string stays. */
  lemma ByteStays(b: Byte, rest: Bytes)
    ensures Squeeze(EscapeByte(b) + rest, true) == EscapeByte(b) + Squeeze(rest, true)
  {
    var e := EscapeByte(b);
    if |e| == 1 {
      assert (e + rest)[1..] == rest;
    } else {
      assert (e + rest)[..2] == e[..2] && (e + rest)[2..] == e[2..] + rest;
      if |e| == 6 {
        FourStay(e[2..], rest);
        assert e[..2] + (e[2..] + Squeeze(rest, true)) == e + Squeeze(rest, true);
      } else {
        assert e[2..] + rest == rest && e[..2] == e;
      }
    }
  }

  lemma FourStay(t: Bytes, rest: Bytes)
    requires |t| == 4 && forall i :: 0 <= i < 4 ==> t[i] != 92 && t[i] != 34
    ensures Squeeze(t + rest, true) == t + Squeeze(rest, true)
  {
    hide Squeeze;
    OneStays(t[0], t[1..] + rest);
    OneStays(t[1], t[2..] + rest);
    OneStays(t[2], t[3..] + rest);
    OneStays(t[3], rest);
    assert t + rest == [t[0]] + (t[1..] + rest) && t[1..] + rest == [t[1]] + (t[2..] + rest);
    assert t[2..] + rest == [t[2]] + (t[3..] + rest) && t[3..] + rest == [t[3]] + rest;
    var r := Squeeze(rest, true);
    assert t + r == [t[0]] + ([t[1]] + ([t[2]] + ([t[3]] + r)));
  }

  lemma OneStays(b: Byte, rest: Bytes)
    requires b != 92 && b != 34
    ensures Squeeze([b] + rest, true) == [b] + Squeeze(rest, true)
  {
    assert ([b] + rest)[1..] == rest;
  }

  lemma {:induction false} EscapeStays(s: Bytes, rest: Bytes)
    ensures Squeeze(Escape(s) + rest, true) == Escape(s) + Squeeze(rest, true)
    decreases |s|
  {
    hide Squeeze, CJsonText.EscapeByte;
    if s == [] {
      assert Escape(s) + rest == rest;
    } else {
      assert Escape(s) + rest == EscapeByte(s[0]) + (Escape(s[1..]) + rest);
      ByteStays(s[0], Escape(s[1..]) + rest);
      EscapeStays(s[1..], rest);
    }
  }

  lemma StringStays(s: Bytes, rest: Bytes)
    ensures Squeeze(StringText(s) + rest, false) == StringText(s) + Squeeze(rest, false)
  {
    hide CJsonText.Escape;
    var e := Escape(s);
    assert StringText(s) + rest == [QUOTE] + (e + ([QUOTE] + rest));
    QuoteTurns(e + ([QUOTE] + rest), rest);
    EscapeStays(s, [QUOTE] + rest);
    assert [QUOTE] + (e + ([QUOTE] + Squeeze(rest, false))) == StringText(s) + Squeeze(rest, false);
  }

  lemma QuoteTurns(t: Bytes, rest: Bytes)
    ensures Squeeze([QUOTE] + t, false) == [QUOTE] + Squeeze(t, true)
    ensures Squeeze([QUOTE] + rest, true) == [QUOTE] + Squeeze(rest, false)
  {
    assert ([QUOTE] + t)[1..] == t && ([QUOTE] + rest)[1..] == rest;
  }

  lemma WordsAreBare()
    ensures Bare(NULL_TEXT) && Bare(FALSE_TEXT) && Bare(TRUE_TEXT) && Bare([91]) && Bare([123])
  {
  }

  lemma NumberIsBare(n: int)
    ensures Bare(NumberText(n))
  {
  }

  /** Without its blanks outside strings, a text formatted at any depth is the unformatted text, which is free of
      such blanks itself. */
  lemma FormattingAddsBlanksOnly(v: Json, depth: nat)
    ensures Squeeze(Text(v, true, depth), false) == Squeeze(Text(v, false, depth), false) == Text(v, false, depth)
  {
    hide CJsonText.Text, Squeeze;
    TextSqueezes(v, true, depth, depth, []);
    TextSqueezes(v, false, depth, depth, []);
    assert Text(v, true, depth) + [] == Text(v, true, depth) && Text(v, false, depth) + [] == Text(v, false, depth);
    assert Squeeze([], false) == [] by { SqueezeNothing(); }
  }

  lemma SqueezeNothing()
    ensures Squeeze([], false) == []
  {
  }

  lemma {:induction false} TextSqueezes(v: Json, fmt: bool, depth: nat, d: nat, rest: Bytes)
    ensures Squeeze(Text(v, fmt, depth) + rest, false) == Text(v, false, d) + Squeeze(rest, false)
    decreases v, 1
  {
    hide CJsonText.ItemsText, CJsonText.MembersText, CJsonText.StringText, CJsonText.NumberText, Squeeze, Bare;
    hide CJsonText.Opening;
    match v
    case Array(items) => ArraySqueezes(items, fmt, depth, d, rest);
    case Object(members) => ObjectSqueezes(members, fmt, depth, d, rest);
    case String(s) => StringStays(s, rest);
    case Number(r) =>
      NumberIsBare(r.Floor);
      BareStays(NumberText(r.Floor), rest);
    case _ =>
      WordsAreBare();
      BareStays(Text(v, fmt, depth), rest);
  }

  lemma {:induction false} ArraySqueezes(items: seq<Json>, fmt: bool, depth: nat, d: nat, rest: Bytes)
    ensures Squeeze([91] + ItemsText(items, fmt, depth + 1) + rest, false)
      == [91] + ItemsText(items, false, d + 1) + Squeeze(rest, false)
    decreases items, 1
  {
    hide CJsonText.ItemsText, Squeeze, Bare;
    var t := ItemsText(items, fmt, depth + 1);
    WordsAreBare();
    assert [91] + t + rest == [91] + (t + rest);
    BareStays([91], t + rest);
    ItemsSqueeze(items, fmt, depth + 1, d + 1, rest);
    var u, r := ItemsText(items, false, d + 1), Squeeze(rest, false);
    assert [91] + (u + r) == [91] + u + r;
  }

  lemma {:induction false} ObjectSqueezes(members: seq<Member>, fmt: bool, depth: nat, d: nat, rest: Bytes)
    ensures Squeeze(Opening(fmt) + MembersText(members, fmt, depth + 1) + rest, false)
      == Opening(false) + MembersText(members, false, d + 1) + Squeeze(rest, false)
    decreases members, 1
  {
    hide CJsonText.MembersText, Squeeze, Bare;
    var t := MembersText(members, fmt, depth + 1);
    var line: Bytes := if fmt then [NEWLINE] else [];
    WordsAreBare();
    assert Opening(fmt) + t + rest == [123] + (line + (t + rest));
    BareStays([123], line + (t + rest));
    BlanksGo(line, t + rest);
    MembersSqueeze(members, fmt, depth + 1, d + 1, rest);
    var u, r := MembersText(members, false, d + 1), Squeeze(rest, false);
    assert [123] + (u + r) == Opening(false) + u + r;
  }

  lemma {:induction false} ItemsSqueeze(items: seq<Json>, fmt: bool, depth: nat, d: nat, rest: Bytes)
    ensures Squeeze(ItemsText(items, fmt, depth) + rest, false) == ItemsText(items, false, d) + Squeeze(rest, false)
    decreases items, 0
  {
    hide CJsonText.Text, Squeeze;
    if items == [] {
      BareStays([93], rest);
    } else {
      var t, last, more := Text(items[0], fmt, depth), |items| == 1, ItemsText(items[1..], fmt, depth);
      assert ItemsText(items, fmt, depth) + rest == t + (ItemEnd(last, fmt) + (more + rest));
      TextSqueezes(items[0], fmt, depth, d, ItemEnd(last, fmt) + (more + rest));
      EndSqueezes(ItemEnd(last, fmt), ItemEnd(last, false), more + rest);
      ItemsSqueeze(items[1..], fmt, depth, d, rest);
      var u, r := Text(items[0], false, d), Squeeze(rest, false);
      assert u + (ItemEnd(last, false) + (ItemsText(items[1..], false, d) + r)) == ItemsText(items, false, d) + r;
    }
  }

  /** What stands between two values: at most a comma, and blanks. */
  lemma EndSqueezes(e: Bytes, bare: Bytes, rest: Bytes)
    requires (e == bare == []) || (bare == [] && e == [NEWLINE])
      || (bare == [COMMA] && e in [[COMMA], [COMMA, SPACE], [COMMA, NEWLINE]])
    ensures Squeeze(e + rest, false) == bare + Squeeze(rest, false)
  {
    hide Squeeze;
    assert e + rest == bare + (e[|bare|..] + rest);
    BareStays(bare, e[|bare|..] + rest);
    BlanksGo(e[|bare|..], rest);
  }

  lemma {:induction false} MembersSqueeze(members: seq<Member>, fmt: bool, depth: nat, d: nat, rest: Bytes)
    requires depth >= 1 && d >= 1
    ensures Squeeze(MembersText(members, fmt, depth) + rest, false)
      == MembersText(members, false, d) + Squeeze(rest, false)
    decreases members, 0
  {
    hide CJsonText.Text, Squeeze, CJsonText.MemberText;
    if members == [] {
      assert Indent(fmt, depth - 1) + [125] + rest == Indent(fmt, depth - 1) + ([125] + rest);
      BlanksGo(Indent(fmt, depth - 1), [125] + rest);
      BareStays([125], rest);
      assert Indent(false, d - 1) + [125] == [125];
    } else {
      var m, last, more := members[0], |members| == 1, MembersText(members[1..], fmt, depth);
      var t := Text(m.value, fmt, depth);
      assert MembersText(members, fmt, depth) + rest == MemberText(m.key, t, last, fmt, depth) + (more + rest);
      MembersSqueeze(members[1..], fmt, depth, d, rest);
      MemberSqueezes(m, last, fmt, depth, d, more + rest);
      var r := Squeeze(rest, false);
      assert MemberText(m.key, Text(m.value, false, d), last, false, d) + (MembersText(members[1..], false, d) + r)
        == MembersText(members, false, d) + r;
    }
  }

  lemma {:induction false} MemberSqueezes(m: Member, last: bool, fmt: bool, depth: nat, d: nat, rest: Bytes)
    requires depth >= 1 && d >= 1
    ensures Squeeze(MemberText(m.key, Text(m.value, fmt, depth), last, fmt, depth) + rest, false)
      == MemberText(m.key, Text(m.value, false, d), last, false, d) + Squeeze(rest, false)
    decreases m, 2
  {
    hide CJsonText.Text, Squeeze, CJsonText.StringText, CJsonText.Indent, CJsonText.MemberText;
    var i, k, t := Indent(fmt, depth), StringText(m.key), Text(m.value, fmt, depth);
    var gap: Bytes := if fmt then [TAB] else [];
    var end := MemberEnd(last, fmt) + rest;
    MemberParts(i, k, gap, t, MemberEnd(last, fmt), rest);
    IndentIsBlank(fmt, depth);
    BlanksGo(i, k + ([COLON] + (gap + (t + end))));
    StringStays(m.key, [COLON] + (gap + (t + end)));
    BareStays([COLON], gap + (t + end));
    BlanksGo(gap, t + end);
    TextSqueezes(m.value, fmt, depth, d, end);
    EndSqueezes(MemberEnd(last, fmt), MemberEnd(last, false), rest);
    IndentIsBlank(false, d);
    MemberIs(m.key, t, last, fmt, depth);
    MemberIs(m.key, Text(m.value, false, d), last, false, d);
    MemberParts([], k, [], Text(m.value, false, d), MemberEnd(last, false), Squeeze(rest, false));
  }

  lemma MemberIs(key: Bytes, value: Bytes, last: bool, fmt: bool, depth: nat)
    ensures
      var gap: Bytes := if fmt then [TAB] else [];
      MemberText(key, value, last, fmt, depth)
      == Indent(fmt, depth) + (StringText(key) + (([COLON] + gap) + (value + MemberEnd(last, fmt))))
  {
    hide CJsonText.StringText, CJsonText.Indent, CJsonText.MemberEnd;
  }

  lemma MemberParts(i: Bytes, k: Bytes, gap: Bytes, t: Bytes, e: Bytes, rest: Bytes)
    ensures i + (k + (([COLON] + gap) + (t + e))) + rest == i + (k + ([COLON] + (gap + (t + (e + rest)))))
  {
  }

  lemma IndentIsBlank(fmt: bool, depth: nat)
    ensures forall i :: 0 <= i < |Indent(fmt, depth)| ==> Indent(fmt, depth)[i] <= 32
    ensures Indent(false, depth) == []
  {
  }
}
