/** The parser as it runs: a cursor over the buffer, and a string unescaper that sizes its output first. */
module CJsonParser {
  import opened Collections
  import opened CJsonTree
  import opened CJsonText
  import opened CJsonGrammar
  import opened CJsonUnicode

  // ---------- the two passes of parse_string ----------

  /** Escapes that the first pass, started at a, sees beginning before b. */
  function Escapes(c: Bytes, a: nat, b: nat): nat
    requires b <= |c|
    decreases |c| - a
  {
    if a >= b then 0
    else if c[a] == BACKSLASH then 1 + Escapes(c, a + 2, b)
    else Escapes(c, a + 1, b)
  }

  /** Moving the bound: a byte that is no backslash begins no escape, and two neighbours begin at most one. */
  lemma {:induction false} EscapesStep(c: Bytes, a: nat, b: nat)
    requires b < |c|
    ensures Escapes(c, a, b) <= Escapes(c, a, b + 1) <= Escapes(c, a, b) + 1
    ensures c[b] != BACKSLASH ==> Escapes(c, a, b + 1) == Escapes(c, a, b)
    ensures b + 2 <= |c| ==> Escapes(c, a, b + 2) <= Escapes(c, a, b) + 1
    decreases |c| - a
  {
    if a < b {
      EscapesStep(c, if c[a] == BACKSLASH then a + 2 else a + 1, b);
    } else if b + 2 <= |c| {
      assert Escapes(c, b + 2, b + 2) == 0 && Escapes(c, b + 1, b + 2) <= 1;
    }
  }

  lemma {:induction false} EscapesSpread(c: Bytes, a: nat, b: nat, d: nat)
    requires b <= d <= |c|
    ensures Escapes(c, a, d) <= Escapes(c, a, b) + (d - b)
    decreases d - b
  {
    if b < d {
      EscapesStep(c, a, b);
      EscapesSpread(c, a, b + 1, d);
    }
  }

  /** Six bytes begin at most three escapes, twelve at most six. */
  lemma EscapesInUnits(c: Bytes, a: nat, b: nat)
    requires b + 6 <= |c|
    ensures Escapes(c, a, b + 6) <= Escapes(c, a, b) + 3
    ensures b + 12 <= |c| ==> Escapes(c, a, b + 12) <= Escapes(c, a, b) + 6
  {
    EscapesStep(c, a, b);
    EscapesStep(c, a, b + 2);
    EscapesStep(c, a, b + 4);
    if b + 12 <= |c| {
      EscapesStep(c, a, b + 6);
      EscapesStep(c, a, b + 8);
      EscapesStep(c, a, b + 10);
    }
  }

  /** Room left for output at position p of the second pass: what the bytes up to there can have filled. */
  function Filled(c: Bytes, start: nat, p: nat): int
    requires p <= |c|
  {
    p - start - Escapes(c, start, p)
  }

  lemma FilledGrows(c: Bytes, start: nat, p: nat, q: nat)
    requires p <= q <= |c|
    ensures Filled(c, start, p) <= Filled(c, start, q)
  {
    EscapesSpread(c, start, p, q);
  }

  lemma NothingFilled(c: Bytes, start: nat)
    requires start <= |c|
    ensures Filled(c, start, start) == 0
  {
  }

  /** One turn of the second pass never writes more than it earns, whatever the first pass made of the
      same bytes. */
  lemma TurnFits(c: Bytes, start: nat, p: nat, end: nat)
    requires p < end < |c| && c[end] == QUOTE
    ensures c[p] != BACKSLASH ==> Filled(c, start, p) + 1 <= Filled(c, start, p + 1)
    ensures p + 2 <= end + 1 && Filled(c, start, p) + 1 <= Filled(c, start, p + 2)
    ensures Utf16Literal(c, p, end).Done? ==>
      Filled(c, start, p) + |Utf8(Utf16Literal(c, p, end).value)| <= Filled(c, start, Utf16Literal(c, p, end).next)
  {
    hide CJsonGrammar.Utf16Literal, CJsonGrammar.Utf8;
    EscapesStep(c, start, p);
    if p + 6 <= end {
      EscapesInUnits(c, start, p);
    }
  }

  /** One step of the second pass. */
  lemma UnescapeStep(c: Bytes, p: nat, end: nat)
    requires p < end < |c|
    ensures Unescape(c, p, end) ==
      if c[p] != BACKSLASH then Prepend([c[p]], Unescape(c, p + 1, end))
      else if Unshort(c[p + 1]) != 0 then Prepend([Unshort(c[p + 1])], Unescape(c, p + 2, end))
      else if c[p + 1] != 117 || Utf16Literal(c, p, end).Failed? then Failed(p)
      else Prepend(Utf8(Utf16Literal(c, p, end).value), Unescape(c, Utf16Literal(c, p, end).next, end))
  {
  }

  lemma UnescapeStop(c: Bytes, p: nat, end: nat, done: Bytes)
    requires end < |c| && end <= p <= end + 1
    ensures Prepend(done, Unescape(c, p, end)) == Done(done, p)
  {
    assert done + [] == done;
  }

  /** Converts the literal at p and writes its UTF-8 form at `pos`; returns the bytes read, 0 on failure. */
  method Utf16LiteralToUtf8(c: Bytes, p: nat, end: nat, output: array<Byte>, pos: nat)
    returns (sequenceLength: nat, next: nat)
    requires p < end < |c|
    requires pos <= output.Length
    requires Utf16Literal(c, p, end).Done? ==> pos + |Utf8(Utf16Literal(c, p, end).value)| <= output.Length
    modifies output
    ensures sequenceLength == 0 <==> Utf16Literal(c, p, end).Failed?
    ensures sequenceLength > 0 ==>
      && p + sequenceLength == Utf16Literal(c, p, end).next
      && next == pos + |Utf8(Utf16Literal(c, p, end).value)|
      && output[pos..next] == Utf8(Utf16Literal(c, p, end).value)
    ensures output[..pos] == old(output[..pos])
  {
    hide CJsonGrammar.Hex4, CJsonGrammar.Utf8;
    sequenceLength, next := 0, pos;
    if end - p < 6 {
      return;
    }
    var codepoint: nat;
    var length;
    var first := ParseHex4(c, p + 2);
    if 0xDC00 <= first <= 0xDFFF {
      return;
    }
    if 0xD800 <= first <= 0xDBFF {
      if end - (p + 6) < 6 || c[p + 6] != BACKSLASH || c[p + 7] != 117 {
        return;
      }
      var second := ParseHex4(c, p + 8);
      if second < 0xDC00 || second > 0xDFFF {
        return;
      }
      codepoint, length := 0x10000 + (first % 0x400) * 0x400 + second % 0x400, 12;
    } else {
      codepoint, length := first, 6;
    }
    assert Utf16Literal(c, p, end) == Done(codepoint, p + length);
    next := WriteUtf8(codepoint, output, pos);
    sequenceLength := length;
  }

  /** Encodes from the last byte to the first, six bits at a time. */
  method WriteUtf8(scalar: Scalar, output: array<Byte>, pos: nat) returns (next: nat)
    requires pos + |Utf8(scalar)| <= output.Length
    modifies output
    ensures next == pos + |Utf8(scalar)| && output[pos..next] == Utf8(scalar)
    ensures output[..pos] == old(output[..pos])
  {
    assert ScalarValue(scalar);
    ghost var u := Utf8(scalar);
    var length, mark := 1, 0;
    if scalar >= 0x10000 {
      length, mark := 4, 0xF0;
    } else if scalar >= 0x800 {
      length, mark := 3, 0xE0;
    } else if scalar >= 0x80 {
      length, mark := 2, 0xC0;
    }
    var rest: nat, i := scalar, length - 1;
    while i > 0
      invariant 0 <= i < length == |u|
      invariant rest == Shifted(scalar, length - 1 - i)
      invariant forall k :: i < k < length ==> output[pos + k] == u[k]
      invariant forall k :: 0 <= k < pos ==> output[k] == old(output[k])
    {
      output[pos + i] := Continuation(rest);
      assert output[pos + i] == u[i];
      rest := rest / 0x40;
      i := i - 1;
    }
    assert rest + mark == u[0];
    output[pos] := rest + mark;
    next := pos + length;
    SliceIs(output[..], pos, u);
    assert output[..][pos..next] == output[pos..next];
  }

  lemma SliceIs(o: Bytes, pos: nat, u: Bytes)
    requires pos + |u| <= |o| && forall k {:trigger u[k]} :: 0 <= k < |u| ==> o[pos + k] == u[k]
    ensures o[pos..pos + |u|] == u
  {
  }

  /** scalar >> 6 * k */
  function Shifted(scalar: nat, k: nat): nat {
    if k == 0 then scalar else if k == 1 then scalar / 0x40 else if k == 2 then scalar / 0x1000
    else scalar / 0x40000
  }

  /** Reads four hexadecimal digits; any other byte makes the result 0. */
  method ParseHex4(c: Bytes, p: nat) returns (h: nat)
    requires p + 4 <= |c|
    ensures h == Hex4(c, p)
  {
    h := 0;
    for i := 0 to 4
      invariant forall k :: p <= k < p + i ==> HexValue(c[k]) >= 0
      invariant i == 0 ==> h == 0
      invariant i == 1 ==> h == HexValue(c[p]) * 16
      invariant i == 2 ==> h == (HexValue(c[p]) * 16 + HexValue(c[p + 1])) * 16
      invariant i == 3 ==> h == ((HexValue(c[p]) * 16 + HexValue(c[p + 1])) * 16 + HexValue(c[p + 2])) * 16
      invariant i == 4 ==> h == Hex4(c, p)
    {
      var d := HexValue(c[p + i]);
      if d < 0 {
        return 0;
      }
      h := h + d;
      if i < 3 {
        h := h * 16;
      }
    }
  }

  // ---------- the cursor ----------

  function AppendItems(done: seq<Json>, rest: Parsed<seq<Json>>): Parsed<seq<Json>> {
    match rest
    case Failed(at) => Failed(at)
    case Done(items, next) => Done(done + items, next)
  }

  function AppendMembers(done: seq<Member>, rest: Parsed<seq<Member>>): Parsed<seq<Member>> {
    match rest
    case Failed(at) => Failed(at)
    case Done(members, next) => Done(done + members, next)
  }

  lemma NumberEndStep(c: Bytes, p: nat, room: nat)
    requires p <= |c|
    ensures NumberEnd(c, p, room)
         == if room == 0 || p == |c| || !NumberByte(c[p]) then p else NumberEnd(c, p + 1, room - 1)
  {
  }

  class ParseBuffer {
    const content: Bytes
    var offset: nat
    var depth: nat

    /** The buffer `cJSON_ParseWithOpts` sets up: the C string with its terminator. */
    constructor (text: Bytes)
      requires NulFree(text)
      ensures content == text + [0] && offset == 0 && depth == 0 && Valid()
    {
      content, offset, depth := text + [0], 0, 0;
    }

    ghost predicate Valid()
      reads this
    {
      Terminated(content) && offset <= |content|
    }

    method SkipBlanks()
      requires Valid()
      modifies this`offset
      ensures Valid() && offset == SkipWhitespace(content, old(offset))
    {
      while offset < |content| && content[offset] <= 32
        invariant offset <= |content|
        invariant SkipWhitespace(content, offset) == SkipWhitespace(content, old(offset))
      {
        offset := offset + 1;
      }
      if offset == |content| {
        offset := offset - 1;
      }
    }

    /** The run of number bytes at the cursor, at most 63 of them. */
    method CopyToken() returns (token: Bytes)
      requires Valid()
      ensures token == content[offset..NumberEnd(content, offset, 63)]
    {
      hide CJsonGrammar.NumberByte, CJsonGrammar.NumberEnd;
      var i := 0;
      token := [];
      while i < 63 && offset + i < |content| && NumberByte(content[offset + i])
        invariant i <= 63 && offset + i <= |content| && token == content[offset..offset + i]
        invariant NumberEnd(content, offset, 63) == NumberEnd(content, offset + i, 63 - i)
        decreases 63 - i
      {
        NumberEndStep(content, offset + i, 63 - i);
        token := token + [content[offset + i]];
        i := i + 1;
      }
      NumberEndStep(content, offset + i, 63 - i);
    }

    /** Copies the token, lets `strtod` read it and moves by what it consumed. */
    method ReadNumber() returns (ok: bool, item: Json)
      requires Valid() && offset < |content|
      modifies this`offset
      ensures Valid()
      ensures ok == ParseNumber(content, old(offset)).Done?
      ensures ok ==> Done(item, offset) == ParseNumber(content, old(offset))
      ensures !ok ==> ParseNumber(content, old(offset)) == Failed(offset)
    {
      hide CJsonGrammar.Strtod, CJsonGrammar.NumberByte;
      var token := CopyToken();
      var (consumed, value) := Strtod(token);
      if consumed == 0 {
        return false, Null;
      }
      offset := offset + consumed;
      return true, Number(value);
    }

    /** The first pass finds the closing quote and counts escapes; the second fills a buffer of exactly
        the size computed from them. Every write is inside it, and so is the terminator. */
    method ReadString() returns (ok: bool, text: Bytes)
      requires Valid() && offset < |content|
      modifies this`offset
      ensures Valid()
      ensures ok == ParseString(content, old(offset)).Done?
      ensures ok ==> Done(text, offset) == ParseString(content, old(offset))
      ensures !ok ==> ParseString(content, old(offset)) == Failed(offset)
    {
      text := [];
      var start := offset + 1;
      if content[offset] != QUOTE {
        offset := start;
        return false, [];
      }
      var found, end, skipped := FindStringEnd(start);
      if !found {
        offset := start;
        return false, [];
      }
      var allocationLength := end - offset - skipped;
      FilledGrows(content, start, start, end);
      EscapesStep(content, start, end);
      assert allocationLength == Filled(content, start, end + 1) >= 0;
      var output := new Byte[allocationLength + 1];
      var filled, stop, out := FillString(start, end, output);
      if !filled {
        offset := stop;
        return false, [];
      }
      output[out] := 0;
      offset := end + 1;
      return true, output[..out];
    }

    /** The second pass. It stops behind the closing quote at most, and leaves room for the terminator. */
    method FillString(start: nat, end: nat, output: array<Byte>) returns (ok: bool, p: nat, out: nat)
      requires Terminated(content) && start <= end < |content| && end == StringEnd(content, start)
      requires output.Length == Filled(content, start, end + 1) + 1
      modifies output
      ensures p <= end + 1 && out < output.Length
      ensures ok == Unescape(content, start, end).Done?
      ensures if ok then Unescape(content, start, end).value == output[..out]
              else Unescape(content, start, end) == Failed(p)
    {
      hide CJsonGrammar.Utf16Literal, CJsonGrammar.Utf8, CJsonGrammar.Unescape, CJsonGrammar.Prepend, Escapes, Filled;
      p, out := start, 0;
      PrependNothing(Unescape(content, start, end));
      FilledGrows(content, start, start, end + 1);
      NothingFilled(content, start);
      assert output[..out] == [];
      while p < end
        invariant start <= p <= end + 1
        invariant out <= Filled(content, start, p) <= output.Length - 1
        invariant Unescape(content, start, end) == Prepend(output[..out], Unescape(content, p, end))
        decreases end + 1 - p
      {
        ghost var before := output[..out];
        TurnFits(content, start, p, end);
        UnescapeStep(content, p, end);
        if content[p] != BACKSLASH {
          FilledGrows(content, start, p + 1, end + 1);
          PrependTwice(before, [content[p]], Unescape(content, p + 1, end));
          output[out] := content[p];
          assert output[..out + 1] == before + [content[p]];
          p, out := p + 1, out + 1;
        } else if Unshort(content[p + 1]) != 0 {
          FilledGrows(content, start, p + 2, end + 1);
          PrependTwice(before, [Unshort(content[p + 1])], Unescape(content, p + 2, end));
          output[out] := Unshort(content[p + 1]);
          assert output[..out + 1] == before + [Unshort(content[p + 1])];
          p, out := p + 2, out + 1;
        } else if content[p + 1] == 117 {
          ghost var literal := Utf16Literal(content, p, end);
          if literal.Done? {
            FilledGrows(content, start, literal.next, end + 1);
            PrependTwice(before, Utf8(literal.value), Unescape(content, literal.next, end));
          }
          var length, next := Utf16LiteralToUtf8(content, p, end, output, out);
          if length == 0 {
            return false, p, out;
          }
          assert output[..next] == before + Utf8(literal.value);
          p, out := p + length, next;
        } else {
          return false, p, out;
        }
      }
      UnescapeStop(content, p, end, output[..out]);
      ok := true;
    }

    method FindStringEnd(start: nat) returns (found: bool, end: nat, skipped: nat)
      requires Valid() && start <= |content|
      ensures found <==> StringEnd(content, start) < |content|
      ensures found ==> end == StringEnd(content, start) && skipped == Escapes(content, start, end)
    {
      found, end, skipped := false, start, 0;
      while end < |content| && content[end] != QUOTE
        invariant start <= end <= |content| && StringEnd(content, start) == StringEnd(content, end)
        invariant forall b :: end <= b <= |content| ==>
          Escapes(content, start, b) == skipped + Escapes(content, end, b)
      {
        if content[end] == BACKSLASH {
          if end + 1 >= |content| {
            return;
          }
          skipped := skipped + 1;
          end := end + 1;
        }
        end := end + 1;
      }
      found := end < |content|;
    }

    method ReadValue() returns (ok: bool, item: Json)
      requires Valid() && offset < |content|
      modifies this
      ensures Valid()
      ensures ok == ParseValue(content, old(offset), old(depth)).Done?
      ensures ok ==> Done(item, offset) == ParseValue(content, old(offset), old(depth)) && depth == old(depth)
      ensures !ok ==> ParseValue(content, old(offset), old(depth)) == Failed(offset)
      decreases |content| - offset, 1
    {
      hide CJsonGrammar.ParseString, CJsonGrammar.ParseNumber, CJsonGrammar.ParseItems, CJsonGrammar.ParseMembers;
      ok, item := true, Null;
      if Keyword(content, offset, NULL_TEXT) {
        offset := offset + 4;
      } else if Keyword(content, offset, FALSE_TEXT) {
        item, offset := False, offset + 5;
      } else if Keyword(content, offset, TRUE_TEXT) {
        item, offset := True, offset + 4;
      } else if content[offset] == QUOTE {
        var text;
        ok, text := ReadString();
        item := String(text);
      } else if content[offset] == 45 || IsDigit(content[offset]) {
        ok, item := ReadNumber();
      } else if content[offset] == 91 {
        ok, item := ReadArray();
      } else if content[offset] == 123 {
        ok, item := ReadObject();
      } else {
        ok := false;
      }
    }

    method ReadArray() returns (ok: bool, item: Json)
      requires Valid() && offset < |content| && content[offset] == 91
      modifies this
      ensures Valid()
      ensures ok == ParseValue(content, old(offset), old(depth)).Done?
      ensures ok ==> Done(item, offset) == ParseValue(content, old(offset), old(depth)) && depth == old(depth)
      ensures !ok ==> ParseValue(content, old(offset), old(depth)) == Failed(offset)
      decreases |content| - offset, 0
    {
      hide CJsonGrammar.ParseString, CJsonGrammar.ParseNumber, CJsonGrammar.ParseMembers, CJsonGrammar.ParseItems;
      ok, item := false, Null;
      if depth >= NESTING_LIMIT {
        return;
      }
      depth := depth + 1;
      offset := offset + 1;
      SkipBlanks();
      if content[offset] == 93 {
        depth, offset := depth - 1, offset + 1;
        return true, Array([]);
      }
      offset := offset - 1;
      var items;
      ok, items := ReadItems();
      if ok {
        depth, offset := depth - 1, offset + 1;
      }
      item := Array(items);
    }

    /** The element loop. The cursor starts one byte in front of the first element, steps forward on every
        turn, and stops on the closing bracket. */
    method ReadItems() returns (ok: bool, items: seq<Json>)
      requires Valid() && offset + 1 < |content| && SkipWhitespace(content, offset + 1) == offset + 1
      modifies this
      ensures Valid()
      ensures ok == ParseItems(content, old(offset) + 1, old(depth)).Done?
      ensures ok ==> offset < |content| && depth == old(depth)
      ensures ok ==> ParseItems(content, old(offset) + 1, old(depth)) == Done(items, offset + 1)
      ensures !ok ==> ParseItems(content, old(offset) + 1, old(depth)) == Failed(offset)
      decreases |content| - offset - 1, 2
    {
      hide CJsonGrammar.ParseItems, CJsonGrammar.ParseValue, CJsonGrammar.SkipWhitespace;
      ghost var whole := ParseItems(content, offset + 1, depth);
      ok, items := false, [];
      var more := true;
      NoItemsYet(whole);
      while more
        invariant Valid() && depth == old(depth) && old(offset) <= offset < |content|
        invariant more ==> offset + 1 < |content|
        invariant more ==>
          whole == AppendItems(items, ParseItems(content, SkipWhitespace(content, offset + 1), depth))
        invariant !more ==> whole == if content[offset] == 93 then Done(items, offset + 1) else Failed(offset)
        decreases more, |content| - offset
      {
        offset := offset + 1;
        SkipBlanks();
        ItemsTurn(content, offset, depth, items);
        var got, v := ReadValue();
        if !got {
          return;
        }
        SkipBlanks();
        items := items + [v];
        more := content[offset] == COMMA;
      }
      ok := content[offset] == 93;
    }

    method ReadObject() returns (ok: bool, item: Json)
      requires Valid() && offset < |content| && content[offset] == 123
      modifies this
      ensures Valid()
      ensures ok == ParseValue(content, old(offset), old(depth)).Done?
      ensures ok ==> Done(item, offset) == ParseValue(content, old(offset), old(depth)) && depth == old(depth)
      ensures !ok ==> ParseValue(content, old(offset), old(depth)) == Failed(offset)
      decreases |content| - offset, 0
    {
      hide CJsonGrammar.ParseString, CJsonGrammar.ParseNumber, CJsonGrammar.ParseItems, CJsonGrammar.ParseMembers;
      ok, item := false, Null;
      if depth >= NESTING_LIMIT {
        return;
      }
      depth := depth + 1;
      offset := offset + 1;
      SkipBlanks();
      if content[offset] == 125 {
        depth, offset := depth - 1, offset + 1;
        return true, Object([]);
      }
      offset := offset - 1;
      var members;
      ok, members := ReadMembers();
      if ok {
        depth, offset := depth - 1, offset + 1;
      }
      item := Object(members);
    }

    /** A key, a colon and a value, from the byte at the cursor. */
    method ReadMember() returns (ok: bool, member: Member)
      requires Valid() && offset < |content|
      modifies this
      ensures Valid()
      ensures ok == ParseMember(content, old(offset), old(depth)).Done?
      ensures ok ==> Done(member, offset) == ParseMember(content, old(offset), old(depth)) && depth == old(depth)
      ensures !ok ==> ParseMember(content, old(offset), old(depth)) == Failed(offset)
      decreases |content| - offset, 2
    {
      hide CJsonGrammar.ParseValue, CJsonGrammar.SkipWhitespace, CJsonGrammar.ParseString;
      ok, member := false, Member([], Null);
      var named, key := ReadString();
      if !named {
        return;
      }
      SkipBlanks();
      if content[offset] != COLON {
        return;
      }
      offset := offset + 1;
      SkipBlanks();
      var v;
      ok, v := ReadValue();
      member := Member(key, v);
    }

    method ReadMembers() returns (ok: bool, members: seq<Member>)
      requires Valid() && offset + 1 < |content| && SkipWhitespace(content, offset + 1) == offset + 1
      modifies this
      ensures Valid()
      ensures ok == ParseMembers(content, old(offset) + 1, old(depth)).Done?
      ensures ok ==> offset < |content| && depth == old(depth)
      ensures ok ==> ParseMembers(content, old(offset) + 1, old(depth)) == Done(members, offset + 1)
      ensures !ok ==> ParseMembers(content, old(offset) + 1, old(depth)) == Failed(offset)
      decreases |content| - offset - 1, 3
    {
      hide CJsonGrammar.ParseMembers, CJsonGrammar.ParseMember, CJsonGrammar.SkipWhitespace;
      ghost var whole := ParseMembers(content, offset + 1, depth);
      ok, members := false, [];
      var more := true;
      NoMembersYet(whole);
      while more
        invariant Valid() && depth == old(depth) && old(offset) <= offset < |content|
        invariant more ==> offset + 1 < |content|
        invariant more ==>
          whole == AppendMembers(members, ParseMembers(content, SkipWhitespace(content, offset + 1), depth))
        invariant !more ==> whole == if content[offset] == 125 then Done(members, offset + 1) else Failed(offset)
        decreases more, |content| - offset
      {
        offset := offset + 1;
        SkipBlanks();
        MembersTurn(content, offset, depth, members);
        var got, m := ReadMember();
        if !got {
          return;
        }
        SkipBlanks();
        members := members + [m];
        more := content[offset] == COMMA;
      }
      ok := content[offset] == 125;
    }
  }

  lemma NoItemsYet(r: Parsed<seq<Json>>)
    ensures AppendItems([], r) == r
  {
    if r.Done? { assert [] + r.value == r.value; }
  }

  lemma NoMembersYet(r: Parsed<seq<Member>>)
    ensures AppendMembers([], r) == r
  {
    if r.Done? { assert [] + r.value == r.value; }
  }

  /** One turn of the element loop, seen from the elements already read. */
  lemma ItemsTurn(c: Bytes, p: nat, depth: nat, done: seq<Json>)
    requires Terminated(c) && p < |c|
    ensures ParseValue(c, p, depth).Failed? ==>
      AppendItems(done, ParseItems(c, p, depth)) == Failed(ParseValue(c, p, depth).at)
    ensures ParseValue(c, p, depth).Done? ==>
      var v, q := ParseValue(c, p, depth).value, SkipWhitespace(c, ParseValue(c, p, depth).next);
      AppendItems(done, ParseItems(c, p, depth)) ==
        if c[q] == COMMA then AppendItems(done + [v], ParseItems(c, SkipWhitespace(c, q + 1), depth))
        else if c[q] == 93 then Done(done + [v], q + 1)
        else Failed(q)
  {
    hide CJsonGrammar.ParseValue, CJsonGrammar.SkipWhitespace;
    if ParseValue(c, p, depth).Done? {
      var v, q := ParseValue(c, p, depth).value, SkipWhitespace(c, ParseValue(c, p, depth).next);
      if c[q] == COMMA {
        var rest := ParseItems(c, SkipWhitespace(c, q + 1), depth);
        if rest.Done? {
          assert done + ([v] + rest.value) == (done + [v]) + rest.value;
        }
      }
    }
  }

  lemma MembersTurn(c: Bytes, p: nat, depth: nat, done: seq<Member>)
    requires Terminated(c) && p < |c|
    ensures ParseMember(c, p, depth).Failed? ==>
      AppendMembers(done, ParseMembers(c, p, depth)) == Failed(ParseMember(c, p, depth).at)
    ensures ParseMember(c, p, depth).Done? ==>
      var m, q := ParseMember(c, p, depth).value, SkipWhitespace(c, ParseMember(c, p, depth).next);
      AppendMembers(done, ParseMembers(c, p, depth)) ==
        if c[q] == COMMA then AppendMembers(done + [m], ParseMembers(c, SkipWhitespace(c, q + 1), depth))
        else if c[q] == 125 then Done(done + [m], q + 1)
        else Failed(q)
  {
    hide CJsonGrammar.ParseMember, CJsonGrammar.SkipWhitespace;
    if ParseMember(c, p, depth).Done? {
      var m, q := ParseMember(c, p, depth).value, SkipWhitespace(c, ParseMember(c, p, depth).next);
      if c[q] == COMMA {
        var rest := ParseMembers(c, SkipWhitespace(c, q + 1), depth);
        if rest.Done? {
          assert done + ([m] + rest.value) == (done + [m]) + rest.value;
        }
      }
    }
  }

  datatype Outcome = Parsed(item: Json, end: nat) | Rejected(position: nat)

  /** `cJSON_ParseWithOpts`: the item and where it ended, or the position that is reported as the error. */
  method ParseWithOpts(text: Bytes, requireNul: bool) returns (r: Outcome)
    requires NulFree(text)
    ensures match ParseText(text, requireNul)
            case Done(v, next) => r == Parsed(v, next)
            case Failed(at) => r == Rejected(at)
  {
    hide CJsonGrammar.ParseValue;
    var buffer := new ParseBuffer(text);
    var length := |buffer.content|;
    buffer.offset := SkipBom(buffer.content);
    buffer.SkipBlanks();
    var ok, item := buffer.ReadValue();
    if ok && requireNul {
      buffer.SkipBlanks();
      ok := buffer.content[buffer.offset] == 0;
    }
    if ok {
      return Parsed(item, buffer.offset);
    }
    r := Rejected(if buffer.offset < length then buffer.offset else length - 1);
  }
}
