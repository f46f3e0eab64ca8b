/** The printer as it runs: a buffer that grows on demand, written behind an offset. */
module CJsonPrinter {
  import opened Collections
  import opened CJsonTree
  import opened CJsonText
  import CJsonRoundTrip

  const INT_MAX: nat := 0x7FFF_FFFF

  class PrintBuffer {
    var buffer: array<Byte>
    var offset: nat
    var depth: nat
    const noalloc: bool
    const format: bool

    constructor (buffer: array<Byte>, noalloc: bool, format: bool)
      requires buffer.Length <= INT_MAX
      ensures this.buffer == buffer && this.noalloc == noalloc && this.format == format
      ensures offset == 0 && depth == 0 && Valid()
    {
      this.buffer, offset, depth, this.noalloc, this.format := buffer, 0, 0, noalloc, format;
    }

    ghost predicate Valid()
      reads this
    {
      buffer.Length <= INT_MAX && (offset < buffer.Length || buffer.Length == offset == 0)
    }

    /** How long the buffer may ever get. */
    ghost function Limit(): nat
      reads this
    {
      if noalloc then buffer.Length else INT_MAX
    }

    /** What has been written so far. */
    ghost function Written(): Bytes
      requires Valid()
      reads this, buffer
    {
      buffer[..offset]
    }

    /** The buffer holds the text `goal` and its terminator, and `update_offset` will find its end. */
    ghost predicate Ended(goal: Bytes)
      reads this, buffer
    {
      offset <= |goal| < buffer.Length <= INT_MAX && buffer[..|goal|] == goal && buffer[|goal|] == 0
    }

    ghost predicate Kept(b: array<Byte>, limit: nat)
      reads this
    {
      Limit() == limit && (noalloc ==> buffer == b)
    }

    /** Makes room for `needed` more bytes and one beyond them. */
    method Ensure(needed: nat) returns (ok: bool)
      requires Valid()
      modifies this`buffer
      ensures Valid() && Kept(old(buffer), old(Limit())) && (buffer == old(buffer) || fresh(buffer))
      ensures ok <==> offset + needed + 1 <= Limit()
      ensures ok ==> offset + needed + 1 <= buffer.Length
      ensures Written() == old(Written())
    {
      if buffer.Length > 0 && offset >= buffer.Length {
        return false;
      }
      if needed > INT_MAX {
        return false;
      }
      var total := needed + offset + 1;
      if total <= buffer.Length {
        return true;
      }
      if noalloc {
        return false;
      }
      var newSize;
      if total > INT_MAX / 2 {
        if total > INT_MAX {
          return false;
        }
        newSize := INT_MAX;
      } else {
        newSize := total * 2;
      }
      var bigger := new Byte[newSize];
      var copied := if offset + 1 <= buffer.Length then offset + 1 else buffer.Length;
      forall i | 0 <= i < copied {
        bigger[i] := buffer[i];
      }
      buffer := bigger;
      assert buffer[..offset] == old(buffer[..offset]);
      return true;
    }

    /** Moves the offset to the next NUL, as `strlen` finds it. */
    method UpdateOffset(ghost goal: Bytes)
      requires Ended(goal) && (forall i :: offset <= i < |goal| ==> goal[i] != 0)
      modifies this`offset
      ensures Valid() && offset == |goal| && Written() == goal
    {
      assert forall i :: offset <= i < |goal| ==> buffer[i] == buffer[..|goal|][i];
      while buffer[offset] != 0
        invariant Ended(goal)
        invariant forall i :: offset <= i < |goal| ==> buffer[i] != 0
        decreases |goal| - offset
      {
        assert offset != |goal|;
        offset := offset + 1;
      }
    }

    /** Stores t behind the offset and moves the offset past it. */
    method Append(t: Bytes)
      requires Valid() && offset + |t| < buffer.Length
      modifies this`offset, buffer
      ensures Valid() && offset == old(offset) + |t| && Written() == old(Written()) + t
    {
      for i := 0 to |t|
        invariant offset == old(offset) && buffer[..offset] == old(buffer[..offset])
        invariant forall k :: 0 <= k < i ==> buffer[offset + k] == t[k]
      {
        buffer[offset + i] := t[i];
      }
      offset := offset + |t|;
      assert buffer[..offset] == old(buffer[..offset]) + t;
    }

    /** Stores t and a terminator behind the offset, which stays. */
    method Store(t: Bytes)
      requires Valid() && offset + |t| < buffer.Length
      modifies buffer
      ensures Ended(old(Written()) + t)
    {
      for i := 0 to |t|
        invariant buffer[..offset] == old(buffer[..offset])
        invariant forall k :: 0 <= k < i ==> buffer[offset + k] == t[k]
      {
        buffer[offset + i] := t[i];
      }
      buffer[offset + |t|] := 0;
      assert buffer[..offset + |t|] == old(buffer[..offset]) + t;
    }

    // ---------- leaves ----------

    method PrintWord(word: Bytes) returns (ok: bool)
      requires Valid()
      modifies this`buffer, buffer
      ensures Kept(old(buffer), old(Limit())) && (buffer == old(buffer) || fresh(buffer))
      ensures ok <==> |old(Written()) + word| + 2 <= Limit()
      ensures ok ==> Ended(old(Written()) + word)
    {
      ok := Ensure(|word| + 1);
      if ok {
        Store(word);
      }
    }

    /** An integer of at most 15 digits. The offset moves past it, unlike for every other leaf. */
    method PrintNumber(n: int) returns (ok: bool)
      requires Valid() && -1_000_000_000_000_000 < n < 1_000_000_000_000_000
      modifies this`buffer, this`offset, buffer
      ensures Kept(old(buffer), old(Limit())) && (buffer == old(buffer) || fresh(buffer))
      ensures ok <==> |old(Written()) + NumberText(n)| + 2 <= Limit()
      ensures ok ==> Ended(old(Written()) + NumberText(n)) && offset == old(offset) + |NumberText(n)|
    {
      var digits := NumberText(n);
      CJsonRoundTrip.FifteenDigits();
      CJsonRoundTrip.DigitsLength(Abs(n), 15);
      assert |digits| <= 25; // the 26 bytes of number_buffer always suffice
      ok := Ensure(|digits| + 1);
      if ok {
        Append(digits);
        buffer[offset] := 0;
        assert buffer[..offset] == old(Written()) + digits;
      }
    }

    /** How many bytes escaping adds. */
    static method CountEscapes(s: Bytes) returns (extra: nat)
      ensures |Escape(s)| == |s| + extra
    {
      extra := 0;
      EscapeStep(s, 0);
      for i := 0 to |s|
        invariant |Escape(s)| == i + extra + |Escape(s[i..])|
      {
        EscapeStep(s, i);
        if ShortEscape(s[i]) != 0 {
          extra := extra + 1;
        } else if s[i] < 32 {
          extra := extra + 5;
        }
      }
    }

    /** Sizes the text first, then writes it; the closing quote goes where the size says the text ends. */
    method PrintString(s: Bytes) returns (ok: bool)
      requires Valid() && NulFree(s)
      modifies this`buffer, buffer
      ensures Kept(old(buffer), old(Limit())) && (buffer == old(buffer) || fresh(buffer))
      ensures ok <==> |old(Written()) + StringText(s)| + 2 <= Limit()
      ensures ok ==> Ended(old(Written()) + StringText(s))
    {
      var extra := CountEscapes(s);
      hide CJsonText.Escape, CJsonTree.NulFree;
      ok := Ensure(|s| + extra + 3);
      if ok {
        WriteQuoted(s, extra);
      }
    }

    method WriteQuoted(s: Bytes, extra: nat)
      requires |s| + extra == |Escape(s)| && offset + |s| + extra + 2 < buffer.Length
      modifies buffer
      ensures buffer[..offset + |s| + extra + 2] == old(buffer[..offset]) + StringText(s)
      ensures buffer[offset + |s| + extra + 2] == 0
    {
      hide CJsonText.Escape;
      buffer[offset] := QUOTE;
      assert buffer[..offset + 1] == old(buffer[..offset]) + [QUOTE];
      if extra == 0 {
        CopyPlain(s);
      } else {
        CopyEscaped(s);
      }
      var end := offset + |s| + extra + 1;
      ghost var body := buffer[..end];
      buffer[end] := QUOTE;
      buffer[end + 1] := 0;
      assert buffer[..end + 1] == body + [QUOTE];
      Reassociate(old(buffer[..offset]), Escape(s));
    }

    /** `memcpy` of a string that needs no escape. */
    method CopyPlain(s: Bytes)
      requires offset + 1 + |s| <= buffer.Length && |Escape(s)| == |s|
      modifies buffer
      ensures buffer[..offset + 1 + |s|] == old(buffer[..offset + 1]) + Escape(s)
    {
      EscapeOfPlain(s);
      hide CJsonText.Escape;
      for i := 0 to |s|
        invariant forall k :: 0 <= k < i ==> buffer[offset + 1 + k] == s[k]
        invariant buffer[..offset + 1] == old(buffer[..offset + 1])
      {
        buffer[offset + 1 + i] := s[i];
      }
      assert buffer[..offset + 1 + |s|] == buffer[..offset + 1] + s;
    }

    method CopyEscaped(s: Bytes)
      requires offset + 2 + |Escape(s)| < buffer.Length
      modifies buffer
      ensures buffer[..offset + 1 + |Escape(s)|] == old(buffer[..offset + 1]) + Escape(s)
    {
      hide CJsonText.EscapeByte;
      var p := offset + 1;
      EscapeStep(s, 0);
      for i := 0 to |s|
        invariant offset + 1 <= p && p + |Escape(s[i..])| == offset + 1 + |Escape(s)|
        invariant buffer[..p] + Escape(s[i..]) == old(buffer[..offset + 1]) + Escape(s)
      {
        EscapeStep(s, i);
        ghost var before, e, rest := buffer[..p], EscapeByte(s[i]), Escape(s[i + 1..]);
        assert before + e + rest == before + (e + rest);
        p := WriteEscape(p, s[i]);
      }
      EscapeStep(s, |s|);
      assert buffer[..p] + [] == buffer[..p];
    }

    /** Writes one byte escaped; the `\u` form leaves a terminator behind it, which the next byte replaces. */
    method WriteEscape(p: nat, b: Byte) returns (next: nat)
      requires p + |EscapeByte(b)| < buffer.Length
      modifies buffer
      ensures next == p + |EscapeByte(b)| && buffer[..next] == old(buffer[..p]) + EscapeByte(b)
    {
      next := p + 1;
      if b > 31 && b != QUOTE && b != BACKSLASH {
        buffer[p] := b;
      } else {
        buffer[p] := BACKSLASH;
        if ShortEscape(b) != 0 {
          buffer[p + 1] := ShortEscape(b);
          next := p + 2;
        } else {
          buffer[p + 1], buffer[p + 2], buffer[p + 3] := 117, 48, 48;
          buffer[p + 4], buffer[p + 5], buffer[p + 6] := HexDigit(b / 16), HexDigit(b % 16), 0;
          next := p + 6;
        }
      }
      assert buffer[..p] == old(buffer[..p]);
      assert buffer[..next] == buffer[..p] + EscapeByte(b);
    }

    // ---------- containers ----------

    /** Reserves `needed` bytes and writes t in front of them. */
    method Put(t: Bytes, needed: nat) returns (ok: bool)
      requires Valid() && |t| <= needed
      modifies this`buffer, this`offset, buffer
      ensures Valid() && Kept(old(buffer), old(Limit())) && (buffer == old(buffer) || fresh(buffer))
      ensures ok <==> old(offset) + needed + 1 <= Limit()
      ensures ok ==> Written() == old(Written()) + t && offset < buffer.Length
    {
      ok := Ensure(needed);
      if ok {
        Append(t);
      }
    }

    /** The loop that indents by `depth` tabs. */
    method PutTabs(n: nat, needed: nat) returns (ok: bool)
      requires Valid() && n <= needed
      modifies this`buffer, this`offset, buffer
      ensures Valid() && Kept(old(buffer), old(Limit())) && (buffer == old(buffer) || fresh(buffer))
      ensures ok <==> old(offset) + needed + 1 <= Limit()
      ensures ok ==> Written() == old(Written()) + Tabs(n) && offset + (needed - n) + 1 <= buffer.Length
    {
      ok := Ensure(needed);
      if !ok {
        return;
      }
      ghost var w, room := Written(), buffer;
      assert Written() == w + Tabs(0);
      for i := 0 to n
        invariant buffer == room && Valid() && offset == old(offset) + i && Written() == w + Tabs(i)
      {
        ghost var before := Written();
        buffer[offset] := TAB;
        offset := offset + 1;
        assert buffer[..offset] == before + [TAB];
        assert w + Tabs(i) + [TAB] == w + (Tabs(i) + [TAB]);
      }
    }

    method PrintValue(v: Json) returns (ok: bool)
      requires Valid() && Printable(v)
      modifies this, buffer
      ensures Kept(old(buffer), old(Limit())) && (buffer == old(buffer) || fresh(buffer))
      ensures ok <==> |old(Written()) + Text(v, format, old(depth))| + 2 <= Limit()
      ensures ok ==> Ended(old(Written()) + Text(v, format, old(depth)))
      ensures ok ==> old(offset) <= offset && depth == old(depth)
      decreases v, 1
    {
      match v
      case Null => ok := PrintWord(NULL_TEXT);
      case False => ok := PrintWord(FALSE_TEXT);
      case True => ok := PrintWord(TRUE_TEXT);
      case Number(value) => ok := PrintNumber(value.Floor);
      case String(s) => ok := PrintString(s);
      case Array(items) => ok := PrintArray(items);
      case Object(members) => ok := PrintObject(members);
    }

    /** `print_value` followed by `update_offset`. */
    method PrintAndAdvance(v: Json) returns (ok: bool)
      requires Valid() && Printable(v)
      modifies this, buffer
      ensures Kept(old(buffer), old(Limit())) && (buffer == old(buffer) || fresh(buffer))
      ensures ok <==> |old(Written()) + Text(v, format, old(depth))| + 2 <= Limit()
      ensures ok ==> Valid() && Written() == old(Written()) + Text(v, format, old(depth)) && depth == old(depth)
      decreases v, 2
    {
      hide CJsonText.Text, CJsonTree.Printable;
      ok := PrintValue(v);
      if ok {
        CJsonRoundTrip.TextNulFree(v, format, depth);
        UpdateOffset(old(Written()) + Text(v, format, depth));
      }
    }

    method PrintArray(items: seq<Json>) returns (ok: bool)
      requires Valid() && forall x :: x in items ==> Printable(x)
      modifies this, buffer
      ensures Kept(old(buffer), old(Limit())) && (buffer == old(buffer) || fresh(buffer))
      ensures ok <==> |old(Written()) + Text(Array(items), format, old(depth))| + 2 <= Limit()
      ensures ok ==> Ended(old(Written()) + Text(Array(items), format, old(depth)))
      ensures ok ==> old(offset) <= offset && depth == old(depth)
      decreases items, 1
    {
      hide CJsonText.ItemsText, CJsonTree.Printable;
      ghost var w, rest := Written(), ItemsText(items, format, depth + 1);
      assert w + ([91] + rest) == w + [91] + rest;
      ItemsTextStep(items, 0, format, depth + 1);
      ok := Put([91], 1);
      if ok {
        depth := depth + 1;
        ok := PrintItems(items);
      }
    }

    /** The element loop and the closing bracket. */
    method PrintItems(items: seq<Json>) returns (ok: bool)
      requires Valid() && depth >= 1 && forall x :: x in items ==> Printable(x)
      modifies this, buffer
      ensures Kept(old(buffer), old(Limit())) && (buffer == old(buffer) || fresh(buffer))
      ensures ok <==> |old(Written()) + ItemsText(items, format, old(depth))| + 2 <= Limit()
      ensures ok ==> Ended(old(Written()) + ItemsText(items, format, old(depth)))
      ensures ok ==> old(offset) <= offset && depth == old(depth) - 1
      decreases items, 0
    {
      hide CJsonText.ItemsText, CJsonTree.Printable, CJsonText.ItemEnd, CJsonText.Text;
      ghost var goal := Written() + ItemsText(items, format, depth);
      ItemsTextStep(items, 0, format, depth);
      for i := 0 to |items|
        invariant Valid() && Kept(old(buffer), old(Limit())) && (buffer == old(buffer) || fresh(buffer))
        invariant depth == old(depth) && Written() + ItemsText(items[i..], format, depth) == goal
        invariant old(offset) <= offset
      {
        ItemsTextStep(items, i, format, depth);
        ghost var w := Written();
        ghost var t, e := Text(items[i], format, depth), ItemEnd(i + 1 == |items|, format);
        ghost var rest := ItemsText(items[i + 1..], format, depth);
        Regroup(w, t, e, rest);
        ok := PrintItem(items[i], i + 1 == |items|);
        if !ok {
          return;
        }
      }
      ItemsTextStep(items, |items|, format, depth);
      ok := Ensure(2);
      if ok {
        Store([93]);
        depth := depth - 1;
      }
    }

    method PrintItem(v: Json, last: bool) returns (ok: bool)
      requires Valid() && Printable(v)
      modifies this, buffer
      ensures Kept(old(buffer), old(Limit())) && (buffer == old(buffer) || fresh(buffer))
      ensures
        var w := old(Written()) + (Text(v, format, old(depth)) + ItemEnd(last, format));
        (ok <==> |w| + 2 <= Limit()) && (ok ==> Valid() && Written() == w && depth == old(depth))
      decreases v, 3
    {
      hide CJsonText.Text, CJsonTree.Printable;
      ghost var w, t, e := Written(), Text(v, format, depth), ItemEnd(last, format);
      assert w + (t + e) == w + t + e;
      ok := PrintAndAdvance(v);
      if ok && !last {
        ok := Put(ItemEnd(last, format), |ItemEnd(last, format)| + 1);
        if ok {
          ghost var done := Written();
          buffer[offset] := 0;
          assert Written() == done;
        }
      }
    }

    method PrintObject(members: seq<Member>) returns (ok: bool)
      requires Valid() && forall m :: m in members ==> NulFree(m.key) && Printable(m.value)
      modifies this, buffer
      ensures Kept(old(buffer), old(Limit())) && (buffer == old(buffer) || fresh(buffer))
      ensures ok <==> |old(Written()) + Text(Object(members), format, old(depth))| + 2 <= Limit()
      ensures ok ==> Ended(old(Written()) + Text(Object(members), format, old(depth)))
      ensures ok ==> old(offset) <= offset && depth == old(depth)
      decreases members, 1
    {
      hide CJsonText.MembersText, CJsonTree.Printable, CJsonText.Opening;
      ghost var w, open, rest := Written(), Opening(format), MembersText(members, format, depth + 1);
      assert w + (open + rest) == w + open + rest;
      MembersTextStep(members, 0, format, depth + 1);
      ok := Put(Opening(format), |Opening(format)| + 1);
      if ok {
        depth := depth + 1;
        ok := PrintMembers(members);
      }
    }

    /** The member loop and the closing brace. */
    method PrintMembers(members: seq<Member>) returns (ok: bool)
      requires Valid() && depth >= 1 && forall m :: m in members ==> NulFree(m.key) && Printable(m.value)
      modifies this, buffer
      ensures Kept(old(buffer), old(Limit())) && (buffer == old(buffer) || fresh(buffer))
      ensures ok <==> |old(Written()) + MembersText(members, format, old(depth))| + 2 <= Limit()
      ensures ok ==> Ended(old(Written()) + MembersText(members, format, old(depth)))
      ensures ok ==> old(offset) <= offset && depth == old(depth) - 1
      decreases members, 0
    {
      hide CJsonText.MembersText, CJsonText.MemberText, CJsonTree.Printable, CJsonTree.NulFree, CJsonText.Text;
      ghost var goal := Written() + MembersText(members, format, depth);
      MembersTextStep(members, 0, format, depth);
      for i := 0 to |members|
        invariant Valid() && Kept(old(buffer), old(Limit())) && (buffer == old(buffer) || fresh(buffer))
        invariant depth == old(depth) && Written() + MembersText(members[i..], format, depth) == goal
        invariant old(offset) <= offset
      {
        MembersTextStep(members, i, format, depth);
        ghost var w, rest := Written(), MembersText(members[i + 1..], format, depth);
        ghost var t := Text(members[i].value, format, depth);
        ghost var m := MemberText(members[i].key, t, i + 1 == |members|, format, depth);
        assert w + (m + rest) == w + m + rest;
        ok := PrintMember(members[i], i + 1 == |members|);
        if !ok {
          return;
        }
      }
      MembersTextStep(members, |members|, format, depth);
      ok := PrintClosing();
    }

    method PrintMember(m: Member, last: bool) returns (ok: bool)
      requires Valid() && NulFree(m.key) && Printable(m.value)
      modifies this, buffer
      ensures Kept(old(buffer), old(Limit())) && (buffer == old(buffer) || fresh(buffer))
      ensures
        var w := old(Written()) + MemberText(m.key, Text(m.value, format, old(depth)), last, format, old(depth));
        (ok <==> |w| + 2 <= Limit()) && (ok ==> Valid() && Written() == w && depth == old(depth))
      decreases m, 3
    {
      hide CJsonText.Text, CJsonTree.Printable, CJsonText.StringText, CJsonTree.NulFree;
      hide CJsonText.AfterKey, CJsonText.Indent;
      ghost var w, i, k := Written(), Indent(format, depth), StringText(m.key);
      ghost var a, t, e := AfterKey(format), Text(m.value, format, depth), MemberEnd(last, format);
      MemberRegroup(w, i, k, a, t, e);
      ok := PrintKey(m.key);
      if !ok {
        return;
      }
      ok := PrintAndAdvance(m.value);
      if !ok {
        return;
      }
      ok := Put(MemberEnd(last, format), |MemberEnd(last, format)| + 1);
      if ok {
        ghost var done := Written();
        buffer[offset] := 0;
        assert Written() == done;
      }
    }

    /** Indentation, key and colon; these three reserve one byte less than the rest. */
    method PrintKey(key: Bytes) returns (ok: bool)
      requires Valid() && NulFree(key)
      modifies this`buffer, this`offset, buffer
      ensures Kept(old(buffer), old(Limit())) && (buffer == old(buffer) || fresh(buffer))
      ensures
        var w := old(Written()) + (Indent(format, depth) + (StringText(key) + AfterKey(format)));
        (ok <==> |w| + 1 <= Limit()) && (ok ==> Valid() && Written() == w)
    {
      hide CJsonText.StringText, CJsonTree.NulFree;
      ghost var w, i, k, a := Written(), Indent(format, depth), StringText(key), AfterKey(format);
      assert w + (i + (k + a)) == w + i + k + a;
      if format {
        ok := PutTabs(depth, depth);
        if !ok {
          return;
        }
      }
      assert Written() == w + i;
      ok := PrintString(key);
      if !ok {
        return;
      }
      CJsonRoundTrip.StringTextNulFree(key);
      assert (w + i + k)[|w + i|..] == k;
      UpdateOffset(w + i + k) by {
        assert forall j :: |w + i| <= j < |w + i + k| ==> (w + i + k)[j] == k[j - |w + i|] != 0 by {
          NulFreeAt(k);
        }
      }
      ok := Put(AfterKey(format), |AfterKey(format)|);
    }

    /** The line of the closing brace, one tab less than its members. */
    method PrintClosing() returns (ok: bool)
      requires Valid() && depth >= 1
      modifies this, buffer
      ensures Kept(old(buffer), old(Limit())) && (buffer == old(buffer) || fresh(buffer))
      ensures
        var w := old(Written()) + (Indent(format, old(depth) - 1) + [125]);
        (ok <==> |w| + 2 <= Limit()) && (ok ==> Ended(w) && old(offset) <= offset && depth == old(depth) - 1)
    {
      ghost var w, i := Written(), Indent(format, depth - 1);
      assert w + (i + [125]) == w + i + [125];
      if format {
        ok := PutTabs(depth - 1, depth + 1);
      } else {
        ok := Ensure(2);
      }
      if ok {
        assert Written() == w + i;
        Store([125]);
        depth := depth - 1;
      }
    }
  }

  lemma {:induction false} ItemsTextStep(items: seq<Json>, i: nat, fmt: bool, depth: nat)
    requires i <= |items|
    ensures i == 0 ==> items[i..] == items
    ensures i == |items| ==> ItemsText(items[i..], fmt, depth) == [93]
    ensures i < |items| ==>
      ItemsText(items[i..], fmt, depth)
      == Text(items[i], fmt, depth) + (ItemEnd(i + 1 == |items|, fmt) + ItemsText(items[i + 1..], fmt, depth))
    ensures |ItemsText(items[i..], fmt, depth)| >= 1
    decreases |items| - i
  {
    hide CJsonText.Text;
    if i < |items| {
      assert items[i..][1..] == items[i + 1..];
      ItemsTextStep(items, i + 1, fmt, depth);
    }
  }

  lemma MembersTextStep(members: seq<Member>, i: nat, fmt: bool, depth: nat)
    requires i <= |members| && depth >= 1
    ensures i == 0 ==> members[i..] == members
    ensures i == |members| ==> MembersText(members[i..], fmt, depth) == Indent(fmt, depth - 1) + [125]
    ensures i < |members| ==>
      MembersText(members[i..], fmt, depth)
      == MemberText(members[i].key, Text(members[i].value, fmt, depth), i + 1 == |members|, fmt, depth)
         + MembersText(members[i + 1..], fmt, depth)
    ensures |MembersText(members[i..], fmt, depth)| >= 1
  {
    hide CJsonText.Text;
    if i < |members| {
      assert members[i..][1..] == members[i + 1..];
      var t := Text(members[i].value, fmt, depth);
      assert |MemberText(members[i].key, t, i + 1 == |members|, fmt, depth)| >= |StringText(members[i].key)| >= 2;
    }
  }

  lemma NulFreeAt(t: Bytes)
    requires NulFree(t)
    ensures forall i :: 0 <= i < |t| ==> t[i] != 0
  {
  }

  lemma MemberRegroup(w: Bytes, i: Bytes, k: Bytes, a: Bytes, t: Bytes, e: Bytes)
    ensures w + (i + (k + (a + (t + e)))) == w + (i + (k + a)) + t + e
  {
    assert i + (k + (a + (t + e))) == (i + (k + a)) + (t + e) by {
      assert k + (a + (t + e)) == (k + a) + (t + e);
    }
  }

  lemma Regroup(w: Bytes, t: Bytes, e: Bytes, rest: Bytes)
    ensures w + (t + (e + rest)) == w + (t + e) + rest
  {
    assert (t + e) + rest == t + (e + rest);
  }

  lemma Reassociate(w: Bytes, e: Bytes)
    ensures w + [QUOTE] + e + [QUOTE] == w + ([QUOTE] + (e + [QUOTE]))
  {
  }

  lemma EscapeStep(s: Bytes, i: nat)
    requires i <= |s|
    ensures i == 0 ==> s[i..] == s
    ensures i == |s| ==> Escape(s[i..]) == []
    ensures i < |s| ==> Escape(s[i..]) == EscapeByte(s[i]) + Escape(s[i + 1..])
  {
    if i < |s| {
      assert s[i..][1..] == s[i + 1..];
    }
  }

  lemma {:induction false} EscapeOfPlain(s: Bytes)
    ensures |Escape(s)| >= |s|
    ensures |Escape(s)| == |s| ==> Escape(s) == s
  {
    if s != [] {
      EscapeOfPlain(s[1..]);
    }
  }

  /** `cJSON_Print` and `cJSON_PrintUnformatted`: a buffer of 256 bytes to start with. */
  method Print(v: Json, format: bool) returns (r: Option<Bytes>)
    requires Printable(v)
    ensures r == if |Text(v, format, 0)| + 2 <= INT_MAX then Some(Text(v, format, 0)) else None
  {
    hide CJsonText.Text, CJsonTree.Printable;
    var start := new Byte[256];
    var p := new PrintBuffer(start, false, format);
    assert p.Written() == [];
    ghost var goal := Text(v, format, 0);
    assert [] + goal == goal;
    var ok := p.PrintAndAdvance(v);
    if !ok {
      return None;
    }
    return Some(p.buffer[..p.offset]);
  }

  /** `cJSON_PrintBuffered`: the caller guesses the size, and the guess does not matter. */
  method PrintBuffered(v: Json, prebuffer: int, format: bool) returns (r: Option<Bytes>)
    requires Printable(v) && prebuffer <= INT_MAX
    ensures r == if prebuffer >= 0 && |Text(v, format, 0)| + 2 <= INT_MAX then Some(Text(v, format, 0)) else None
  {
    hide CJsonText.Text, CJsonTree.Printable;
    if prebuffer < 0 {
      return None;
    }
    var start := new Byte[prebuffer];
    var p := new PrintBuffer(start, false, format);
    assert p.Written() == [];
    ghost var goal := Text(v, format, 0);
    assert [] + goal == goal;
    var ok := p.PrintValue(v);
    if !ok {
      return None;
    }
    var text := CString(p.buffer, goal) by {
      CJsonRoundTrip.TextNulFree(v, format, 0);
    }
    return Some(text);
  }

  /** What a reader of the C string in b sees. */
  method CString(b: array<Byte>, ghost t: Bytes) returns (r: Bytes)
    requires |t| < b.Length && b[..|t|] == t && b[|t|] == 0 && NulFree(t)
    ensures r == t
  {
    var n := 0;
    assert forall i :: 0 <= i < |t| ==> b[i] == b[..|t|][i];
    while b[n] != 0
      invariant n <= |t| && forall i :: n <= i < |t| ==> b[i] != 0
      decreases |t| - n
    {
      assert n != |t|;
      n := n + 1;
    }
    return b[..n];
  }

  /** `cJSON_PrintPreallocated`: succeeds exactly when the buffer has two bytes more than the text. */
  method PrintPreallocated(v: Json, buf: array<Byte>, format: bool) returns (ok: bool)
    requires Printable(v) && buf.Length <= INT_MAX
    modifies buf
    ensures ok <==> |Text(v, format, 0)| + 2 <= buf.Length
    ensures ok ==> buf[..|Text(v, format, 0)|] == Text(v, format, 0) && buf[|Text(v, format, 0)|] == 0
  {
    hide CJsonText.Text, CJsonTree.Printable;
    var p := new PrintBuffer(buf, true, format);
    assert p.Written() == [];
    ghost var goal := Text(v, format, 0);
    assert [] + goal == goal;
    ok := p.PrintValue(v);
  }
}
