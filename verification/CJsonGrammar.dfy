/** What a parse of a NUL-terminated buffer is meant to return, position by position. */
module CJsonGrammar {
  import opened Collections
  import opened CJsonTree
  import opened CJsonText

  /** What a parse returns: where it stopped short, or the value and the position behind it. */
  datatype Parsed<+T> = Failed(at: nat) | Done(value: T, next: nat)

  /** A C string with its terminator: the buffer that `cJSON_ParseWithOpts` sets up. */
  ghost predicate Terminated(c: Bytes) {
    |c| > 0 && c[|c| - 1] == 0 && forall i :: 0 <= i < |c| - 1 ==> c[i] != 0
  }

  /** The next byte above 32, or the terminator when there is none. */
  function SkipWhitespace(c: Bytes, p: nat): (r: nat)
    requires |c| > 0 && p <= |c|
    ensures r < |c| && (p < |c| ==> p <= r) && (p == |c| ==> r == |c| - 1)
    ensures c[r] > 32 || r == |c| - 1
    decreases |c| - p
  {
    if p < |c| && c[p] <= 32 then SkipWhitespace(c, p + 1) else if p == |c| then p - 1 else p
  }

  // ---------- numbers ----------

  predicate IsDigit(b: Byte) { 48 <= b <= 57 }

  predicate NumberByte(b: Byte) {
    IsDigit(b) || b == 43 || b == 45 || b == 101 || b == 69 || b == 46
  }

  /** Where the run of number bytes starting at p ends, at most `room` bytes on. */
  function NumberEnd(c: Bytes, p: nat, room: nat): (r: nat)
    requires p <= |c|
    ensures p <= r <= |c| && r <= p + room
    ensures forall i :: p <= i < r ==> NumberByte(c[i])
    decreases room
  {
    if room == 0 || p == |c| || !NumberByte(c[p]) then p else NumberEnd(c, p + 1, room - 1)
  }

  function DigitsEnd(t: Bytes, i: nat): (r: nat)
    requires i <= |t|
    ensures i <= r <= |t|
    ensures forall k :: i <= k < r ==> IsDigit(t[k])
    ensures r < |t| ==> !IsDigit(t[r])
    decreases |t| - i
  {
    if i < |t| && IsDigit(t[i]) then DigitsEnd(t, i + 1) else i
  }

  function DigitsValue(t: Bytes): nat
    requires forall k :: 0 <= k < |t| ==> IsDigit(t[k])
  {
    if t == [] then 0
    else
      assert IsDigit(t[|t| - 1]);
      var last: int := t[|t| - 1];
      DigitsValue(t[..|t| - 1]) * 10 + (last - 48)
  }

  function PowerOfTen(n: nat): (r: real)
    ensures r > 0.0
  {
    if n == 0 then 1.0 else 10.0 * PowerOfTen(n - 1)
  }

  function Scale(m: real, up: bool, e: nat): real {
    if up then m * PowerOfTen(e) else m / PowerOfTen(e)
  }

  function SignLength(t: Bytes): (s: nat)
    ensures s <= |t|
  {
    if |t| > 0 && (t[0] == 45 || t[0] == 43) then 1 else 0
  }

  /** Where the fraction behind the digits that end at i ends. */
  function FractionEnd(t: Bytes, i: nat): (f: nat)
    requires i <= |t|
    ensures i <= f <= |t| && forall k :: i + 1 <= k < f ==> IsDigit(t[k])
  {
    if i < |t| && t[i] == 46 then DigitsEnd(t, i + 1) else i
  }

  function FractionOf(t: Bytes, i: nat, f: nat): Bytes
    requires i <= f <= |t|
  {
    if f > i then t[i + 1..f] else []
  }

  /** The digits in [s, i) and the fraction in [i, f), as a number. */
  function Mantissa(t: Bytes, s: nat, i: nat, f: nat): real
    requires s <= i <= f <= |t| && forall k :: s <= k < i ==> IsDigit(t[k])
    requires forall k :: i + 1 <= k < f ==> IsDigit(t[k])
  {
    var fraction := FractionOf(t, i, f);
    var digits := t[s..i] + fraction;
    assert forall k :: 0 <= k < |digits| ==> IsDigit(digits[k]) by {
      assert forall k :: 0 <= k < i - s ==> digits[k] == t[s + k];
      assert forall k :: i - s <= k < |digits| ==> digits[k] == t[i + 1 + (k - (i - s))];
    }
    var m := Scale(DigitsValue(digits) as real, false, |fraction|);
    if s == 1 && t[0] == 45 then -m else m
  }

  /** Where the digits of an exponent marked at f begin. */
  function ExponentStart(t: Bytes, f: nat): (k: nat)
    ensures f < k <= f + 2
  {
    if f + 1 < |t| && (t[f + 1] == 43 || t[f + 1] == 45) then f + 2 else f + 1
  }

  /** `strtod` on a token of number bytes: how much it consumes and the exact decimal value. */
  function Strtod(t: Bytes): (r: (nat, real))
    ensures r.0 <= |t|
  {
    var s := SignLength(t);
    var i := DigitsEnd(t, s);
    var f := FractionEnd(t, i);
    if i == s && FractionOf(t, i, f) == [] then (0, 0.0)
    else
      var signed := Mantissa(t, s, i, f);
      var k := ExponentStart(t, f);
      if f < |t| && (t[f] == 101 || t[f] == 69) && k < |t| && IsDigit(t[k]) then
        var e := DigitsEnd(t, k);
        (e, Scale(signed, t[f + 1] != 45, DigitsValue(t[k..e])))
      else (f, signed)
  }

  function ParseNumber(c: Bytes, p: nat): (r: Parsed<Json>)
    requires p < |c|
    ensures if r.Done? then r.value.Number? && p < r.next <= |c| && r.next <= p + 63 else r.at == p
    ensures r.Done? ==> forall i :: p <= i < r.next ==> NumberByte(c[i])
  {
    var token := c[p..NumberEnd(c, p, 63)];
    var (n, value) := Strtod(token);
    if n == 0 then Failed(p)
    else
      assert forall i :: p <= i < p + n ==> c[i] == token[i - p];
      Done(Number(value), p + n)
  }

  // ---------- strings ----------

  function HexValue(b: Byte): (r: int)
    ensures -1 <= r < 16
  {
    if 48 <= b <= 57 then b - 48
    else if 65 <= b <= 70 then 10 + b - 65
    else if 97 <= b <= 102 then 10 + b - 97
    else -1
  }

  /** The four hexadecimal digits at p; 0 if any of them is not one. */
  function Hex4(c: Bytes, p: nat): (r: nat)
    requires p + 4 <= |c|
    ensures r < 0x10000
  {
    var a, b, d, e := HexValue(c[p]), HexValue(c[p + 1]), HexValue(c[p + 2]), HexValue(c[p + 3]);
    if a < 0 || b < 0 || d < 0 || e < 0 then 0 else ((a * 16 + b) * 16 + d) * 16 + e
  }

  predicate HighSurrogate(n: nat) { 0xD800 <= n <= 0xDBFF }

  predicate LowSurrogate(n: nat) { 0xDC00 <= n <= 0xDFFF }

  predicate ScalarValue(n: nat) { n < 0xD800 || 0xE000 <= n <= 0x10FFFF }

  type Scalar = n: nat | ScalarValue(n)

  /** One `\uXXXX` or a surrogate pair of them: the code point and the bytes read. */
  function Utf16Literal(c: Bytes, p: nat, end: nat): (r: Parsed<Scalar>)
    requires p < end <= |c|
    ensures r.Done? ==> (r.next == p + 6 && r.value < 0x10000) || (r.next == p + 12 && r.value >= 0x10000)
    ensures if r.Done? then r.next <= end else r.at == p
  {
    if end - p < 6 then Failed(p)
    else
      var first := Hex4(c, p + 2);
      if LowSurrogate(first) then Failed(p)
      else if HighSurrogate(first) then
        if end - (p + 6) < 6 || c[p + 6] != BACKSLASH || c[p + 7] != 117 then Failed(p)
        else
          var second := Hex4(c, p + 8);
          if !LowSurrogate(second) then Failed(p)
          else Done(0x10000 + (first % 0x400) * 0x400 + second % 0x400, p + 12)
      else Done(first, p + 6)
  }

  /** A continuation byte of UTF-8: 10xxxxxx with the low six bits of n. */
  function Continuation(n: nat): Byte { 0x80 + n % 0x40 }

  /** The encoding of section 3 of RFC 3629. */
  function Utf8(n: Scalar): (r: Bytes)
    ensures 1 <= |r| <= 4 && (n < 0x10000 ==> |r| <= 3)
  {
    if n < 0x80 then [n]
    else if n < 0x800 then [0xC0 + n / 0x40, Continuation(n)]
    else if n < 0x10000 then [0xE0 + n / 0x1000, Continuation(n / 0x40), Continuation(n)]
    else
      assert ScalarValue(n) && n < 5 * 0x40000;
      [0xF0 + n / 0x40000, Continuation(n / 0x1000), Continuation(n / 0x40), Continuation(n)]
  }

  /** The byte a two-character escape stands for; 0 if the letter names none. */
  function Unshort(b: Byte): Byte {
    if b == 98 then 8 else if b == 102 then 12 else if b == 110 then 10 else if b == 114 then 13
    else if b == 116 then 9 else if b == 34 || b == 92 || b == 47 then b else 0
  }

  /** The first pass of `parse_string`: the closing quote, or |c| when there is none. */
  function StringEnd(c: Bytes, p: nat): (r: nat)
    requires p <= |c|
    ensures p <= r <= |c| && (r < |c| ==> c[r] == QUOTE)
    decreases |c| - p
  {
    if p == |c| || c[p] == QUOTE then p
    else if c[p] != BACKSLASH then StringEnd(c, p + 1)
    else if p + 1 == |c| then |c|
    else StringEnd(c, p + 2)
  }

  /** The second pass: the bytes that [p, end) stands for. */
  function Unescape(c: Bytes, p: nat, end: nat): (r: Parsed<Bytes>)
    requires end < |c| && p <= end + 1
    ensures r.Failed? ==> p <= r.at < end
    decreases |c| - p
  {
    if p >= end then Done([], p)
    else if c[p] != BACKSLASH then Prepend([c[p]], Unescape(c, p + 1, end))
    else if Unshort(c[p + 1]) != 0 then Prepend([Unshort(c[p + 1])], Unescape(c, p + 2, end))
    else if c[p + 1] != 117 then Failed(p)
    else
      match Utf16Literal(c, p, end)
      case Failed(at) => Failed(at)
      case Done(n, next) => Prepend(Utf8(n), Unescape(c, next, end))
  }

  function Prepend(head: Bytes, tail: Parsed<Bytes>): (r: Parsed<Bytes>)
    ensures if tail.Failed? then r == tail else r.Done? && r.next == tail.next
  {
    match tail
    case Failed(at) => Failed(at)
    case Done(value, next) => Done(head + value, next)
  }

  function ParseString(c: Bytes, p: nat): (r: Parsed<Bytes>)
    requires p < |c|
    ensures if r.Done? then p < r.next <= |c| && c[r.next - 1] == QUOTE else r.at <= |c|
  {
    if c[p] != QUOTE then Failed(p + 1)
    else
      var end := StringEnd(c, p + 1);
      if end == |c| then Failed(p + 1)
      else
        match Unescape(c, p + 1, end)
        case Failed(at) => Failed(at)
        case Done(value, _) => Done(value, end + 1)
  }

  // ---------- values ----------

  /** The bytes t stand in c from p on. */
  ghost predicate At(c: Bytes, p: nat, t: Bytes) {
    p + |t| <= |c| && forall i :: 0 <= i < |t| ==> c[p + i] == t[i]
  }

  /** A keyword stands in c at p: `strncmp` on the bytes that are left. */
  predicate Keyword(c: Bytes, p: nat, word: Bytes)
    requires |word| >= 4
  {
    && p + |word| <= |c|
    && c[p] == word[0] && c[p + 1] == word[1] && c[p + 2] == word[2] && c[p + 3] == word[3]
    && (|word| > 4 ==> c[p + |word| - 1] == word[|word| - 1])
  }

  function ParseValue(c: Bytes, p: nat, depth: int): (r: Parsed<Json>)
    requires Terminated(c) && p < |c|
    ensures if r.Done? then p < r.next < |c| else r.at <= |c|
    decreases |c| - p, 1
  {
    if Keyword(c, p, NULL_TEXT) then Done(Null, p + 4)
    else if Keyword(c, p, FALSE_TEXT) then Done(False, p + 5)
    else if Keyword(c, p, TRUE_TEXT) then Done(True, p + 4)
    else if c[p] == QUOTE then
      match ParseString(c, p)
      case Failed(at) => Failed(at)
      case Done(s, next) => Done(String(s), next)
    else if c[p] == 45 || IsDigit(c[p]) then ParseNumber(c, p)
    else if c[p] == 91 then
      if depth >= NESTING_LIMIT then Failed(p)
      else
        var first := SkipWhitespace(c, p + 1);
        if c[first] == 93 then Done(Array([]), first + 1)
        else
          match ParseItems(c, first, depth + 1)
          case Failed(at) => Failed(at)
          case Done(items, next) => Done(Array(items), next)
    else if c[p] == 123 then
      if depth >= NESTING_LIMIT then Failed(p)
      else
        var first := SkipWhitespace(c, p + 1);
        if c[first] == 125 then Done(Object([]), first + 1)
        else
          match ParseMembers(c, first, depth + 1)
          case Failed(at) => Failed(at)
          case Done(members, next) => Done(Object(members), next)
    else Failed(p)
  }

  /** Elements from the one starting at p through the closing bracket. */
  function ParseItems(c: Bytes, p: nat, depth: int): (r: Parsed<seq<Json>>)
    requires Terminated(c) && p < |c|
    ensures if r.Done? then p < r.next < |c| && |r.value| > 0 else r.at <= |c|
    decreases |c| - p, 2
  {
    match ParseValue(c, p, depth)
    case Failed(at) => Failed(at)
    case Done(v, next) =>
      var q := SkipWhitespace(c, next);
      if c[q] == COMMA then
        match ParseItems(c, SkipWhitespace(c, q + 1), depth)
        case Failed(at) => Failed(at)
        case Done(rest, end) => Done([v] + rest, end)
      else if c[q] == 93 then Done([v], q + 1)
      else Failed(q)
  }

  /** A key, a colon and a value. */
  function ParseMember(c: Bytes, p: nat, depth: int): (r: Parsed<Member>)
    requires Terminated(c) && p < |c|
    ensures if r.Done? then p < r.next < |c| else r.at <= |c|
    decreases |c| - p, 2
  {
    match ParseString(c, p)
    case Failed(at) => Failed(at)
    case Done(key, afterKey) =>
      var colon := SkipWhitespace(c, afterKey);
      if c[colon] != COLON then Failed(colon)
      else
        match ParseValue(c, SkipWhitespace(c, colon + 1), depth)
        case Failed(at) => Failed(at)
        case Done(v, next) => Done(Member(key, v), next)
  }

  /** Members from the one whose key starts at p through the closing brace. */
  function ParseMembers(c: Bytes, p: nat, depth: int): (r: Parsed<seq<Member>>)
    requires Terminated(c) && p < |c|
    ensures if r.Done? then p < r.next < |c| && |r.value| > 0 else r.at <= |c|
    decreases |c| - p, 3
  {
    match ParseMember(c, p, depth)
    case Failed(at) => Failed(at)
    case Done(m, next) =>
      var q := SkipWhitespace(c, next);
      if c[q] == COMMA then
        match ParseMembers(c, SkipWhitespace(c, q + 1), depth)
        case Failed(at) => Failed(at)
        case Done(rest, end) => Done([m] + rest, end)
      else if c[q] == 125 then Done([m], q + 1)
      else Failed(q)
  }

  /** Where parsing starts: behind a byte order mark, if more than one byte follows it. */
  function SkipBom(c: Bytes): nat
  {
    if |c| > 4 && c[0] == 0xEF && c[1] == 0xBB && c[2] == 0xBF then 3 else 0
  }

  /** `cJSON_ParseWithOpts` on a C string: the item and the position where the parse ended, or the position that
      is reported as the error. */
  function ParseText(text: Bytes, requireNul: bool): (r: Parsed<Json>)
    requires NulFree(text)
    ensures if r.Done? then r.next <= |text| else r.at <= |text|
  {
    var c := text + [0];
    match ParseValue(c, SkipWhitespace(c, SkipBom(c)), 0)
    case Failed(at) => Failed(if at < |c| then at else |c| - 1)
    case Done(v, next) =>
      if !requireNul then Done(v, next)
      else
        var end := SkipWhitespace(c, next);
        if c[end] == 0 then Done(v, end) else Failed(end)
  }
}
