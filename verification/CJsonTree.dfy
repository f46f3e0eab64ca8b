/** The trees of cJSON, and the text that the printer is meant to write for them. */
module CJsonTree {
  import opened Collections

  /** An item. The chain of children hanging off `child` is a sequence here. */
  datatype Json =
    | Null
    | False
    | True
    | Number(value: real)
    | String(text: Bytes)
    | Array(items: seq<Json>)
    | Object(members: seq<Member>)

  datatype Member = Member(key: Bytes, value: Json)

  const NESTING_LIMIT: nat := 1000

  /** How many containers are nested inside one another. */
  function Height(v: Json): nat
    decreases v, 1
  {
    match v
    case Array(items) => 1 + ItemsHeight(items)
    case Object(members) => 1 + MembersHeight(members)
    case _ => 0
  }

  function ItemsHeight(items: seq<Json>): nat
    decreases items, 0
  {
    if items == [] then 0 else Max(Height(items[0]), ItemsHeight(items[1..]))
  }

  function MembersHeight(members: seq<Member>): nat
    decreases members, 0
  {
    if members == [] then 0 else Max(Height(members[0].value), MembersHeight(members[1..]))
  }

  function Max(a: nat, b: nat): nat {
    if a < b then b else a
  }

  ghost predicate NulFree(s: Bytes) {
    forall i :: 0 <= i < |s| ==> s[i] != 0
  }

  /** The C string that starts with s: what `strcmp` and `strlen` see of it. */
  function UpToNul(s: Bytes): (r: Bytes)
    ensures NulFree(r) && (r == s <==> NulFree(s))
  {
    if s == [] || s[0] == 0 then [] else [s[0]] + UpToNul(s[1..])
  }

  /** It is what stands in front of the first NUL. */
  lemma {:induction false} UpToNulIsPrefix(s: Bytes)
    ensures var r := UpToNul(s); r <= s && (|r| < |s| ==> s[|r|] == 0)
    decreases |s|
  {
    if s != [] && s[0] != 0 {
      UpToNulIsPrefix(s[1..]);
    }
  }

  /** The numbers `%1.15g` writes as plain decimal digits. */
  ghost predicate PlainInteger(r: real) {
    r == r.Floor as real && -1_000_000_000_000_000 < r.Floor < 1_000_000_000_000_000
  }

  lemma PlainIntegersAre(n: int)
    ensures PlainInteger(n as real) <==> -1_000_000_000_000_000 < n < 1_000_000_000_000_000
  {
    assert (n as real).Floor == n;
  }

  /** Strings are C strings and numbers are integers below 10^15 in magnitude. */
  ghost predicate Printable(v: Json) {
    match v
    case Number(r) => PlainInteger(r)
    case String(s) => NulFree(s)
    case Array(items) => forall x :: x in items ==> Printable(x)
    case Object(members) => forall m :: m in members ==> NulFree(m.key) && Printable(m.value)
    case _ => true
  }
}

/** The text of a tree: what `print_value` must leave in its buffer. */
module CJsonText {
  import opened Collections
  import opened CJsonTree

  const QUOTE: Byte := 34
  const BACKSLASH: Byte := 92
  const COMMA: Byte := 44
  const COLON: Byte := 58
  const TAB: Byte := 9
  const NEWLINE: Byte := 10
  const SPACE: Byte := 32
  const NULL_TEXT: Bytes := [110, 117, 108, 108]
  const FALSE_TEXT: Bytes := [102, 97, 108, 115, 101]
  const TRUE_TEXT: Bytes := [116, 114, 117, 101]

  function HexDigit(n: nat): Byte
    requires n < 16
  {
    if n < 10 then 48 + n else 87 + n
  }

  /** The letter of a two-character escape, if the byte has one. */
  function ShortEscape(b: Byte): (r: Byte)
    ensures r == 0 || r in {QUOTE, BACKSLASH, 98, 102, 110, 114, 116}
  {
    if b == 34 then 34 else if b == 92 then 92 else if b == 8 then 98 else if b == 12 then 102
    else if b == 10 then 110 else if b == 13 then 114 else if b == 9 then 116 else 0
  }

  function EscapeByte(b: Byte): Bytes {
    if ShortEscape(b) != 0 then [BACKSLASH, ShortEscape(b)]
    else if b < 32 then [BACKSLASH, 117, 48, 48, HexDigit(b / 16), HexDigit(b % 16)]
    else [b]
  }

  function Escape(s: Bytes): Bytes {
    if s == [] then [] else EscapeByte(s[0]) + Escape(s[1..])
  }

  function StringText(s: Bytes): Bytes {
    [QUOTE] + (Escape(s) + [QUOTE])
  }

  function Digits(n: nat): (r: Bytes)
    ensures |r| >= 1 && forall i :: 0 <= i < |r| ==> 48 <= r[i] <= 57
  {
    if n < 10 then [48 + n] else Digits(n / 10) + [48 + n % 10]
  }

  function Abs(n: int): nat {
    if n < 0 then -n else n
  }

  function Sign(n: int): Bytes {
    if n < 0 then [45] else []
  }

  function NumberText(n: int): Bytes {
    Sign(n) + Digits(Abs(n))
  }

  function Tabs(n: nat): (r: Bytes)
    ensures |r| == n && forall i :: 0 <= i < n ==> r[i] == TAB
  {
    if n == 0 then [] else Tabs(n - 1) + [TAB]
  }

  /** What stands between an element and the rest of its array. */
  function ItemEnd(last: bool, fmt: bool): Bytes {
    if last then [] else if fmt then [COMMA, SPACE] else [COMMA]
  }

  /** What follows a member: the comma unless it is the last one, and a line break when formatting. */
  function MemberEnd(last: bool, fmt: bool): Bytes {
    if last then if fmt then [NEWLINE] else []
    else if fmt then [COMMA, NEWLINE] else [COMMA]
  }

  function Indent(fmt: bool, depth: nat): Bytes {
    if fmt then Tabs(depth) else []
  }

  function AfterKey(fmt: bool): Bytes {
    if fmt then [COLON, TAB] else [COLON]
  }

  function Opening(fmt: bool): Bytes {
    if fmt then [123, NEWLINE] else [123]
  }

  function Text(v: Json, fmt: bool, depth: nat): Bytes
    decreases v, 1
  {
    match v
    case Null => NULL_TEXT
    case False => FALSE_TEXT
    case True => TRUE_TEXT
    case Number(value) => NumberText(value.Floor)
    case String(s) => StringText(s)
    case Array(items) => [91] + ItemsText(items, fmt, depth + 1)
    case Object(members) => Opening(fmt) + MembersText(members, fmt, depth + 1)
  }

  /** The rest of an array from its next element on, closing bracket included. */
  function ItemsText(items: seq<Json>, fmt: bool, depth: nat): Bytes
    decreases items, 0
  {
    if items == [] then [93]
    else Text(items[0], fmt, depth) + (ItemEnd(|items| == 1, fmt) + ItemsText(items[1..], fmt, depth))
  }

  /** The rest of an object from its next member on, closing brace included. */
  function MembersText(members: seq<Member>, fmt: bool, depth: nat): Bytes
    requires depth >= 1
    decreases members, 0
  {
    if members == [] then Indent(fmt, depth - 1) + [125]
    else
      MemberText(members[0].key, Text(members[0].value, fmt, depth), |members| == 1, fmt, depth)
      + MembersText(members[1..], fmt, depth)
  }

  /** One member, given the text of its value. */
  function MemberText(key: Bytes, value: Bytes, last: bool, fmt: bool, depth: nat): Bytes {
    Indent(fmt, depth) + (StringText(key) + (AfterKey(fmt) + (value + MemberEnd(last, fmt))))
  }
}
