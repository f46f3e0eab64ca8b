/** Escaped Unicode text: what `\uXXXX` and surrogate pairs become, and that nothing is lost. */
module CJsonUnicode {
  import opened Collections
  import opened CJsonText
  import opened CJsonGrammar
  import opened CJsonLayout
  import opened CJsonLiterals

  // ---------- UTF-8, section 3 of RFC 3629 ----------

  function Utf8All(ns: seq<Scalar>): Bytes {
    if ns == [] then [] else Utf8(ns[0]) + Utf8All(ns[1..])
  }

  predicate IsContinuation(b: Byte) { 0x80 <= b <= 0xBF }

  /** The length that the first byte of a sequence announces; 0 if it cannot start one. */
  function LeadLength(b: Byte): nat {
    if b < 0x80 then 1
    else if 0xC0 <= b <= 0xDF then 2
    else if 0xE0 <= b <= 0xEF then 3
    else if 0xF0 <= b <= 0xF7 then 4
    else 0
  }

  /** The number in the payload bits of a sequence. */
  function Payload(b: Bytes): (r: nat)
    requires 1 <= |b| <= 4 && |b| == LeadLength(b[0])
    requires forall i :: 1 <= i < |b| ==> IsContinuation(b[i])
  {
    var lead: int := b[0];
    if |b| == 1 then lead
    else
      assert IsContinuation(b[1]);
      var x: int := b[1];
      if |b| == 2 then (lead - 0xC0) * 0x40 + (x - 0x80)
      else
        assert IsContinuation(b[2]);
        var y: int := b[2];
        if |b| == 3 then ((lead - 0xE0) * 0x40 + (x - 0x80)) * 0x40 + (y - 0x80)
        else
          assert IsContinuation(b[3]);
          var z: int := b[3];
          (((lead - 0xF0) * 0x40 + (x - 0x80)) * 0x40 + (y - 0x80)) * 0x40 + (z - 0x80)
  }

  /** The least number that needs a sequence of n bytes: shorter ones are overlong. */
  function LeastOfLength(n: nat): nat {
    if n <= 1 then 0 else if n == 2 then 0x80 else if n == 3 then 0x800 else 0x10000
  }

  datatype Decoded = Malformed | Decoded(scalars: seq<Scalar>)

  /** A strict decoder: no stray continuation, nothing overlong, no surrogate, nothing above U+10FFFF. */
  function Utf8Decode(b: Bytes): Decoded {
    if b == [] then Decoded([])
    else
      var n := LeadLength(b[0]);
      if n == 0 || n > |b| || exists i :: 1 <= i < n && !IsContinuation(b[i]) then Malformed
      else
        var v := Payload(b[..n]);
        if v < LeastOfLength(n) || !ScalarValue(v) then Malformed
        else
          match Utf8Decode(b[n..])
          case Malformed => Malformed
          case Decoded(rest) => Decoded([v] + rest)
  }

  lemma Utf8IsWellFormed(n: Scalar)
    ensures var b := Utf8(n);
      && |b| == LeadLength(b[0]) && (forall i :: 1 <= i < |b| ==> IsContinuation(b[i]))
      && Payload(b) == n && LeastOfLength(|b|) <= n
  {
    assert ScalarValue(n);
    var a := n / 0x40;
    var d := a / 0x40;
    assert n / 0x1000 == d && n / 0x40000 == d / 0x40;
    assert n == a * 0x40 + n % 0x40 && a == d * 0x40 + a % 0x40 && d == d / 0x40 * 0x40 + d % 0x40;
  }

  lemma {:induction false} DecodeEncode(ns: seq<Scalar>)
    ensures Utf8Decode(Utf8All(ns)) == Decoded(ns)
  {
    if ns != [] {
      var u, rest := Utf8(ns[0]), Utf8All(ns[1..]);
      hide CJsonGrammar.Utf8, Payload;
      DecodeEncode(ns[1..]);
      Utf8IsWellFormed(ns[0]);
      assert forall i :: 0 <= i < |u| ==> (u + rest)[i] == u[i];
      assert (u + rest)[..|u|] == u && (u + rest)[|u|..] == rest;
      assert [ns[0]] + ns[1..] == ns;
    }
  }

  // ---------- escapes, section 7 of RFC 8259 and section 2.2 of RFC 2781 ----------

  /** t is `\uXXXX` for the 16-bit code n, in digits of either case. */
  ghost predicate IsUnit(t: Bytes, n: nat) {
    |t| == 6 && t[0] == '\\' as int && t[1] == 'u' as int && FourHex(t[2..], n)
  }

  /** The parser's reading of one digit is the right one. */
  lemma HexMeans(b: Byte)
    ensures HexValue(b) >= 0 <==> IsHexDigit(b)
    ensures forall v: nat :: IsHex(b, v) <==> HexValue(b) == v
  {
    forall v: nat | v < 16 ensures IsHex(b, v) <==> HexValue(b) == v {
      assert LOWER[0] == '0' && LOWER[1] == '1' && LOWER[2] == '2' && LOWER[3] == '3' && LOWER[4] == '4';
      assert LOWER[5] == '5' && LOWER[6] == '6' && LOWER[7] == '7' && LOWER[8] == '8' && LOWER[9] == '9';
      assert LOWER[10] == 'a' && LOWER[11] == 'b' && LOWER[12] == 'c' && LOWER[13] == 'd';
      assert LOWER[14] == 'e' && LOWER[15] == 'f';
      assert UPPER[..10] == LOWER[..10] && UPPER[v] == if v < 10 then UPPER[..10][v] else UPPER[v];
      assert UPPER[10] == 'A' && UPPER[11] == 'B' && UPPER[12] == 'C' && UPPER[13] == 'D';
      assert UPPER[14] == 'E' && UPPER[15] == 'F';
    }
  }

  /** And so is its reading of four: the value of four digits, or 0 if one of the bytes is none. */
  lemma Hex4Means(c: Bytes, p: nat, n: nat)
    requires p + 4 <= |c|
    ensures var digits := forall i :: p <= i < p + 4 ==> IsHexDigit(c[i]);
      if digits then Hex4(c, p) == n <==> FourHex(c[p..p + 4], n) else Hex4(c, p) == 0 && !FourHex(c[p..p + 4], n)
  {
    hide CJsonGrammar.HexValue, IsHex, IsHexDigit;
    HexMeans(c[p]);
    HexMeans(c[p + 1]);
    HexMeans(c[p + 2]);
    HexMeans(c[p + 3]);
    var a, b, d, e := HexValue(c[p]), HexValue(c[p + 1]), HexValue(c[p + 2]), HexValue(c[p + 3]);
    if a >= 0 && b >= 0 && d >= 0 && e >= 0 {
      FourPlaces(a, b, d, e, n);
    }
  }

  lemma FourPlaces(a: nat, b: nat, d: nat, e: nat, n: nat)
    requires a < 16 && b < 16 && d < 16 && e < 16
    ensures n == ((a * 16 + b) * 16 + d) * 16 + e
       <==> n < 0x10000 && n / 0x1000 == a && n / 0x100 % 0x10 == b && n / 0x10 % 0x10 == d && n % 0x10 == e
  {
    var x := n / 0x10;
    var y := x / 0x10;
    assert n / 0x100 == y && n / 0x1000 == y / 0x10;
  }

  lemma UnitDigits(t: Bytes, n: nat)
    requires IsUnit(t, n)
    ensures n < 0x10000 && (forall i :: 2 <= i < 6 ==> IsHexDigit(t[i])) && Hex4(t, 2) == n
  {
    hide IsHex, CJsonGrammar.Hex4, CJsonGrammar.HexValue;
    HexMeans(t[2]);
    HexMeans(t[3]);
    HexMeans(t[4]);
    HexMeans(t[5]);
    Hex4Means(t, 2, n);
    assert t[2..6] == t[2..];
  }

  function HighHalf(n: nat): nat
    requires n >= 0x10000
  {
    0xD800 + (n - 0x10000) / 0x400
  }

  function LowHalf(n: nat): nat
    requires n >= 0x10000
  {
    0xDC00 + (n - 0x10000) % 0x400
  }

  /** t writes the scalar value n: one unit, or the surrogate pair. */
  ghost predicate IsEscapeOf(t: Bytes, n: Scalar) {
    if n < 0x10000 then IsUnit(t, n)
    else |t| == 12 && IsUnit(t[..6], HighHalf(n)) && IsUnit(t[6..], LowHalf(n))
  }

  ghost predicate AreEscapesOf(ts: seq<Bytes>, ns: seq<Scalar>) {
    |ts| == |ns| && forall i :: 0 <= i < |ts| ==> IsEscapeOf(ts[i], ns[i])
  }

  function Flatten(ts: seq<Bytes>): Bytes {
    if ts == [] then [] else ts[0] + Flatten(ts[1..])
  }

  /** A unit in the buffer: both passes see it as six plain steps. */
  lemma UnitLands(c: Bytes, p: nat, t: Bytes, n: nat)
    requires At(c, p, t) && IsUnit(t, n)
    ensures p + 6 <= |c| && c[p] == BACKSLASH && c[p + 1] == 117 && Hex4(c, p + 2) == n
    ensures StringEnd(c, p) == StringEnd(c, p + 6)
  {
    hide FourHex, CJsonGrammar.HexValue;
    UnitDigits(t, n);
    assert t[0] == c[p + 0] && t[1] == c[p + 1] && t[2] == c[p + 2];
    assert t[3] == c[p + 3] && t[4] == c[p + 4] && t[5] == c[p + 5];
    assert c[p] == BACKSLASH;
    assert StringEnd(c, p) == StringEnd(c, p + 2) == StringEnd(c, p + 3);
    assert StringEnd(c, p + 3) == StringEnd(c, p + 4) == StringEnd(c, p + 5) == StringEnd(c, p + 6);
  }

  lemma EscapeLands(c: Bytes, p: nat, t: Bytes, n: Scalar, end: nat)
    requires At(c, p, t) && IsEscapeOf(t, n) && p + |t| <= end < |c|
    ensures |t| >= 6 && c[p] == BACKSLASH && c[p + 1] == 117 && Utf16Literal(c, p, end) == Done(n, p + |t|)
    ensures StringEnd(c, p) == StringEnd(c, p + |t|)
  {
    hide CJsonGrammar.At, CJsonGrammar.StringEnd, CJsonGrammar.Hex4;
    assert ScalarValue(n);
    if n < 0x10000 {
      UnitLands(c, p, t, n);
    } else {
      assert t == t[..6] + t[6..];
      AtConcat(c, p, t[..6], t[6..]);
      UnitLands(c, p, t[..6], HighHalf(n));
      UnitLands(c, p + 6, t[6..], LowHalf(n));
      PairValue(n);
    }
  }

  lemma PairValue(n: Scalar)
    requires n >= 0x10000
    ensures HighSurrogate(HighHalf(n)) && LowSurrogate(LowHalf(n))
    ensures 0x10000 + (HighHalf(n) % 0x400) * 0x400 + LowHalf(n) % 0x400 == n
  {
    assert ScalarValue(n);
    var m := n - 0x10000;
    assert 0xD800 == 54 * 0x400 && 0xDC00 == 55 * 0x400;
    assert m / 0x400 < 0x400;
  }

  lemma {:induction false} EscapesUnescape(c: Bytes, p: nat, ts: seq<Bytes>, ns: seq<Scalar>, end: nat)
    requires AreEscapesOf(ts, ns) && At(c, p, Flatten(ts)) && p + |Flatten(ts)| <= end < |c|
    ensures Unescape(c, p, end) == Prepend(Utf8All(ns), Unescape(c, p + |Flatten(ts)|, end))
    ensures StringEnd(c, p) == StringEnd(c, p + |Flatten(ts)|)
    decreases |ts|
  {
    hide CJsonGrammar.At, CJsonGrammar.StringEnd, CJsonGrammar.Utf16Literal, IsEscapeOf, CJsonGrammar.Utf8;
    if ts == [] {
      PrependNothing(Unescape(c, p, end));
    } else {
      var rest := Flatten(ts[1..]);
      AtConcat(c, p, ts[0], rest);
      EscapeLands(c, p, ts[0], ns[0], end);
      EscapesUnescape(c, p + |ts[0]|, ts[1..], ns[1..], end);
      PrependTwice(Utf8(ns[0]), Utf8All(ns[1..]), Unescape(c, p + |Flatten(ts)|, end));
    }
  }

  lemma PrependNothing(r: Parsed<Bytes>)
    ensures Prepend([], r) == r
  {
    if r.Done? {
      assert [] + r.value == r.value;
    }
  }

  lemma PrependTwice(a: Bytes, b: Bytes, r: Parsed<Bytes>)
    ensures Prepend(a, Prepend(b, r)) == Prepend(a + b, r)
  {
    if r.Done? {
      assert a + (b + r.value) == (a + b) + r.value;
    }
  }

  /** Any sequence of scalar values, escaped unit by unit, parses to its UTF-8 encoding, which a
      strict decoder turns back into the sequence. */
  lemma EscapedTextParses(c: Bytes, p: nat, ts: seq<Bytes>, ns: seq<Scalar>)
    requires AreEscapesOf(ts, ns) && At(c, p, [QUOTE] + (Flatten(ts) + [QUOTE]))
    ensures p < |c| && ParseString(c, p) == Done(Utf8All(ns), p + |Flatten(ts)| + 2)
    ensures Utf8Decode(ParseString(c, p).value) == Decoded(ns)
  {
    hide CJsonGrammar.At, Flatten, AreEscapesOf, Utf8All, Utf8Decode;
    var t, end := Flatten(ts), p + 1 + |Flatten(ts)|;
    AtEnd(c, p, [QUOTE] + (t + [QUOTE]));
    AtConcat(c, p, [QUOTE], t + [QUOTE]);
    AtConcat(c, p + 1, t, [QUOTE]);
    AtByte(c, p, [QUOTE], 0);
    AtByte(c, end, [QUOTE], 0);
    EscapesUnescape(c, p + 1, ts, ns, end);
    assert Utf8All(ns) + [] == Utf8All(ns);
    DecodeEncode(ns);
  }

  /** The unit at p is a surrogate that no partner completes before `end`. */
  ghost predicate LoneSurrogate(c: Bytes, p: nat, end: nat)
    requires p + 6 <= end < |c|
  {
    var first := Hex4(c, p + 2);
    || LowSurrogate(first)
    || (HighSurrogate(first)
        && !(p + 12 <= end && c[p + 6] == BACKSLASH && c[p + 7] == 117 && LowSurrogate(Hex4(c, p + 8))))
  }

  // ---------- what is rejected ----------

  /** The second pass, started at p, gets to q. */
  ghost predicate Reaches(c: Bytes, p: nat, q: nat, end: nat)
    requires end < |c| && p <= end + 1
    decreases |c| - p
  {
    || p == q
    || (p < end
        && if c[p] != BACKSLASH then Reaches(c, p + 1, q, end)
           else if Unshort(c[p + 1]) != 0 then Reaches(c, p + 2, q, end)
           else c[p + 1] == 117 && Utf16Literal(c, p, end).Done? && Reaches(c, Utf16Literal(c, p, end).next, q, end))
  }

  /** What begins at q makes the second pass give up: an unknown letter, a `\u` with less than four bytes before the
      closing quote, or a surrogate without its partner. Four bytes that are no digits are let through, as U+0000. */
  ghost predicate BadEscape(c: Bytes, q: nat, end: nat)
    requires q < end < |c|
  {
    && c[q] == BACKSLASH && Unshort(c[q + 1]) == 0
    && (c[q + 1] != 117 || q + 6 > end || LoneSurrogate(c, q, end))
  }

  lemma LiteralFailsExactly(c: Bytes, q: nat, end: nat)
    requires q < end < |c|
    ensures Utf16Literal(c, q, end).Failed? <==> q + 6 > end || LoneSurrogate(c, q, end)
  {
    hide CJsonGrammar.Hex4;
  }

  lemma {:induction false} FailureSpreads(c: Bytes, p: nat, q: nat, end: nat)
    requires end < |c| && p <= end + 1 && q <= end + 1
    requires Reaches(c, p, q, end) && Unescape(c, q, end).Failed?
    ensures Unescape(c, p, end).Failed?
    decreases |c| - p
  {
    hide CJsonGrammar.Utf16Literal, CJsonGrammar.Utf8;
    if p != q {
      var next := if c[p] != BACKSLASH then p + 1 else if Unshort(c[p + 1]) != 0 then p + 2
                  else Utf16Literal(c, p, end).next;
      FailureSpreads(c, next, q, end);
    }
  }

  lemma {:induction false} FailureHasCause(c: Bytes, p: nat, end: nat) returns (q: nat)
    requires end < |c| && p <= end + 1 && Unescape(c, p, end).Failed?
    ensures q < end && Reaches(c, p, q, end) && BadEscape(c, q, end)
    decreases |c| - p
  {
    hide CJsonGrammar.Utf16Literal, CJsonGrammar.Utf8, LoneSurrogate;
    LiteralFailsExactly(c, p, end);
    if BadEscape(c, p, end) {
      q := p;
    } else {
      var next := if c[p] != BACKSLASH then p + 1 else if Unshort(c[p + 1]) != 0 then p + 2
                  else Utf16Literal(c, p, end).next;
      q := FailureHasCause(c, next, end);
    }
  }

  /** A string with a closing quote is rejected exactly when the second pass comes to a bad escape. */
  lemma StringRejectedExactly(c: Bytes, p: nat)
    requires p < |c| && c[p] == QUOTE && StringEnd(c, p + 1) < |c|
    ensures var end := StringEnd(c, p + 1);
      ParseString(c, p).Failed? <==> exists q :: p < q < end && Reaches(c, p + 1, q, end) && BadEscape(c, q, end)
  {
    hide CJsonGrammar.StringEnd, CJsonGrammar.Unescape, Reaches, BadEscape;
    var end := StringEnd(c, p + 1);
    if Unescape(c, p + 1, end).Failed? {
      var q := FailureHasCause(c, p + 1, end);
      ReachesAhead(c, p + 1, q, end);
    }
    forall q | p < q < end && Reaches(c, p + 1, q, end) && BadEscape(c, q, end)
      ensures Unescape(c, p + 1, end).Failed?
    {
      BadEscapeFails(c, q, end);
      FailureSpreads(c, p + 1, q, end);
    }
  }

  lemma {:induction false} ReachesAhead(c: Bytes, p: nat, q: nat, end: nat)
    requires end < |c| && p <= end + 1 && Reaches(c, p, q, end)
    ensures p <= q
    decreases |c| - p
  {
    hide CJsonGrammar.Utf16Literal;
    if p != q {
      var next := if c[p] != BACKSLASH then p + 1 else if Unshort(c[p + 1]) != 0 then p + 2
                  else Utf16Literal(c, p, end).next;
      ReachesAhead(c, next, q, end);
    }
  }

  lemma BadEscapeFails(c: Bytes, q: nat, end: nat)
    requires q < end < |c| && BadEscape(c, q, end)
    ensures Unescape(c, q, end).Failed?
  {
    hide CJsonGrammar.Utf16Literal, LoneSurrogate;
    LiteralFailsExactly(c, q, end);
  }

  /** A string is rejected if an unpaired surrogate stands at any position the second pass gets to, whatever is
      in front of it; the surrogates that do convert there are exactly the paired ones. */
  lemma UnpairedSurrogateIsRejected(c: Bytes, p: nat, q: nat)
    requires p < |c| && c[p] == QUOTE && p < q
    requires var end := StringEnd(c, p + 1);
      q + 6 <= end < |c| && c[q] == BACKSLASH && c[q + 1] == 117 && Reaches(c, p + 1, q, end)
    ensures var end := StringEnd(c, p + 1);
      && (LoneSurrogate(c, q, end) ==> ParseString(c, p).Failed?)
      && (Utf16Literal(c, q, end).Failed? <==> LoneSurrogate(c, q, end))
  {
    hide CJsonGrammar.StringEnd, CJsonGrammar.ParseString, CJsonGrammar.Utf16Literal, LoneSurrogate, Reaches;
    var end := StringEnd(c, p + 1);
    LiteralFailsExactly(c, q, end);
    StringRejectedExactly(c, p);
    assert LoneSurrogate(c, q, end) ==> BadEscape(c, q, end);
  }

  /** Text without a backslash is passed over, so that the above applies right behind it. */
  lemma {:induction false} PlainTextIsPassed(c: Bytes, p: nat, q: nat, end: nat)
    requires p <= q <= end < |c| && forall i :: p <= i < q ==> c[i] != BACKSLASH
    ensures Reaches(c, p, q, end)
    decreases q - p
  {
    if p < q {
      PlainTextIsPassed(c, p + 1, q, end);
    }
  }
}
