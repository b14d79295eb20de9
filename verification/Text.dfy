/**
 Text as the program sees it: sequences of UTF-16 code units, with the pieces of
 text that several encoders share (JSON string literals, decimal integers).
 Every printer here has a reader, and a lemma saying that the reader undoes it
 in front of any continuation.
 */
module Text {
  import opened Wrappers

  /** A UTF-16 code unit; lone surrogates are allowed, as in the program's strings. */
  type Unit = u: int | 0 <= u < 0x1_0000

  type Text = seq<Unit>

  const QUOTE: Unit := 34
  const BACKSLASH: Unit := 92
  const MINUS: Unit := 45
  const COMMA: Unit := 44
  const COLON: Unit := 58
  const NUL: Unit := 0

  /** The code units of a literal of this model, which only uses ASCII. */
  function Ascii(s: string): (t: Text)
    ensures |t| == |s|
  {
    seq(|s|, i requires 0 <= i < |s| => if s[i] as int < 128 then s[i] as int else 63)
  }

  // ---------------------------------------------------------------- spans

  /** Length of the longest prefix made of units in `p`. */
  function Span(t: Text, p: Unit -> bool): (n: nat)
    ensures n <= |t|
  {
    if |t| > 0 && p(t[0]) then 1 + Span(t[1..], p) else 0
  }

  /** `rest` does not continue a run of units in `p`. */
  predicate Stops(rest: Text, p: Unit -> bool) {
    |rest| == 0 || !p(rest[0])
  }

  lemma Associate(a: Text, b: Text, c: Text)
    ensures (a + b) + c == a + (b + c)
  {
  }

  lemma {:induction false} SpanOfRun(run: Text, rest: Text, p: Unit -> bool)
    requires forall u <- run :: p(u)
    requires Stops(rest, p)
    ensures Span(run + rest, p) == |run|
  {
    if |run| == 0 {
      assert run + rest == rest;
    } else {
      assert (run + rest)[1..] == run[1..] + rest;
      SpanOfRun(run[1..], rest, p);
    }
  }

  // ---------------------------------------------------------------- trimming

  /** The white space and line terminators that `trim` removes (section 22.1.3.32 of ECMA-262). */
  predicate IsSpace(u: Unit) {
    9 <= u <= 13 || u == 32 || u == 160 || u == 5760 || 8192 <= u <= 8202
    || u == 8232 || u == 8233 || u == 8239 || u == 8287 || u == 12288 || u == 65279
  }

  function Trim(t: Text): (r: Text)
    ensures |r| <= |t|
    ensures |r| > 0 ==> !IsSpace(r[0]) && !IsSpace(r[|r| - 1])
    ensures (|t| > 0 ==> !IsSpace(t[0]) && !IsSpace(t[|t| - 1])) ==> r == t
    decreases |t|
  {
    if |t| == 0 then t
    else if IsSpace(t[0]) then Trim(t[1..])
    else if IsSpace(t[|t| - 1]) then Trim(t[..|t| - 1])
    else t
  }

  /** Trimming removes white space from both ends until none is left there, and nothing else. */
  lemma {:induction false} TrimIsExact(t: Text) returns (before: Text, after: Text)
    ensures t == before + Trim(t) + after
    ensures forall u <- before + after :: IsSpace(u)
    ensures Trim(t) != [] ==> !IsSpace(Trim(t)[0]) && !IsSpace(Trim(t)[|Trim(t)| - 1])
    decreases |t|
  {
    before, after := [], [];
    if |t| > 0 && IsSpace(t[0]) {
      before, after := TrimIsExact(t[1..]);
      before := [t[0]] + before;
    } else if |t| > 0 && IsSpace(t[|t| - 1]) {
      before, after := TrimIsExact(t[..|t| - 1]);
      after := after + [t[|t| - 1]];
    }
  }

  // ---------------------------------------------------------------- decimals

  predicate IsDigit(u: Unit) {
    48 <= u <= 57
  }

  /** Decimal digits of a natural number, without leading zeros. */
  function Decimal(n: nat): (t: Text)
    ensures |t| > 0
    ensures forall u <- t :: IsDigit(u)
  {
    if n < 10 then [48 + n] else Decimal(n / 10) + [48 + n % 10]
  }

  function DigitsValue(t: Text): int {
    if |t| == 0 then 0 else 10 * DigitsValue(t[..|t| - 1]) + (t[|t| - 1] as int - 48)
  }

  lemma {:induction false} DecimalValue(n: nat)
    ensures DigitsValue(Decimal(n)) == n
  {
    if n < 10 {
      assert Decimal(n)[..0] == [];
    } else {
      DecimalValue(n / 10);
      assert Decimal(n)[..|Decimal(n)| - 1] == Decimal(n / 10);
    }
  }

  /** An integer as `String(i)` prints it. */
  function IntText(i: int): (t: Text)
    ensures |t| > 0
    ensures i >= 0 ==> IsDigit(t[0])
    ensures i < 0 ==> t[0] == MINUS
  {
    if i < 0 then [MINUS] + Decimal(-i) else Decimal(i)
  }

  /** Reads an optional sign and the digits after it. */
  function ReadInt(t: Text): (r: Option<(int, Text)>)
    ensures r.Some? ==> |r.value.1| < |t|
  {
    var body := if |t| > 0 && t[0] == MINUS then t[1..] else t;
    var n := Span(body, IsDigit);
    if n == 0 then None
    else Some((if body == t then DigitsValue(body[..n]) else -DigitsValue(body[..n]), body[n..]))
  }

  lemma ReadDigits(n: nat, rest: Text)
    requires Stops(rest, IsDigit)
    ensures var body := Decimal(n) + rest;
            var k := Span(body, IsDigit);
            k > 0 && DigitsValue(body[..k]) == n && body[k..] == rest
  {
    var digits := Decimal(n);
    DecimalValue(n);
    SpanOfRun(digits, rest, IsDigit);
    assert (digits + rest)[..|digits|] == digits && (digits + rest)[|digits|..] == rest;
  }

  lemma ReadNatural(n: nat, rest: Text)
    requires Stops(rest, IsDigit)
    ensures ReadInt(Decimal(n) + rest) == Some((n, rest))
  {
    var t := Decimal(n) + rest;
    assert IsDigit(t[0]) && t[0] != MINUS;
    ReadDigits(n, rest);
  }

  lemma ReadNegative(i: int, rest: Text)
    requires i < 0 && Stops(rest, IsDigit)
    ensures ReadInt([MINUS] + Decimal(-i) + rest) == Some((i, rest))
  {
    ReadDigits(-i, rest);
    ReadAfterMinus(Decimal(-i) + rest);
    Associate([MINUS], Decimal(-i), rest);
  }

  lemma ReadAfterMinus(body: Text)
    ensures ReadInt([MINUS] + body)
         == var n := Span(body, IsDigit);
            if n == 0 then None else Some((-DigitsValue(body[..n]), body[n..]))
  {
    assert ([MINUS] + body)[1..] == body;
  }

  lemma ReadIntText(i: int, rest: Text)
    requires Stops(rest, IsDigit)
    ensures ReadInt(IntText(i) + rest) == Some((i, rest))
  {
    if i < 0 {
      ReadNegative(i, rest);
    } else {
      ReadNatural(i, rest);
    }
  }

  // ------------------------------------------------- JSON string literals

  predicate IsHighSurrogate(u: Unit) { 0xD800 <= u <= 0xDBFF }

  predicate IsLowSurrogate(u: Unit) { 0xDC00 <= u <= 0xDFFF }

  function HexDigit(d: nat): Unit
    requires d < 16
  {
    if d < 10 then 48 + d else 87 + d
  }

  function HexValue(u: Unit): (d: Option<nat>)
    ensures d.Some? ==> d.value < 16
  {
    if 48 <= u <= 57 then Some(u - 48)
    else if 97 <= u <= 102 then Some(u - 87)
    else None
  }

  /** The `\uXXXX` form, in lower case. */
  function UnicodeEscape(u: Unit): (t: Text)
    ensures |t| == 6
  {
    var (a, b, c) := (u / 16 / 16 / 16, u / 16 / 16, u / 16);
    [BACKSLASH, 117, HexDigit(a), HexDigit(b % 16), HexDigit(c % 16), HexDigit(u % 16)]
  }

  function EscapeUnit(u: Unit): (t: Text)
    ensures |t| > 0
  {
    if u == QUOTE then [BACKSLASH, QUOTE]
    else if u == BACKSLASH then [BACKSLASH, BACKSLASH]
    else if u == 8 then [BACKSLASH, 98]
    else if u == 9 then [BACKSLASH, 116]
    else if u == 10 then [BACKSLASH, 110]
    else if u == 12 then [BACKSLASH, 102]
    else if u == 13 then [BACKSLASH, 114]
    else if u < 32 || IsHighSurrogate(u) || IsLowSurrogate(u) then UnicodeEscape(u)
    else [u]
  }

  /** Section 7 of RFC 8259, with lone surrogates escaped and pairs left alone. */
  function Escape(s: Text): Text {
    if |s| == 0 then []
    else if |s| > 1 && IsHighSurrogate(s[0]) && IsLowSurrogate(s[1]) then s[..2] + Escape(s[2..])
    else EscapeUnit(s[0]) + Escape(s[1..])
  }

  /** `JSON.stringify` of a string. */
  function Quote(s: Text): (t: Text)
    ensures |t| > 1 && t[0] == QUOTE
  {
    [QUOTE] + Escape(s) + [QUOTE]
  }

  function ReadHex4(t: Text): (r: Option<Unit>)
    requires |t| == 4
  {
    var a, b, c, d := HexValue(t[0]), HexValue(t[1]), HexValue(t[2]), HexValue(t[3]);
    if a.Some? && b.Some? && c.Some? && d.Some?
    then Some(a.value * 4096 + b.value * 256 + c.value * 16 + d.value)
    else None
  }

  /** One possibly escaped unit of a literal's body, and the text after it. */
  function ReadUnit(t: Text): (r: Option<(Unit, Text)>)
    requires |t| > 0
    ensures r.Some? ==> |r.value.1| < |t|
  {
    if t[0] != BACKSLASH then Some((t[0], t[1..]))
    else if |t| < 2 then None
    else if t[1] == QUOTE || t[1] == BACKSLASH || t[1] == 47 then Some((t[1], t[2..]))
    else if t[1] == 98 then Some((8, t[2..]))
    else if t[1] == 116 then Some((9, t[2..]))
    else if t[1] == 110 then Some((10, t[2..]))
    else if t[1] == 102 then Some((12, t[2..]))
    else if t[1] == 114 then Some((13, t[2..]))
    else if t[1] == 117 && |t| >= 6 then
      var u := ReadHex4(t[2..6]);
      if u.Some? then Some((u.value, t[6..])) else None
    else None
  }

  /** The body of a literal up to its closing quote. */
  function ReadBody(t: Text): (r: Option<(Text, Text)>)
    ensures r.Some? ==> |r.value.1| < |t|
    decreases |t|
  {
    if |t| == 0 then None
    else if t[0] == QUOTE then Some(([], t[1..]))
    else
      var head := ReadUnit(t);
      if head.None? then None else
      var tail := ReadBody(head.value.1);
      if tail.None? then None else Some(([head.value.0] + tail.value.0, tail.value.1))
  }

  function ReadQuoted(t: Text): (r: Option<(Text, Text)>)
    ensures r.Some? ==> |r.value.1| < |t|
  {
    if |t| > 0 && t[0] == QUOTE then ReadBody(t[1..]) else None
  }

  lemma HexDigitValue(d: nat)
    requires d < 16
    ensures HexValue(HexDigit(d)) == Some(d)
  {
  }

  lemma ReadHexDigits(a: nat, b: nat, c: nat, d: nat)
    requires a < 16 && b < 16 && c < 16 && d < 16
    ensures ReadHex4([HexDigit(a), HexDigit(b), HexDigit(c), HexDigit(d)])
         == Some(a * 4096 + b * 256 + c * 16 + d)
  {
    HexDigitValue(a);
    HexDigitValue(b);
    HexDigitValue(c);
    HexDigitValue(d);
  }

  lemma ReadHexEscape(u: Unit)
    ensures ReadHex4(UnicodeEscape(u)[2..6]) == Some(u)
  {
    var c := u / 16;
    var b := c / 16;
    var a := b / 16;
    assert u == 16 * c + u % 16 && c == 16 * b + c % 16 && b == 16 * a + b % 16;
    assert UnicodeEscape(u)[2..6] == [HexDigit(a), HexDigit(b % 16), HexDigit(c % 16), HexDigit(u % 16)];
    ReadHexDigits(a, b % 16, c % 16, u % 16);
  }

  lemma ReadUnicodeEscape(u: Unit, rest: Text)
    ensures ReadUnit(UnicodeEscape(u) + rest) == Some((u, rest))
  {
    var t := UnicodeEscape(u) + rest;
    ReadHexEscape(u);
    assert t[2..6] == UnicodeEscape(u)[2..6];
    assert t[6..] == rest;
    assert t[0] == BACKSLASH && t[1] == 117;
  }

  lemma ReadEscapedUnit(u: Unit, rest: Text)
    ensures ReadUnit(EscapeUnit(u) + rest) == Some((u, rest))
    ensures EscapeUnit(u)[0] != QUOTE
  {
    var t := EscapeUnit(u) + rest;
    var escaped := EscapeUnit(u);
    if escaped == UnicodeEscape(u) {
      ReadUnicodeEscape(u, rest);
    } else if |escaped| == 2 {
      assert t[0] == escaped[0] && t[1] == escaped[1];
      assert t[2..] == rest;
    } else {
      assert t[0] == u && t[1..] == rest;
    }
  }

  function Prepend(u: Unit, tail: Option<(Text, Text)>): Option<(Text, Text)> {
    if tail.None? then None else Some(([u] + tail.value.0, tail.value.1))
  }

  lemma ReadBodyPlain(u: Unit, after: Text)
    requires u != QUOTE && u != BACKSLASH
    ensures ReadBody([u] + after) == Prepend(u, ReadBody(after))
  {
    assert ([u] + after)[1..] == after;
  }

  lemma ReadBodyEscaped(u: Unit, after: Text)
    ensures ReadBody(EscapeUnit(u) + after) == Prepend(u, ReadBody(after))
  {
    ReadEscapedUnit(u, after);
    assert (EscapeUnit(u) + after)[0] == EscapeUnit(u)[0];
  }

  lemma ReadEscapedPair(s: Text, after: Text, rest: Text)
    requires |s| > 1 && IsHighSurrogate(s[0]) && IsLowSurrogate(s[1])
    requires ReadBody(after) == Some((s[2..], rest))
    ensures ReadBody(s[..2] + after) == Some((s, rest))
  {
    ReadBodyPlain(s[1], after);
    ReadBodyPlain(s[0], [s[1]] + after);
    assert s[..2] + after == [s[0]] + ([s[1]] + after);
    assert s == [s[0]] + ([s[1]] + s[2..]);
  }

  lemma ReadEscapedHead(s: Text, after: Text, rest: Text)
    requires |s| > 0
    requires ReadBody(after) == Some((s[1..], rest))
    ensures ReadBody(EscapeUnit(s[0]) + after) == Some((s, rest))
  {
    ReadBodyEscaped(s[0], after);
    assert s == [s[0]] + s[1..];
  }

  lemma {:induction false} ReadEscaped(s: Text, tail: Text, rest: Text)
    requires tail == [QUOTE] + rest
    ensures ReadBody(Escape(s) + tail) == Some((s, rest))
    decreases |s|
  {
    if |s| == 0 {
      assert Escape(s) + tail == tail;
      assert tail[1..] == rest;
    } else if |s| > 1 && IsHighSurrogate(s[0]) && IsLowSurrogate(s[1]) {
      ReadEscaped(s[2..], tail, rest);
      var after := Escape(s[2..]) + tail;
      ReadEscapedPair(s, after, rest);
      Associate(s[..2], Escape(s[2..]), tail);
    } else {
      ReadEscaped(s[1..], tail, rest);
      var after := Escape(s[1..]) + tail;
      ReadEscapedHead(s, after, rest);
      Associate(EscapeUnit(s[0]), Escape(s[1..]), tail);
    }
  }

  /** A JSON string literal reads back as the string, whatever follows it. */
  lemma ReadQuote(s: Text, rest: Text)
    ensures ReadQuoted(Quote(s) + rest) == Some((s, rest))
  {
    ReadEscaped(s, [QUOTE] + rest, rest);
    assert (Quote(s) + rest)[1..] == Escape(s) + ([QUOTE] + rest);
  }

  // ---------------------------------------------------------------- UTF-8

  /** What UTF-8 keeps of a text: every lone surrogate becomes U+FFFD. */
  function Scrub(t: Text): (r: Text)
    ensures |r| == |t|
  {
    if |t| == 0 then []
    else if |t| > 1 && IsHighSurrogate(t[0]) && IsLowSurrogate(t[1]) then t[..2] + Scrub(t[2..])
    else [if IsHighSurrogate(t[0]) || IsLowSurrogate(t[0]) then 0xFFFD else t[0]] + Scrub(t[1..])
  }

  /** A text without lone surrogates. */
  predicate WellFormed(t: Text) {
    if |t| == 0 then true
    else if |t| > 1 && IsHighSurrogate(t[0]) && IsLowSurrogate(t[1]) then WellFormed(t[2..])
    else !IsHighSurrogate(t[0]) && !IsLowSurrogate(t[0]) && WellFormed(t[1..])
  }

  lemma {:induction false} ScrubKeepsWellFormed(t: Text)
    ensures WellFormed(t) <==> Scrub(t) == t
  {
    if |t| == 0 {
    } else if |t| > 1 && IsHighSurrogate(t[0]) && IsLowSurrogate(t[1]) {
      ScrubKeepsWellFormed(t[2..]);
      assert t == t[..2] + t[2..];
      assert Scrub(t)[2..] == Scrub(t[2..]);
    } else {
      ScrubKeepsWellFormed(t[1..]);
      assert t == [t[0]] + t[1..];
      assert Scrub(t)[1..] == Scrub(t[1..]);
    }
  }

  /** Half of a surrogate pair without its other half. */
  predicate Lone(t: Text, i: nat)
    requires i < |t|
  {
    || (IsHighSurrogate(t[i]) && !(i + 1 < |t| && IsLowSurrogate(t[i + 1])))
    || (IsLowSurrogate(t[i]) && !(i > 0 && IsHighSurrogate(t[i - 1])))
  }

  /** Exactly the lone surrogates are replaced, each by U+FFFD. */
  lemma {:induction false} ScrubIsExact(t: Text, i: nat)
    requires i < |t|
    ensures Scrub(t)[i] == if Lone(t, i) then 0xFFFD else t[i]
    decreases |t|
  {
    if |t| > 1 && IsHighSurrogate(t[0]) && IsLowSurrogate(t[1]) {
      if i >= 2 {
        ScrubIsExact(t[2..], i - 2);
        assert Lone(t[2..], i - 2) == Lone(t, i);
      }
    } else if i >= 1 {
      ScrubIsExact(t[1..], i - 1);
      assert Lone(t[1..], i - 1) == Lone(t, i);
    }
  }

  lemma {:induction false} ScrubTwice(t: Text)
    ensures WellFormed(Scrub(t))
  {
    if |t| == 0 {
    } else if |t| > 1 && IsHighSurrogate(t[0]) && IsLowSurrogate(t[1]) {
      ScrubTwice(t[2..]);
      assert Scrub(t)[2..] == Scrub(t[2..]);
    } else {
      ScrubTwice(t[1..]);
      assert Scrub(t)[1..] == Scrub(t[1..]);
    }
  }

  // ---------------------------------------------------------------- tokens

  /** The text after `token`, if `t` starts with it. */
  function Strip(t: Text, token: Text): (r: Option<Text>)
    ensures r.Some? ==> t == token + r.value
  {
    if |token| <= |t| && t[..|token|] == token then Some(t[|token|..]) else None
  }

  lemma StripToken(token: Text, rest: Text)
    ensures Strip(token + rest, token) == Some(rest)
  {
    assert (token + rest)[..|token|] == token;
    assert (token + rest)[|token|..] == rest;
  }
}
