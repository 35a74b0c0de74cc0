/**
 * JSON string literals (section 7 of RFC 8259) as `JSON.stringify` writes them,
 * and a reader for them.
 *
 * The writer follows ECMAScript's QuoteJSONString: `"` and `\` and the five
 * control characters with a short form (backspace, tab, line feed, form feed,
 * carriage return) get a two-character escape, every other character below
 * U+0020 becomes `\u00xx` with lower-case hex digits, and everything else,
 * `/` and all non-ASCII characters included, is written as itself.
 *
 * The reader accepts every escape RFC 8259 defines, but is narrower than
 * `JSON.parse`: a `\u` escape that names a surrogate code unit is refused,
 * since a surrogate pair cannot be recombined into one character here.
 */
module Json {
  import opened Wrappers
  import opened Bytes
  import opened Seqs

  /** A lower-case hexadecimal digit. */
  function HexDigit(n: int): (c: char)
    requires 0 <= n < 16
    ensures c as int < 128
  {
    if n < 10 then ('0' as int + n) as char else ('a' as int + (n - 10)) as char
  }

  /** The value of a hexadecimal digit of either case. */
  function HexValue(c: char): (r: Option<int>)
    ensures r.Some? ==> 0 <= r.value < 16
    ensures r.Some? <==> ('0' <= c <= '9' || 'a' <= c <= 'f' || 'A' <= c <= 'F')
  {
    if '0' <= c <= '9' then Some(c as int - '0' as int)
    else if 'a' <= c <= 'f' then Some(c as int - 'a' as int + 10)
    else if 'A' <= c <= 'F' then Some(c as int - 'A' as int + 10)
    else None
  }

  lemma HexRoundTrip(n: int)
    requires 0 <= n < 16
    ensures HexValue(HexDigit(n)) == Some(n)
  {
  }

  /** The letter of the two-character escape of `c`, if `c` has one. */
  function ShortEscape(c: char): Option<char> {
    if c == '"' then Some('"')
    else if c == '\\' then Some('\\')
    else if c as int == 0x08 then Some('b')
    else if c as int == 0x09 then Some('t')
    else if c as int == 0x0A then Some('n')
    else if c as int == 0x0C then Some('f')
    else if c as int == 0x0D then Some('r')
    else None
  }

  /** A character `JSON.stringify` writes as itself. */
  predicate IsPlain(c: char) {
    c as int >= 0x20 && c != '"' && c != '\\'
  }

  function EscapeChar(c: char): (s: string)
    ensures 1 <= |s| <= 6
    ensures IsPlain(c) <==> s == [c]
    ensures c as int < 128 ==> IsAscii(s)
  {
    match ShortEscape(c)
    case Some(e) => ['\\', e]
    case None =>
      if c as int < 0x20 then "\\u00" + [HexDigit(c as int / 16), HexDigit(c as int % 16)]
      else [c]
  }

  /** The body of the JSON string literal for `s`, without the enclosing quotes. */
  function Escape(s: string): (r: string)
    ensures |r| >= |s|
  {
    if |s| == 0 then "" else EscapeChar(s[0]) + Escape(s[1..])
  }

  /** Text made only of characters written as themselves is written unchanged. */
  lemma {:induction false} EscapePlain(s: string)
    requires forall i :: 0 <= i < |s| ==> IsPlain(s[i])
    ensures Escape(s) == s
    decreases |s|
  {
    if |s| > 0 {
      EscapePlain(s[1..]);
      assert s == [s[0]] + s[1..];
    }
  }

  /** The escaped form of ASCII text is ASCII. */
  lemma {:induction false} EscapeAscii(s: string)
    requires IsAscii(s)
    ensures IsAscii(Escape(s))
    decreases |s|
  {
    if |s| > 0 {
      assert s[0] as int < 128;
      EscapeAscii(s[1..]);
      var e, r := EscapeChar(s[0]), Escape(s[1..]);
      assert forall i :: 0 <= i < |e + r| ==> (e + r)[i] as int < 128 by {
        forall i | 0 <= i < |e + r| ensures (e + r)[i] as int < 128 {
          if i < |e| { assert (e + r)[i] == e[i]; } else { assert (e + r)[i] == r[i - |e|]; }
        }
      }
    }
  }

  /** `JSON.stringify` of a string. */
  function Quote(s: string): (r: string)
    ensures |r| >= |s| + 2 && r[0] == '"' && r[|r| - 1] == '"'
  {
    "\"" + Escape(s) + "\""
  }

  lemma {:induction false} EscapeConcat(a: string, b: string)
    ensures Escape(a + b) == Escape(a) + Escape(b)
    decreases |a|
  {
    if |a| == 0 {
      assert a + b == b;
    } else {
      assert (a + b)[1..] == a[1..] + b;
      EscapeConcat(a[1..], b);
    }
  }

  /** The value of four hexadecimal digits. */
  function HexQuad(s: string): Option<int>
    requires |s| == 4
  {
    var d0 :- HexValue(s[0]);
    var d1 :- HexValue(s[1]);
    var d2 :- HexValue(s[2]);
    var d3 :- HexValue(s[3]);
    Some(((d0 * 16 + d1) * 16 + d2) * 16 + d3)
  }

  /**
   * Reads an escape sequence whose backslash has already been consumed:
   * the character it stands for and how many characters it took.
   */
  function ReadEscape(s: string): (r: Option<(char, nat)>)
    ensures r.Some? ==> 1 <= r.value.1 <= |s|
  {
    if |s| == 0 then None
    else if s[0] == '"' || s[0] == '\\' || s[0] == '/' then Some((s[0], 1))
    else if s[0] == 'b' then Some((0x08 as char, 1))
    else if s[0] == 't' then Some((0x09 as char, 1))
    else if s[0] == 'n' then Some((0x0A as char, 1))
    else if s[0] == 'f' then Some((0x0C as char, 1))
    else if s[0] == 'r' then Some((0x0D as char, 1))
    else if s[0] == 'u' && |s| >= 5 then
      var v :- HexQuad(s[1..5]);
      if 0xD800 <= v < 0xE000 then None else Some((v as char, 5))
    else None
  }

  /**
   * Reads the rest of a string literal whose opening quote has been consumed:
   * the decoded value and the text after the closing quote. An unescaped
   * control character or a missing closing quote is an error.
   */
  function ReadBody(s: string): (r: Option<(string, string)>)
    ensures r.Some? ==> |r.value.1| < |s|
    decreases |s|
  {
    if |s| == 0 then None
    else if s[0] == '"' then Some(("", s[1..]))
    else if s[0] == '\\' then
      var e :- ReadEscape(s[1..]);
      var tail :- ReadBody(s[1 + e.1..]);
      Some(([e.0] + tail.0, tail.1))
    else if s[0] as int < 0x20 then None
    else
      var tail :- ReadBody(s[1..]);
      Some(([s[0]] + tail.0, tail.1))
  }

  /** Reads one JSON string literal at the front of `s`; returns its value and the text after it. */
  function ReadString(s: string): Option<(string, string)> {
    if |s| > 0 && s[0] == '"' then ReadBody(s[1..]) else None
  }

  /** Reading the escaped form of one character, followed by more of the literal. */
  lemma ReadEscapedChar(c: char, tail: string, v: string, rest: string)
    requires ReadBody(tail) == Some((v, rest))
    ensures ReadBody(EscapeChar(c) + tail) == Some(([c] + v, rest))
  {
    match ShortEscape(c)
    case Some(e) =>
      ReadShortEscape(c, e, tail, v, rest);
    case None =>
      if c as int < 0x20 {
        ReadUnicodeEscape(c, tail, v, rest);
      } else {
        var s := EscapeChar(c) + tail;
        assert s[0] == c && s[1..] == tail;
      }
  }

  lemma ReadShortEscape(c: char, e: char, tail: string, v: string, rest: string)
    requires ShortEscape(c) == Some(e) && ReadBody(tail) == Some((v, rest))
    ensures ReadBody(EscapeChar(c) + tail) == Some(([c] + v, rest))
  {
    var s := EscapeChar(c) + tail;
    assert s == ['\\', e] + tail;
    assert s[0] == '\\' && s[1..][0] == e && s[2..] == tail;
    assert ReadEscape(s[1..]) == Some((c, 1));
  }

  lemma ReadUnicodeEscape(c: char, tail: string, v: string, rest: string)
    requires ShortEscape(c).None? && c as int < 0x20 && ReadBody(tail) == Some((v, rest))
    ensures ReadBody(EscapeChar(c) + tail) == Some(([c] + v, rest))
  {
    var s := EscapeChar(c) + tail;
    assert s[0] == '\\' && s[6..] == tail;
    assert ReadEscape(s[1..]) == Some((c, 5)) by {
      ReadFourHex(c, s[1..]);
    }
  }

  lemma ReadFourHex(c: char, u: string)
    requires c as int < 0x20 && |u| >= 5
    requires u[..5] == ['u', '0', '0', HexDigit(c as int / 16), HexDigit(c as int % 16)]
    ensures ReadEscape(u) == Some((c, 5))
  {
    var h1, h2 := HexDigit(c as int / 16), HexDigit(c as int % 16);
    assert u[0] == 'u' && u[1..5] == ['0', '0', h1, h2];
    assert HexQuad(u[1..5]) == Some(c as int) by {
      HexRoundTrip(c as int / 16);
      HexRoundTrip(c as int % 16);
    }
  }

  lemma {:induction false} ReadEscaped(x: string, rest: string)
    ensures ReadBody(Escape(x) + "\"" + rest) == Some((x, rest))
    decreases |x|
  {
    if |x| == 0 {
      ReadClosingQuote(Escape(x) + "\"" + rest, rest);
    } else {
      var t := Escape(x[1..]) + "\"" + rest;
      EscapeCons(x, rest);
      ReadEscaped(x[1..], rest);
      ReadEscapedChar(x[0], t, x[1..], rest);
      assert [x[0]] + x[1..] == x;
    }
  }

  lemma ReadClosingQuote(s: string, rest: string)
    requires s == "\"" + rest
    ensures ReadBody(s) == Some(("", rest))
  {
    assert s[0] == '"' && s[1..] == rest;
  }

  lemma EscapeCons(x: string, rest: string)
    requires |x| > 0
    ensures Escape(x) + "\"" + rest == EscapeChar(x[0]) + (Escape(x[1..]) + "\"" + rest)
  {
    var e, r, q := EscapeChar(x[0]), Escape(x[1..]), "\"";
    assert Escape(x) == e + r;
    ConcatAssoc(e, r, q);
    ConcatAssoc(e, r + q, rest);
  }

  /** Reading a written string literal gives back the string and the text that follows it. */
  lemma ReadQuoted(x: string, rest: string)
    ensures ReadString(Quote(x) + rest) == Some((x, rest))
  {
    QuoteShape(x, rest);
    ReadEscaped(x, rest);
  }

  lemma QuoteShape(x: string, rest: string)
    ensures |Quote(x) + rest| > 0 && (Quote(x) + rest)[0] == '"'
    ensures (Quote(x) + rest)[1..] == Escape(x) + "\"" + rest
  {
    var q, e := "\"", Escape(x);
    ConcatAssoc(q, e, q);
    ConcatAssoc(q, e + q, rest);
  }
}
