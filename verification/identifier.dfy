/**
 * The chapter identifier (src/index.js:171-187): the pair (chapter id, series id)
 * written as a JSON object, encoded as UTF-8, then as base64. Decoding runs
 * base64, reads the bytes as Latin-1 ("binary"), then parses the JSON.
 *
 * Because the write side uses UTF-8 and the read side Latin-1, an id with a
 * non-ASCII character comes back changed: `DecodeEncode` states exactly what
 * comes back, and `RoundTripIffAscii` when that is the original pair.
 */
module ChapterIdentifier {
  import opened Wrappers
  import opened Bytes
  import Base64
  import opened Json
  import opened Records
  import opened Seqs

  datatype ChapterKey = ChapterKey(chapId: string, seriesId: string)

  const ChapIdPrefix: string := "{\"chapId\":"
  const SeriesIdInfix: string := ",\"seriesId\":"

  /** `JSON.stringify({chapId, seriesId})`: no whitespace, members in this order. */
  function Stringify(k: ChapterKey): (s: string)
    ensures |ChapIdPrefix| < |s| && s[..|ChapIdPrefix|] == ChapIdPrefix && s[|s| - 1] == '}'
  {
    ChapIdPrefix + Quote(k.chapId) + SeriesIdInfix + Quote(k.seriesId) + "}"
  }

  /**
   * Reads back the object `Stringify` writes. This accepts only that exact
   * shape (no whitespace, these two members in this order), which is narrower
   * than `JSON.parse`.
   */
  function ParseKey(s: string): (r: Option<ChapterKey>)
    ensures r.Some? ==> |ChapIdPrefix| <= |s| && s[..|ChapIdPrefix|] == ChapIdPrefix
  {
    if !(|ChapIdPrefix| <= |s| && s[..|ChapIdPrefix|] == ChapIdPrefix) then None
    else
      var chap :- ReadString(s[|ChapIdPrefix|..]);
      var t := chap.1;
      if !(|SeriesIdInfix| <= |t| && t[..|SeriesIdInfix|] == SeriesIdInfix) then None
      else
        var series :- ReadString(t[|SeriesIdInfix|..]);
        if series.1 == "}" then Some(ChapterKey(chap.0, series.0)) else None
  }

  /** `encodeID` (src/index.js:171-179). */
  function EncodeID(k: ChapterKey): (token: string)
    ensures Base64.IsPaddedBase64(token)
  {
    Base64.EncodeIsPadded(Utf8(Stringify(k)));
    Base64.Encode(Utf8(Stringify(k)))
  }

  /** `decodeID` (src/index.js:181-187); text that does not decode is `MalformedIdentifier`. */
  function DecodeID(token: string): (r: Result<ChapterKey, Error>)
    ensures r.Failure? ==> r.error == MalformedIdentifier
    ensures r.Success? ==> |token| % 4 == 0
  {
    match Base64.Decode(token)
    case None => Failure(MalformedIdentifier)
    case Some(bytes) =>
      match ParseKey(Latin1(bytes))
      case None => Failure(MalformedIdentifier)
      case Some(k) => Success(k)
  }

  /** What each id of the pair becomes on its way through the codec. */
  function GarbleKey(k: ChapterKey): ChapterKey {
    ChapterKey(Garble(k.chapId), Garble(k.seriesId))
  }

  lemma ParseStringify(k: ChapterKey)
    ensures ParseKey(Stringify(k)) == Some(k)
  {
    var t := SeriesIdInfix + (Quote(k.seriesId) + "}");
    StringifyShape(k, t);
    ReadAfterPrefix(Stringify(k), ChapIdPrefix, k.chapId, t);
    ReadAfterPrefix(t, SeriesIdInfix, k.seriesId, "}");
  }

  lemma StringifyShape(k: ChapterKey, t: string)
    requires t == SeriesIdInfix + (Quote(k.seriesId) + "}")
    ensures Stringify(k) == ChapIdPrefix + (Quote(k.chapId) + t)
  {
    var p, q1, i, q2 := ChapIdPrefix, Quote(k.chapId), SeriesIdInfix, Quote(k.seriesId);
    ConcatAssoc(p + q1 + i, q2, "}");
    ConcatAssoc(p + q1, i, q2 + "}");
    ConcatAssoc(p, q1, i + (q2 + "}"));
  }

  /** After a fixed prefix, a written string literal reads back as its value. */
  lemma ReadAfterPrefix(s: string, prefix: string, x: string, rest: string)
    requires s == prefix + (Quote(x) + rest)
    ensures |prefix| <= |s| && s[..|prefix|] == prefix
    ensures ReadString(s[|prefix|..]) == Some((x, rest))
  {
    assert s[|prefix|..] == Quote(x) + rest;
    ReadQuoted(x, rest);
  }

  lemma GarbleAscii(s: string)
    requires IsAscii(s)
    ensures Garble(s) == s
  {
    GarbleFixedIffAscii(s);
  }

  /** Writing a character escaped and reading the bytes back as Latin-1 commutes with escaping. */
  lemma GarbleEscapeChar(c: char)
    ensures Garble(EscapeChar(c)) == Escape(Garble([c]))
  {
    if c as int < 128 {
      GarbleAscii(EscapeChar(c));
      assert IsAscii([c]);
      GarbleAscii([c]);
      assert Escape([c]) == EscapeChar(c) + Escape([]);
    } else {
      assert EscapeChar(c) == [c];
      GarbleNonAsciiChar(c);
      var g := Garble([c]);
      assert forall i :: 0 <= i < |g| ==> IsPlain(g[i]);
      EscapePlain(g);
    }
  }

  lemma {:induction false} GarbleEscape(x: string)
    ensures Garble(Escape(x)) == Escape(Garble(x))
    decreases |x|
  {
    if |x| > 0 {
      assert x == [x[0]] + x[1..];
      GarbleConcat(EscapeChar(x[0]), Escape(x[1..]));
      GarbleEscape(x[1..]);
      GarbleEscapeChar(x[0]);
      GarbleConcat([x[0]], x[1..]);
      EscapeConcat(Garble([x[0]]), Garble(x[1..]));
    }
  }

  lemma GarbleQuote(x: string)
    ensures Garble(Quote(x)) == Quote(Garble(x))
  {
    assert IsAscii("\"");
    GarbleAscii("\"");
    GarbleConcat("\"", Escape(x));
    GarbleConcat("\"" + Escape(x), "\"");
    GarbleEscape(x);
  }

  lemma GarbleStringify(k: ChapterKey)
    ensures Garble(Stringify(k)) == Stringify(GarbleKey(k))
  {
    assert IsAscii(ChapIdPrefix) && IsAscii(SeriesIdInfix) && IsAscii("}");
    GarbleAscii(ChapIdPrefix);
    GarbleAscii(SeriesIdInfix);
    GarbleAscii("}");
    GarbleQuote(k.chapId);
    GarbleQuote(k.seriesId);
    var a, b, c, d := ChapIdPrefix, Quote(k.chapId), SeriesIdInfix, Quote(k.seriesId);
    GarbleConcat(a, b);
    GarbleConcat(a + b, c);
    GarbleConcat(a + b + c, d);
    GarbleConcat(a + b + c + d, "}");
  }

  /**
   * Decoding an encoded identifier always succeeds, and yields each id as the
   * Latin-1 reading of its UTF-8 bytes.
   */
  lemma DecodeEncode(k: ChapterKey)
    ensures DecodeID(EncodeID(k)) == Success(GarbleKey(k))
  {
    Base64.DecodeEncode(Utf8(Stringify(k)));
    GarbleStringify(k);
    ParseStringify(GarbleKey(k));
  }

  /** The identifier gives back exactly the pair it was made from if and only if both ids are ASCII. */
  lemma RoundTripIffAscii(k: ChapterKey)
    ensures DecodeID(EncodeID(k)) == Success(k) <==> IsAscii(k.chapId) && IsAscii(k.seriesId)
  {
    DecodeEncode(k);
    GarbleFixedIffAscii(k.chapId);
    GarbleFixedIffAscii(k.seriesId);
  }

  /** Distinct ASCII pairs get distinct identifiers. */
  lemma EncodeInjectiveOnAscii(a: ChapterKey, b: ChapterKey)
    requires IsAscii(a.chapId) && IsAscii(a.seriesId) && IsAscii(b.chapId) && IsAscii(b.seriesId)
    requires EncodeID(a) == EncodeID(b)
    ensures a == b
  {
    RoundTripIffAscii(a);
    RoundTripIffAscii(b);
  }

  lemma GarbleEAcute(s: string)
    requires s == "é"
    ensures Garble(s) == "Ã©"
  {
    assert s[0] as int == 0xE9;
    assert Utf8Char(s[0]) == [0xC3, 0xA9];
    assert Utf8(s) == [0xC3, 0xA9] + Utf8([]);
    assert Latin1([0xC3, 0xA9]) == [0xC3 as char] + Latin1([0xA9]);
    assert Latin1([0xA9]) == [0xA9 as char] + Latin1([]);
  }

  /** A chapter id "é" (U+00E9) comes back as "Ã©" (U+00C3 U+00A9), its two UTF-8 bytes. */
  lemma NonAsciiIdChanges(k: ChapterKey)
    requires k == ChapterKey("é", "1")
    ensures DecodeID(EncodeID(k)) == Success(ChapterKey("Ã©", "1"))
  {
    assert GarbleKey(k) == ChapterKey("Ã©", "1") by {
      GarbleEAcute(k.chapId);
      assert IsAscii(k.seriesId);
      GarbleAscii(k.seriesId);
    }
    DecodeEncode(k);
  }
}
