/**
 * Base64 with the standard alphabet and `=` padding (section 4 of RFC 4648),
 * as Node's `Buffer#toString("base64")` writes it.
 *
 * Both directions go through a sequence of symbols (a six-bit digit or the pad
 * mark), so that the bit arithmetic and the alphabet are handled separately.
 *
 * The decoder accepts only well-formed text: a length that is a multiple of
 * four, alphabet characters only, and one or two `=` only at the very end.
 * Node's decoder also skips stray characters and tolerates missing padding;
 * that leniency is not modelled.
 */
module Base64 {
  import opened Wrappers
  import opened Bytes

  type sextet = x: int | 0 <= x < 64

  /** One character of base64 text: a six-bit digit or the pad mark `=`. */
  datatype Symbol = Digit(value: sextet) | Pad

  predicate IsBase64Char(c: char) {
    'A' <= c <= 'Z' || 'a' <= c <= 'z' || '0' <= c <= '9' || c == '+' || c == '/'
  }

  /** The character for a symbol (Table 1 of RFC 4648, and `=` for the pad). */
  function SymbolChar(x: Symbol): (c: char)
    ensures x.Digit? <==> IsBase64Char(c)
    ensures x.Pad? <==> c == '='
  {
    match x
    case Pad => '='
    case Digit(i) =>
      if i < 26 then ('A' as int + i) as char
      else if i < 52 then ('a' as int + (i - 26)) as char
      else if i < 62 then ('0' as int + (i - 52)) as char
      else if i == 62 then '+'
      else '/'
  }

  /** The symbol a character stands for; `None` for a character outside the alphabet. */
  function CharSymbol(c: char): (r: Option<Symbol>)
    ensures r.Some? <==> IsBase64Char(c) || c == '='
    ensures r.Some? ==> SymbolChar(r.value) == c
  {
    if 'A' <= c <= 'Z' then Some(Digit(c as int - 'A' as int))
    else if 'a' <= c <= 'z' then Some(Digit(c as int - 'a' as int + 26))
    else if '0' <= c <= '9' then Some(Digit(c as int - '0' as int + 52))
    else if c == '+' then Some(Digit(62))
    else if c == '/' then Some(Digit(63))
    else if c == '=' then Some(Pad)
    else None
  }

  lemma SymbolCharRoundTrip(x: Symbol)
    ensures CharSymbol(SymbolChar(x)) == Some(x)
  {
  }

  function Render(xs: seq<Symbol>): (s: string)
    ensures |s| == |xs|
    ensures forall i :: 0 <= i < |xs| ==> s[i] == SymbolChar(xs[i])
  {
    if |xs| == 0 then [] else [SymbolChar(xs[0])] + Render(xs[1..])
  }

  function Scan(s: string): (r: Option<seq<Symbol>>)
    ensures r.Some? ==> |r.value| == |s|
  {
    if |s| == 0 then Some([])
    else
      var x :- CharSymbol(s[0]);
      var rest :- Scan(s[1..]);
      Some([x] + rest)
  }

  /** A character that is neither in the alphabet nor `=`, anywhere in the text, makes the scan fail. */
  lemma {:induction false} ScanRejects(s: string, i: nat)
    requires i < |s| && !IsBase64Char(s[i]) && s[i] != '='
    ensures Scan(s).None?
    decreases i
  {
    if i > 0 {
      assert s[1..][i - 1] == s[i];
      ScanRejects(s[1..], i - 1);
    }
  }

  /** Decoding refuses every text holding a character outside the alphabet and `=`. */
  lemma DecodeRejects(s: string, i: nat)
    requires i < |s| && !IsBase64Char(s[i]) && s[i] != '='
    ensures Decode(s).None?
  {
    ScanRejects(s, i);
  }

  lemma {:induction false} ScanRender(xs: seq<Symbol>)
    ensures Scan(Render(xs)) == Some(xs)
    decreases |xs|
  {
    if |xs| > 0 {
      var s := Render(xs);
      assert s[1..] == Render(xs[1..]);
      SymbolCharRoundTrip(xs[0]);
      ScanRender(xs[1..]);
      assert xs == [xs[0]] + xs[1..];
    }
  }

  /** Number of `=` characters that end the encoding of `n` bytes. */
  function Padding(n: nat): nat {
    (3 - n % 3) % 3
  }

  /** Three bytes as four sextets, most significant bits first. */
  function SplitBytes(b0: byte, b1: byte, b2: byte): seq<sextet> {
    [b0 / 4, (b0 % 4) * 16 + b1 / 16, (b1 % 16) * 4 + b2 / 64, b2 % 64]
  }

  /** Four sextets back to three bytes. */
  function JoinSextets(c0: sextet, c1: sextet, c2: sextet, c3: sextet): seq<byte> {
    [c0 * 4 + c1 / 16, (c1 % 16) * 16 + c2 / 4, (c2 % 4) * 64 + c3]
  }

  /**
   * One group of output: the sextets of `n` real bytes (missing ones given as 0)
   * as `n + 1` digits, filled up with pad marks to four symbols.
   */
  function EncodeGroup(b0: byte, b1: byte, b2: byte, n: nat): (g: seq<Symbol>)
    requires 1 <= n <= 3
    ensures |g| == 4
    ensures forall i :: 0 <= i <= n ==> g[i].Digit?
    ensures forall i :: n < i < 4 ==> g[i].Pad?
  {
    var x := SplitBytes(b0, b1, b2);
    [Digit(x[0]), Digit(x[1]),
     if n >= 2 then Digit(x[2]) else Pad,
     if n == 3 then Digit(x[3]) else Pad]
  }

  function EncodeSymbols(bs: seq<byte>): (xs: seq<Symbol>)
    ensures |xs| == 4 * ((|bs| + 2) / 3)
    decreases |bs|
  {
    if |bs| == 0 then []
    else if |bs| == 1 then EncodeGroup(bs[0], 0, 0, 1)
    else if |bs| == 2 then EncodeGroup(bs[0], bs[1], 0, 2)
    else EncodeGroup(bs[0], bs[1], bs[2], 3) + EncodeSymbols(bs[3..])
  }

  function Encode(bs: seq<byte>): (s: string)
    ensures |s| == 4 * ((|bs| + 2) / 3)
  {
    Render(EncodeSymbols(bs))
  }

  /** Decodes the symbols of one group of four; only the last group may hold pad marks. */
  function DecodeGroup(g: seq<Symbol>, last: bool): (r: Option<seq<byte>>)
    requires |g| == 4
    ensures r.Some? ==> 1 <= |r.value| <= 3
  {
    match (g[0], g[1], g[2], g[3])
    case (Digit(c0), Digit(c1), Digit(c2), Digit(c3)) => Some(JoinSextets(c0, c1, c2, c3))
    case (Digit(c0), Digit(c1), Digit(c2), Pad) => if last then Some(JoinSextets(c0, c1, c2, 0)[..2]) else None
    case (Digit(c0), Digit(c1), Pad, Pad) => if last then Some(JoinSextets(c0, c1, 0, 0)[..1]) else None
    case _ => None
  }

  function DecodeSymbols(xs: seq<Symbol>): Option<seq<byte>>
    decreases |xs|
  {
    if |xs| == 0 then Some([])
    else if |xs| < 4 then None
    else
      var head :- DecodeGroup(xs[..4], |xs| == 4);
      var tail :- DecodeSymbols(xs[4..]);
      Some(head + tail)
  }

  /** Only whole groups of four symbols decode, each to at most three bytes. */
  lemma {:induction false} DecodeSymbolsLength(xs: seq<Symbol>)
    ensures DecodeSymbols(xs).Some? ==> |xs| % 4 == 0 && |DecodeSymbols(xs).value| <= 3 * (|xs| / 4)
    decreases |xs|
  {
    if |xs| >= 4 && DecodeSymbols(xs).Some? {
      DecodeSymbolsLength(xs[4..]);
      assert |xs| / 4 == |xs[4..]| / 4 + 1;
    }
  }

  /**
   * Decoding: only a multiple of four characters decodes, to at most three
   * bytes per four characters.
   */
  function Decode(s: string): (r: Option<seq<byte>>)
    ensures r.Some? ==> |s| % 4 == 0 && |r.value| <= 3 * (|s| / 4)
  {
    var xs :- Scan(s);
    DecodeSymbolsLength(xs);
    DecodeSymbols(xs)
  }

  /**
   * Well-formed padded base64 text: a multiple of four characters from the
   * alphabet, of which only the last one or two may be `=`, and those only
   * as a contiguous tail.
   */
  predicate IsPaddedBase64(s: string) {
    && |s| % 4 == 0
    && (forall i :: 0 <= i < |s| ==> IsBase64Char(s[i]) || s[i] == '=')
    && (forall i :: 0 <= i < |s| - 2 ==> s[i] != '=')
    && (forall i, j :: 0 <= i < j < |s| && s[i] == '=' ==> s[j] == '=')
  }

  /** Every encoding is well-formed padded base64. */
  lemma EncodeIsPadded(bs: seq<byte>)
    ensures IsPaddedBase64(Encode(bs))
  {
    EncodeShape(bs);
  }

  /**
   * The encoding is alphabet characters followed by exactly as many `=` as
   * the byte count needs (none, one or two): section 4 of RFC 4648.
   */
  lemma EncodeShape(bs: seq<byte>)
    ensures var s := Encode(bs);
      && |s| == 4 * ((|bs| + 2) / 3)
      && |s| % 4 == 0
      && (forall i :: 0 <= i < |s| - Padding(|bs|) ==> IsBase64Char(s[i]))
      && (forall i :: |s| - Padding(|bs|) <= i < |s| ==> s[i] == '=')
  {
    var xs := EncodeSymbols(bs);
    var s := Render(xs);
    SymbolsShape(bs);
    forall i | 0 <= i < |s|
      ensures i < |s| - Padding(|bs|) ==> IsBase64Char(s[i])
      ensures i >= |s| - Padding(|bs|) ==> s[i] == '='
    {
      assert s[i] == SymbolChar(xs[i]);
      if i < |s| - Padding(|bs|) {
        assert xs[i].Digit?;
      } else {
        assert xs[i].Pad?;
      }
    }
  }

  lemma {:induction false} SymbolsShape(bs: seq<byte>)
    ensures forall i :: 0 <= i < |EncodeSymbols(bs)| - Padding(|bs|) ==> EncodeSymbols(bs)[i].Digit?
    ensures forall i :: |EncodeSymbols(bs)| - Padding(|bs|) <= i < |EncodeSymbols(bs)| ==> EncodeSymbols(bs)[i].Pad?
    decreases |bs|
  {
    if |bs| >= 3 {
      var head := EncodeGroup(bs[0], bs[1], bs[2], 3);
      var tail := EncodeSymbols(bs[3..]);
      assert EncodeSymbols(bs) == head + tail;
      assert Padding(|bs|) == Padding(|bs[3..]|);
      SymbolsShape(bs[3..]);
      DigitsBeforeShape(head, tail, Padding(|bs|));
    }
  }

  /** Four digits in front keep the shape "digits, then `p` pad marks". */
  lemma DigitsBeforeShape(head: seq<Symbol>, tail: seq<Symbol>, p: nat)
    requires |head| == 4 && forall i :: 0 <= i < 4 ==> head[i].Digit?
    requires p <= |tail|
    requires forall i :: 0 <= i < |tail| - p ==> tail[i].Digit?
    requires forall i :: |tail| - p <= i < |tail| ==> tail[i].Pad?
    ensures forall i :: 0 <= i < |head + tail| - p ==> (head + tail)[i].Digit?
    ensures forall i :: |head + tail| - p <= i < |head + tail| ==> (head + tail)[i].Pad?
  {
    var xs := head + tail;
    forall i | 0 <= i < |xs|
      ensures i < |xs| - p ==> xs[i].Digit?
      ensures i >= |xs| - p ==> xs[i].Pad?
    {
      if i >= 4 {
        assert xs[i] == tail[i - 4];
      } else {
        assert xs[i] == head[i];
      }
    }
  }

  lemma SplitJoin(b0: byte, b1: byte, b2: byte)
    ensures var x := SplitBytes(b0, b1, b2); JoinSextets(x[0], x[1], x[2], x[3]) == [b0, b1, b2]
  {
    assert ((b0 % 4) * 16 + b1 / 16) / 16 == b0 % 4;
    assert ((b0 % 4) * 16 + b1 / 16) % 16 == b1 / 16;
    assert ((b1 % 16) * 4 + b2 / 64) / 4 == b1 % 16;
    assert ((b1 % 16) * 4 + b2 / 64) % 4 == b2 / 64;
  }

  /** Every group decodes back to the bytes it encodes. */
  lemma GroupRoundTrip(b0: byte, b1: byte, b2: byte, n: nat, last: bool)
    requires 1 <= n <= 3
    requires n < 3 ==> last
    ensures DecodeGroup(EncodeGroup(b0, b1, b2, n), last) == Some([b0, b1, b2][..n])
  {
    if n == 1 {
      OneByteGroup(b0, b1, b2);
      assert [b0, b1, b2][..1] == [b0];
    } else if n == 2 {
      TwoByteGroup(b0, b1, b2);
      assert [b0, b1, b2][..2] == [b0, b1];
    } else {
      var x := SplitBytes(b0, b1, b2);
      SplitJoin(b0, b1, b2);
      assert EncodeGroup(b0, b1, b2, n) == [Digit(x[0]), Digit(x[1]), Digit(x[2]), Digit(x[3])];
      assert [b0, b1, b2][..3] == [b0, b1, b2];
    }
  }

  lemma OneByteGroup(b0: byte, b1: byte, b2: byte)
    ensures DecodeGroup(EncodeGroup(b0, b1, b2, 1), true) == Some([b0])
  {
    var x: seq<int> := SplitBytes(b0, b1, b2);
    assert EncodeGroup(b0, b1, b2, 1) == [Digit(x[0]), Digit(x[1]), Pad, Pad];
    assert x[1] / 16 == b0 % 4;
    assert x[0] * 4 + x[1] / 16 == b0;
    assert JoinSextets(x[0], x[1], 0, 0)[..1] == [b0];
  }

  lemma TwoByteGroup(b0: byte, b1: byte, b2: byte)
    ensures DecodeGroup(EncodeGroup(b0, b1, b2, 2), true) == Some([b0, b1])
  {
    var x: seq<int> := SplitBytes(b0, b1, b2);
    assert EncodeGroup(b0, b1, b2, 2) == [Digit(x[0]), Digit(x[1]), Digit(x[2]), Pad];
    assert x[1] / 16 == b0 % 4 && x[1] % 16 == b1 / 16;
    assert x[2] / 4 == b1 % 16;
    assert x[0] * 4 + x[1] / 16 == b0;
    assert (x[1] % 16) * 16 + x[2] / 4 == b1;
    assert JoinSextets(x[0], x[1], x[2], 0)[..2] == [b0, b1];
  }

  lemma {:induction false} DecodeEncodeSymbols(bs: seq<byte>)
    ensures DecodeSymbols(EncodeSymbols(bs)) == Some(bs)
    decreases |bs|
  {
    var xs := EncodeSymbols(bs);
    if |bs| == 1 {
      GroupRoundTrip(bs[0], 0, 0, 1, true);
      assert xs[..4] == xs && xs[4..] == [];
      assert [bs[0], 0, 0][..1] == bs && bs + [] == bs;
    } else if |bs| == 2 {
      GroupRoundTrip(bs[0], bs[1], 0, 2, true);
      assert xs[..4] == xs && xs[4..] == [];
      assert [bs[0], bs[1], 0][..2] == bs && bs + [] == bs;
    } else if |bs| >= 3 {
      var head := EncodeGroup(bs[0], bs[1], bs[2], 3);
      var tail := EncodeSymbols(bs[3..]);
      assert xs == head + tail;
      assert xs[..4] == head && xs[4..] == tail;
      GroupRoundTrip(bs[0], bs[1], bs[2], 3, |bs| == 3);
      DecodeEncodeSymbols(bs[3..]);
      assert bs == [bs[0], bs[1], bs[2]][..3] + bs[3..];
    }
  }

  /** Decoding undoes encoding, for every byte string. */
  lemma DecodeEncode(bs: seq<byte>)
    ensures Decode(Encode(bs)) == Some(bs)
  {
    ScanRender(EncodeSymbols(bs));
    DecodeEncodeSymbols(bs);
  }
}
