/**
 * Byte strings and the two text encodings the identifier codec uses:
 * `new Buffer(string)` encodes as UTF-8 (RFC 3629), and `toString("binary")`
 * reads every byte as the Latin-1 character with the same code.
 */
module Bytes {

  type byte = b: int | 0 <= b < 256

  predicate IsAscii(s: string) {
    forall i :: 0 <= i < |s| ==> s[i] as int < 128
  }

  /** The UTF-8 encoding of one Unicode scalar value (section 3 of RFC 3629). */
  function Utf8Char(c: char): (bs: seq<byte>)
    ensures 1 <= |bs| <= 4
    ensures c as int < 128 ==> bs == [c as int]
    ensures c as int >= 128 ==> |bs| >= 2 && forall i :: 0 <= i < |bs| ==> bs[i] >= 128
  {
    var cp: int := c as int;
    if cp < 0x80 then [cp]
    else if cp < 0x800 then [0xC0 + cp / 64, 0x80 + cp % 64]
    else if cp < 0x10000 then [0xE0 + cp / 4096, 0x80 + (cp / 64) % 64, 0x80 + cp % 64]
    else
      assert cp / 262144 <= 4;
      [0xF0 + cp / 262144, 0x80 + (cp / 4096) % 64, 0x80 + (cp / 64) % 64, 0x80 + cp % 64]
  }

  /**
   * The scalar value a UTF-8 sequence of one to four bytes stands for: the
   * payload bits of the lead byte followed by six bits of every continuation byte.
   */
  function CodePointOf(bs: seq<byte>): int
    requires 1 <= |bs| <= 4
  {
    var b: seq<int> := bs;
    if |b| == 1 then b[0]
    else if |b| == 2 then (b[0] % 32) * 64 + b[1] % 64
    else if |b| == 3 then (b[0] % 16) * 4096 + (b[1] % 64) * 64 + b[2] % 64
    else (b[0] % 8) * 262144 + (b[1] % 64) * 4096 + (b[2] % 64) * 64 + b[3] % 64
  }

  /** The encoding of a character reads back as that character's scalar value. */
  lemma Utf8CharDecodes(c: char)
    ensures CodePointOf(Utf8Char(c)) == c as int
  {
    var cp: int := c as int;
    var bs := Utf8Char(c);
    if cp < 0x80 {
    } else if cp < 0x800 {
      assert bs == [0xC0 + cp / 64, 0x80 + cp % 64];
      TwoByteDecodes(cp);
    } else if cp < 0x10000 {
      assert bs == [0xE0 + cp / 4096, 0x80 + (cp / 64) % 64, 0x80 + cp % 64];
      ThreeByteDecodes(cp);
    } else {
      assert bs == [0xF0 + cp / 262144, 0x80 + (cp / 4096) % 64, 0x80 + (cp / 64) % 64, 0x80 + cp % 64];
      FourByteDecodes(cp);
    }
  }

  lemma TwoByteDecodes(cp: int)
    requires 0x80 <= cp < 0x800
    ensures ((0xC0 + cp / 64) % 32) * 64 + (0x80 + cp % 64) % 64 == cp
  {
    var q, r := cp / 64, cp % 64;
    assert (0xC0 + q) % 32 == q;
    assert (0x80 + r) % 64 == r;
  }

  lemma ThreeByteDecodes(cp: int)
    requires 0x800 <= cp < 0x10000
    ensures ((0xE0 + cp / 4096) % 16) * 4096 + ((0x80 + (cp / 64) % 64) % 64) * 64 + (0x80 + cp % 64) % 64 == cp
  {
    var q, r := cp / 64, cp % 64;
    var q2, r2 := q / 64, q % 64;
    assert cp / 4096 == q2;
    assert (0xE0 + q2) % 16 == q2;
    assert (0x80 + r2) % 64 == r2;
    assert (0x80 + r) % 64 == r;
    assert q2 * 4096 + r2 * 64 == q * 64;
  }

  lemma FourByteDecodes(cp: int)
    requires 0x10000 <= cp < 0x110000
    ensures ((0xF0 + cp / 262144) % 8) * 262144 + ((0x80 + (cp / 4096) % 64) % 64) * 4096
            + ((0x80 + (cp / 64) % 64) % 64) * 64 + (0x80 + cp % 64) % 64 == cp
  {
    var q, r := cp / 64, cp % 64;
    var q2, r2 := q / 64, q % 64;
    var q3, r3 := q2 / 64, q2 % 64;
    assert cp / 4096 == q2;
    assert cp / 262144 == q3;
    assert (0xF0 + q3) % 8 == q3;
    assert (0x80 + r3) % 64 == r3;
    assert (0x80 + r2) % 64 == r2;
    assert (0x80 + r) % 64 == r;
    assert q3 * 262144 + r3 * 4096 == q2 * 4096;
    assert q2 * 4096 + r2 * 64 == q * 64;
  }

  /** UTF-8 encoding of a string, character by character. */
  function Utf8(s: string): (bs: seq<byte>)
    ensures |bs| >= |s|
  {
    if |s| == 0 then [] else Utf8Char(s[0]) + Utf8(s[1..])
  }

  /** An ASCII string encodes as one byte per character, each byte the character's code. */
  lemma {:induction false} Utf8Ascii(s: string)
    requires IsAscii(s)
    ensures |Utf8(s)| == |s| && forall i :: 0 <= i < |s| ==> Utf8(s)[i] == s[i] as int
    decreases |s|
  {
    if |s| > 0 {
      assert IsAscii(s[1..]) by {
        forall i | 0 <= i < |s[1..]| ensures s[1..][i] as int < 128 {
          assert s[1..][i] == s[i + 1];
        }
      }
      Utf8Ascii(s[1..]);
      var r := Utf8(s[1..]);
      assert Utf8(s) == [s[0] as int] + r;
      forall i | 0 <= i < |s| ensures Utf8(s)[i] == s[i] as int {
        if i > 0 { assert Utf8(s)[i] == r[i - 1] && s[1..][i - 1] == s[i]; }
      }
    }
  }

  /** Reads every byte as the character with the same code (Node's "binary"/latin1). */
  function Latin1(bs: seq<byte>): (s: string)
    ensures |s| == |bs|
    ensures forall i :: 0 <= i < |bs| ==> s[i] as int == bs[i]
  {
    if |bs| == 0 then [] else [bs[0] as char] + Latin1(bs[1..])
  }

  /** What an identifier part becomes after a UTF-8 write and a Latin-1 read. */
  function Garble(s: string): string {
    Latin1(Utf8(s))
  }

  lemma {:induction false} Utf8Concat(a: string, b: string)
    ensures Utf8(a + b) == Utf8(a) + Utf8(b)
    decreases |a|
  {
    if |a| == 0 {
      assert a + b == b;
    } else {
      assert (a + b)[1..] == a[1..] + b;
      Utf8Concat(a[1..], b);
    }
  }

  lemma {:induction false} Latin1Concat(a: seq<byte>, b: seq<byte>)
    ensures Latin1(a + b) == Latin1(a) + Latin1(b)
    decreases |a|
  {
    if |a| == 0 {
      assert a + b == b;
    } else {
      assert (a + b)[1..] == a[1..] + b;
      Latin1Concat(a[1..], b);
    }
  }

  lemma GarbleConcat(a: string, b: string)
    ensures Garble(a + b) == Garble(a) + Garble(b)
  {
    Utf8Concat(a, b);
    Latin1Concat(Utf8(a), Utf8(b));
  }

  /** Every character a non-ASCII character garbles into is itself non-ASCII. */
  lemma GarbleNonAsciiChar(c: char)
    requires c as int >= 128
    ensures forall i :: 0 <= i < |Garble([c])| ==> Garble([c])[i] as int >= 128
    ensures |Garble([c])| >= 2
  {
    assert Utf8([c]) == Utf8Char(c) + Utf8([]);
  }

  /** Garbling leaves a string unchanged exactly when the string is ASCII. */
  lemma {:induction false} GarbleFixedIffAscii(s: string)
    ensures Garble(s) == s <==> IsAscii(s)
    decreases |s|
  {
    if IsAscii(s) {
      Utf8Ascii(s);
      assert Garble(s) == s;
    } else {
      GarbleGrows(s);
    }
  }

  /** A string with a non-ASCII character garbles into a strictly longer one. */
  lemma {:induction false} GarbleGrows(s: string)
    requires !IsAscii(s)
    ensures |Garble(s)| > |s|
    decreases |s|
  {
    assert s == [s[0]] + s[1..];
    GarbleConcat([s[0]], s[1..]);
    assert Utf8([s[0]]) == Utf8Char(s[0]) + Utf8([]);
    if s[0] as int >= 128 {
      assert |Garble([s[0]])| >= 2;
    } else {
      assert !IsAscii(s[1..]) by {
        var i :| 0 <= i < |s| && s[i] as int >= 128;
        assert i > 0 && s[1..][i - 1] == s[i];
      }
      GarbleGrows(s[1..]);
    }
  }
}
