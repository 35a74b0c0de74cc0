/**
 * The chapter-number pattern of `listChapters` (src/index.js:380, 394-400):
 *
 *     /ch(?:ap(?:ter)?)?[\s\.]*(\d+(\.\d+)?)/i
 *
 * `String.prototype.match` without the `g` flag returns the leftmost match;
 * the captured group 1 is the chapter number.
 *
 * Matching at one position follows the backtracking order of the pattern:
 * the optional prefix parts are greedy, so "chapter" is tried before "chap"
 * before "ch". Inside the rest `[\s\.]*\d+(\.\d+)?` no backtracking can change
 * the outcome: giving back separators leaves a separator, not a digit, in
 * front of `\d+`, and after `\d+` everything is optional. So the rest is
 * matched greedily in one pass.
 *
 * Under the `i` flag without `u`, a character matches a letter of the pattern
 * when both upper-case to the same character and no non-ASCII character is
 * mapped onto an ASCII one, so only the ASCII letters of either case match.
 */
module ChapterNumber {
  import opened Wrappers
  import Text

  predicate IsDigit(c: char) {
    '0' <= c <= '9'
  }

  /** `[\s\.]` */
  predicate IsSeparator(c: char) {
    Text.IsSpace(c) || c == '.'
  }

  /** `c` matches the lower-case ASCII letter `l` case-insensitively. */
  predicate SameLetter(c: char, l: char)
    requires 'a' <= l <= 'z'
  {
    c == l || c as int == l as int - 32
  }

  predicate IsLowerWord(w: string) {
    |w| > 0 && forall k :: 0 <= k < |w| ==> 'a' <= w[k] <= 'z'
  }

  /** The word `w` occurs case-insensitively at position `i` of `s`. */
  predicate WordAt(s: string, i: nat, w: string)
    requires IsLowerWord(w)
  {
    i + |w| <= |s| && forall k :: 0 <= k < |w| ==> SameLetter(s[i + k], w[k])
  }

  /** The first position at or after `i` whose character is not accepted by `p`. */
  function SkipWhile(s: string, i: nat, p: char -> bool): (j: nat)
    requires i <= |s|
    ensures i <= j <= |s|
    ensures forall k :: i <= k < j ==> p(s[k])
    ensures j < |s| ==> !p(s[j])
    decreases |s| - i
  {
    if i < |s| && p(s[i]) then SkipWhile(s, i + 1, p) else i
  }

  /**
   * A match of the pattern: it begins at `at`, and the captured number is
   * `s[start..end]`.
   */
  datatype Capture = Capture(at: nat, start: nat, end: nat)

  /**
   * The capture cannot be extended: no digit follows it, and when it has no
   * fraction, no `.` followed by a digit does either.
   */
  predicate IsMaximal(s: string, start: nat, end: nat)
    requires start <= end <= |s|
  {
    && !(end < |s| && IsDigit(s[end]))
    && ('.' !in s[start..end] ==> !(end + 1 < |s| && s[end] == '.' && IsDigit(s[end + 1])))
  }

  /**
   * `[\s\.]*(\d+(\.\d+)?)` matched greedily at position `j`: the bounds of
   * the number, or `None` when no digit follows the separators.
   */
  function RestAt(s: string, j: nat): (r: Option<(nat, nat)>)
    requires j <= |s|
    ensures r.Some? ==> j <= r.value.0 < r.value.1 <= |s|
    ensures r.Some? ==> forall t :: j <= t < r.value.0 ==> IsSeparator(s[t])
    ensures r.Some? ==> IsDecimal(s[r.value.0..r.value.1]) && IsMaximal(s, r.value.0, r.value.1)
  {
    var start := SkipWhile(s, j, IsSeparator);
    var k := SkipWhile(s, start, IsDigit);
    if k == start then None
    else if k + 1 < |s| && s[k] == '.' && IsDigit(s[k + 1]) then
      var end := SkipWhile(s, k + 1, IsDigit);
      FractionIsDecimal(s, start, k, end);
      Some((start, end))
    else
      DigitsAreDecimal(s, start, k);
      Some((start, k))
  }

  lemma DigitsAreDecimal(s: string, start: nat, k: nat)
    requires start < k <= |s|
    requires forall t :: start <= t < k ==> IsDigit(s[t])
    requires !(k + 1 < |s| && s[k] == '.' && IsDigit(s[k + 1]))
    requires k < |s| ==> !IsDigit(s[k])
    ensures IsDecimal(s[start..k]) && IsMaximal(s, start, k)
  {
    var n := s[start..k];
    assert forall t :: 0 <= t < |n| ==> n[t] == s[start + t];
  }

  lemma FractionIsDecimal(s: string, start: nat, k: nat, end: nat)
    requires start < k && k + 1 < end <= |s|
    requires forall t :: start <= t < k ==> IsDigit(s[t])
    requires s[k] == '.'
    requires forall t :: k + 1 <= t < end ==> IsDigit(s[t])
    requires end < |s| ==> !IsDigit(s[end])
    ensures IsDecimal(s[start..end]) && IsMaximal(s, start, end)
  {
    var n := s[start..end];
    assert forall t :: 0 <= t < |n| ==> n[t] == s[start + t];
    assert n[k - start] == '.';
    forall a, b | 0 <= a < b < |n| && n[a] == '.'
      ensures n[b] != '.'
    {
      assert a == k - start;
    }
  }

  /** The prefix alternatives of the pattern, in the order the regex engine tries them. */
  const Prefixes: seq<string> := ["chapter", "chap", "ch"]

  /** The first of `words` at position `i` after which the rest of the pattern matches. */
  function Alternatives(s: string, i: nat, words: seq<string>): (r: Option<Capture>)
    requires i <= |s|
    requires forall k :: 0 <= k < |words| ==> IsLowerWord(words[k])
    ensures r.Some? ==> r.value.at == i && i < r.value.start < r.value.end <= |s|
    ensures r.Some? ==> IsDecimal(s[r.value.start..r.value.end]) && IsMaximal(s, r.value.start, r.value.end)
  {
    if words == [] then None
    else
      var rest := if WordAt(s, i, words[0]) then RestAt(s, i + |words[0]|) else None;
      if rest.Some? then Some(Capture(i, rest.value.0, rest.value.1))
      else Alternatives(s, i, words[1..])
  }

  /**
   * Where a successful alternative puts the capture: right after one of the
   * words at `i` and the run of separators that follows it.
   */
  lemma {:induction false} AlternativesPrefix(s: string, i: nat, words: seq<string>) returns (k: nat)
    requires i <= |s|
    requires forall k :: 0 <= k < |words| ==> IsLowerWord(words[k])
    requires Alternatives(s, i, words).Some?
    ensures k < |words| && WordAt(s, i, words[k])
    ensures forall t :: i + |words[k]| <= t < Alternatives(s, i, words).value.start ==> IsSeparator(s[t])
    decreases |words|
  {
    if WordAt(s, i, words[0]) && RestAt(s, i + |words[0]|).Some? {
      k := 0;
    } else {
      var k' := AlternativesPrefix(s, i, words[1..]);
      k := k' + 1;
      assert words[1..][k'] == words[k];
    }
  }

  /** The whole pattern at position `i`, with the prefix alternatives in backtracking order. */
  function MatchAt(s: string, i: nat): (r: Option<Capture>)
    requires i <= |s|
    ensures r.Some? ==> r.value.at == i && i < r.value.start < r.value.end <= |s|
    ensures r.Some? ==> IsDecimal(s[r.value.start..r.value.end]) && IsMaximal(s, r.value.start, r.value.end)
  {
    Alternatives(s, i, Prefixes)
  }

  /** The leftmost match at or after position `i`. */
  function FindFrom(s: string, i: nat): (r: Option<Capture>)
    requires i <= |s|
    ensures r.Some? ==> i <= r.value.at <= |s| && MatchAt(s, r.value.at) == r
    ensures r.None? ==> forall q :: i <= q <= |s| ==> MatchAt(s, q).None?
    decreases |s| - i
  {
    var m := MatchAt(s, i);
    if m.Some? then m
    else if i == |s| then None
    else
      FindFrom(s, i + 1)
  }

  /** The match `FindFrom` returns is the leftmost one: no earlier position matches. */
  lemma {:induction false} FindFromLeftmost(s: string, i: nat, q: nat)
    requires i <= q <= |s|
    requires FindFrom(s, i).Some? && q < FindFrom(s, i).value.at
    ensures MatchAt(s, q).None?
    decreases q - i
  {
    if MatchAt(s, i).None? && q > i {
      FindFromLeftmost(s, i + 1, q);
    }
  }

  /** `title.match(chapterNumberRegex)[1]`, or `None` when the title does not match. */
  function ChapterNumber(title: string): (r: Option<string>)
    ensures r.Some? ==> IsDecimal(r.value)
  {
    match FindFrom(title, 0)
    case None => None
    case Some(c) => Some(title[c.start..c.end])
  }

  // ---------------------------------------------------------------------------
  // An independent description of "the pattern matches here"

  /** `\d+(\.\d+)?` as a string: digits, with at most one `.` that has digits on both sides. */
  predicate IsDecimal(n: string) {
    && |n| > 0 && IsDigit(n[0]) && IsDigit(n[|n| - 1])
    && (forall k :: 0 <= k < |n| ==> IsDigit(n[k]) || n[k] == '.')
    && (forall k, l :: 0 <= k < l < |n| && n[k] == '.' ==> n[l] != '.')
  }

  /** The word `w` occurs at `i`, followed by separators and a digit. */
  predicate PrefixThenDigit(s: string, i: nat, w: string)
    requires IsLowerWord(w)
  {
    WordAt(s, i, w) && DigitFollows(s, i + |w|)
  }

  /**
   * The pattern matches at `i`: one of the prefixes, some separators, then a
   * digit (everything after the first digit is optional).
   */
  ghost predicate MatchesAt(s: string, i: nat) {
    exists k :: 0 <= k < |Prefixes| && PrefixThenDigit(s, i, Prefixes[k])
  }

  /** `[\s\.]*\d` matches at position `j`: a run of separators, then a digit. */
  predicate DigitFollows(s: string, j: nat)
    decreases |s| - j
  {
    j < |s| && (IsDigit(s[j]) || (IsSeparator(s[j]) && DigitFollows(s, j + 1)))
  }

  /** Skipping the separators at `j` lands on a digit exactly when `DigitFollows(s, j)`. */
  lemma {:induction false} SkipToDigit(s: string, j: nat)
    requires j <= |s|
    ensures DigitFollows(s, j) <==>
              (SkipWhile(s, j, IsSeparator) < |s| && IsDigit(s[SkipWhile(s, j, IsSeparator)]))
    decreases |s| - j
  {
    if j < |s| && IsSeparator(s[j]) {
      SkipToDigit(s, j + 1);
    }
  }

  /** Some alternative succeeds exactly when one of the words is followed by separators and a digit. */
  lemma {:induction false} AlternativesIff(s: string, i: nat, words: seq<string>)
    requires i <= |s|
    requires forall k :: 0 <= k < |words| ==> IsLowerWord(words[k])
    ensures Alternatives(s, i, words).Some? <==>
              exists k :: 0 <= k < |words| && PrefixThenDigit(s, i, words[k])
  {
    if words != [] {
      AlternativesIff(s, i, words[1..]);
      if WordAt(s, i, words[0]) {
        SkipToDigit(s, i + |words[0]|);
      }
      if !PrefixThenDigit(s, i, words[0]) {
        forall k | 0 < k < |words| && PrefixThenDigit(s, i, words[k])
          ensures PrefixThenDigit(s, i, words[1..][k - 1])
        {
          assert words[1..][k - 1] == words[k];
        }
      }
    }
  }

  /** The matcher at one position succeeds exactly when the pattern matches there. */
  lemma MatchAtIff(s: string, i: nat)
    requires i <= |s|
    ensures MatchAt(s, i).Some? <==> MatchesAt(s, i)
  {
    AlternativesIff(s, i, Prefixes);
  }

  /** No number is extracted exactly when the pattern matches nowhere in the title. */
  lemma ChapterNumberNoneIff(title: string)
    ensures ChapterNumber(title).None? <==> forall q :: 0 <= q <= |title| ==> !MatchesAt(title, q)
  {
    if ChapterNumber(title).None? {
      forall q | 0 <= q <= |title| ensures !MatchesAt(title, q) {
        MatchAtIff(title, q);
      }
    } else {
      MatchAtIff(title, FindFrom(title, 0).value.at);
    }
  }

  /**
   * The extracted number belongs to the leftmost match, starts right after
   * that match's prefix and separators, and is the longest decimal the
   * pattern can capture there.
   */
  lemma ChapterNumberLeftmost(title: string)
    requires ChapterNumber(title).Some?
    ensures var c := FindFrom(title, 0).value;
      && MatchesAt(title, c.at)
      && (forall q :: 0 <= q < c.at ==> !MatchesAt(title, q))
      && ChapterNumber(title).value == title[c.start..c.end]
      && (exists k :: 0 <= k < |Prefixes| && WordAt(title, c.at, Prefixes[k])
            && forall t :: c.at + |Prefixes[k]| <= t < c.start ==> IsSeparator(title[t]))
      && IsMaximal(title, c.start, c.end)
  {
    var c := FindFrom(title, 0).value;
    MatchAtIff(title, c.at);
    var k := AlternativesPrefix(title, c.at, Prefixes);
    forall q | 0 <= q < c.at ensures !MatchesAt(title, q) {
      FindFromLeftmost(title, 0, q);
      MatchAtIff(title, q);
    }
  }

  /** "Chapter 12.5 - Homecoming" yields "12.5". */
  lemma ChapterNumberWithFraction(t: string)
    requires t == "Chapter 12.5 - Homecoming"
    ensures ChapterNumber(t) == Some("12.5")
  {
    FractionMatchAt(t);
    assert t[8..12] == "12.5";
  }

  lemma FractionMatchAt(t: string)
    requires t == "Chapter 12.5 - Homecoming"
    ensures MatchAt(t, 0) == Some(Capture(0, 8, 12))
  {
    assert WordAt(t, 0, "chapter");
    FractionRestAt(t);
  }

  lemma FractionRestAt(t: string)
    requires t == "Chapter 12.5 - Homecoming"
    ensures RestAt(t, 7) == Some((8, 12))
  {
    assert t[7] == ' ' && t[8] == '1' && t[9] == '2' && t[10] == '.' && t[11] == '5' && t[12] == ' ';
    SkipOne(t, 7, IsSeparator);
    SkipNone(t, 8, IsSeparator);
    SkipOne(t, 8, IsDigit);
    SkipOne(t, 9, IsDigit);
    SkipNone(t, 10, IsDigit);
    SkipOne(t, 11, IsDigit);
    SkipNone(t, 12, IsDigit);
  }

  /** `SkipWhile` moves past a character `p` accepts. */
  lemma SkipOne(s: string, i: nat, p: char -> bool)
    requires i < |s| && p(s[i])
    ensures SkipWhile(s, i, p) == SkipWhile(s, i + 1, p)
  {
  }

  /** `SkipWhile` stops at a character `p` refuses, or at the end. */
  lemma SkipNone(s: string, i: nat, p: char -> bool)
    requires i <= |s| && (i < |s| ==> !p(s[i]))
    ensures SkipWhile(s, i, p) == i
  {
  }

  /** The number is read greedily but with at most one fraction. */
  lemma ChapterNumberShortPrefix(t: string)
    requires t == "Ch. 3.5.1"
    ensures ChapterNumber(t) == Some("3.5")
  {
    ShortMatchAt(t);
    assert t[4..7] == "3.5";
  }

  lemma ShortMatchAt(t: string)
    requires t == "Ch. 3.5.1"
    ensures MatchAt(t, 0) == Some(Capture(0, 4, 7))
  {
    NotChapterOrChap(t);
    AlternativesSkip(t, 0, Prefixes);
    AlternativesSkip(t, 0, Prefixes[1..]);
    assert Prefixes[1..][1..] == ["ch"];
    assert WordAt(t, 0, "ch");
    ShortRestAt(t);
  }

  lemma NotChapterOrChap(t: string)
    requires t == "Ch. 3.5.1"
    ensures !WordAt(t, 0, Prefixes[0]) && !WordAt(t, 0, Prefixes[1..][0])
  {
    assert Prefixes[0] == "chapter" && Prefixes[1..][0] == "chap";
    assert !SameLetter(t[2], "chapter"[2]) && !SameLetter(t[2], "chap"[2]);
  }

  /** An alternative whose word is not at `i` is passed over. */
  lemma AlternativesSkip(s: string, i: nat, words: seq<string>)
    requires i <= |s| && |words| > 0
    requires forall k :: 0 <= k < |words| ==> IsLowerWord(words[k])
    requires !WordAt(s, i, words[0])
    ensures Alternatives(s, i, words) == Alternatives(s, i, words[1..])
  {
  }

  lemma ShortRestAt(t: string)
    requires t == "Ch. 3.5.1"
    ensures RestAt(t, 2) == Some((4, 7))
  {
    assert t[2] == '.' && t[3] == ' ' && t[4] == '3' && t[5] == '.' && t[6] == '5' && t[7] == '.';
    SkipOne(t, 2, IsSeparator);
    SkipOne(t, 3, IsSeparator);
    SkipNone(t, 4, IsSeparator);
    SkipOne(t, 4, IsDigit);
    SkipNone(t, 5, IsDigit);
    SkipOne(t, 6, IsDigit);
    SkipNone(t, 7, IsDigit);
  }
}
