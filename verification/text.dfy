/**
 * Text clean-up shared by every field read from the markup:
 *   - `replace(/\s+/g, sep)`: every run of whitespace becomes one `sep`;
 *   - `replace(/&amp;/g, "&")`: the entity is unescaped, left to right, without overlap;
 *   - `trim()`: leading and trailing whitespace is dropped;
 * and the last segment of a URL path, `pathname.split("/")[length - 1]`.
 */
module Text {
  import opened Seqs

  /**
   * JavaScript's whitespace: the class `\s` of regular expressions, which is
   * also the set `String.prototype.trim` removes (WhiteSpace and LineTerminator
   * of ECMA-262).
   */
  predicate IsSpace(c: char) {
    var n := c as int;
    || n == 0x09 || n == 0x0A || n == 0x0B || n == 0x0C || n == 0x0D || n == 0x20
    || n == 0xA0 || n == 0x1680 || (0x2000 <= n <= 0x200A) || n == 0x2028 || n == 0x2029
    || n == 0x202F || n == 0x205F || n == 0x3000 || n == 0xFEFF
  }

  predicate HasNoSpace(s: string) {
    forall i :: 0 <= i < |s| ==> !IsSpace(s[i])
  }

  /** The index of the first non-whitespace character at or after `i`, or `|s|`. */
  function SkipSpaces(s: string, i: nat): (j: nat)
    requires i <= |s|
    ensures i <= j <= |s|
    ensures forall k :: i <= k < j ==> IsSpace(s[k])
    ensures j < |s| ==> !IsSpace(s[j])
    decreases |s| - i
  {
    if i < |s| && IsSpace(s[i]) then SkipSpaces(s, i + 1) else i
  }

  /** The index just after the last non-whitespace character before `j`, or 0. */
  function SkipSpacesBack(s: string, j: nat): (i: nat)
    requires j <= |s|
    ensures i <= j
    ensures forall k :: i <= k < j ==> IsSpace(s[k])
    ensures i > 0 ==> !IsSpace(s[i - 1])
  {
    if j > 0 && IsSpace(s[j - 1]) then SkipSpacesBack(s, j - 1) else j
  }

  /** Drops the leading whitespace. */
  function TrimStart(s: string): (r: string)
    ensures |r| <= |s|
    ensures forall i :: 0 <= i < |s| - |r| ==> IsSpace(s[i])
    ensures |r| > 0 ==> !IsSpace(r[0])
  {
    s[SkipSpaces(s, 0)..]
  }

  /** Drops the trailing whitespace. */
  function TrimEnd(s: string): (r: string)
    ensures |r| <= |s|
    ensures forall i :: |r| <= i < |s| ==> IsSpace(s[i])
    ensures |r| > 0 ==> !IsSpace(r[|r| - 1])
  {
    s[..SkipSpacesBack(s, |s|)]
  }

  /** `String.prototype.trim`. */
  function Trim(s: string): (r: string)
    ensures |r| <= |s|
    ensures |r| > 0 ==> !IsSpace(r[0]) && !IsSpace(r[|r| - 1])
  {
    TrimEnd(TrimStart(s))
  }

  /** What `trim` keeps is a contiguous slice, and only whitespace lies on either side of it. */
  lemma TrimIsSlice(s: string)
    ensures exists a, b :: (0 <= a <= b <= |s| && Trim(s) == s[a..b]
                            && (forall i :: 0 <= i < a ==> IsSpace(s[i]))
                            && (forall i :: b <= i < |s| ==> IsSpace(s[i])))
  {
    var t := TrimStart(s);
    var r := TrimEnd(t);
    var a, b := |s| - |t|, |s| - |t| + |r|;
    assert r == s[a..b] by {
      assert t == s[a..] && r == t[..|r|];
    }
    assert forall i :: 0 <= i < a ==> IsSpace(s[i]);
    assert forall i :: b <= i < |s| ==> IsSpace(s[i]) by {
      forall i | b <= i < |s| ensures IsSpace(s[i]) {
        assert s[i] == t[i - a];
      }
    }
    assert 0 <= a <= b <= |s| && Trim(s) == s[a..b];
  }

  /** `s.replace(/\s+/g, [sep])`: each maximal run of whitespace becomes one `sep`. */
  function CollapseSpaces(s: string, sep: char): (r: string)
    ensures |r| <= |s|
    ensures |s| > 0 ==> |r| > 0 && r[0] == (if IsSpace(s[0]) then sep else s[0])
    decreases |s|
  {
    if |s| == 0 then ""
    else if IsSpace(s[0]) then
      var rest := TrimStart(s);
      assert |rest| < |s|;
      [sep] + CollapseSpaces(rest, sep)
    else [s[0]] + CollapseSpaces(s[1..], sep)
  }

  const AmpEntity: string := "&amp;"

  /** `s.replace(/&amp;/g, "&")`: scans left to right and resumes after each replaced entity. */
  function UnescapeAmp(s: string): (r: string)
    ensures |r| <= |s|
    ensures |s| > 0 ==> |r| > 0 && r[0] == s[0]
    decreases |s|
  {
    if |s| == 0 then ""
    else if |s| >= 5 && s[..5] == AmpEntity then "&" + UnescapeAmp(s[5..])
    else [s[0]] + UnescapeAmp(s[1..])
  }

  /** The inverse direction: every `&` written as the entity `&amp;`. */
  function EscapeAmp(t: string): string {
    if |t| == 0 then ""
    else if t[0] == '&' then AmpEntity + EscapeAmp(t[1..])
    else [t[0]] + EscapeAmp(t[1..])
  }

  /** The series-title cleaner (src/index.js:196, 228-232, 285-289, 355). */
  function CleanTitle(s: string): (r: string)
    ensures |r| <= |s|
  {
    Trim(UnescapeAmp(CollapseSpaces(s, ' ')))
  }

  /** The chapter-title cleaner (src/index.js:392): no entity step. */
  function CleanChapterTitle(s: string): (r: string)
    ensures |r| <= |s|
  {
    Trim(CollapseSpaces(s, ' '))
  }

  /** The search query (src/index.js:254): each whitespace run becomes `+`. */
  function SanitizeQuery(name: string): (r: string)
    ensures HasNoSpace(r)
  {
    CollapseKeepsOnlySep(name, '+');
    CollapseSpaces(name, '+')
  }

  // ---------------------------------------------------------------------------
  // What a cleaned title looks like

  /** Position `i` starts a pair of adjacent whitespace characters. */
  predicate SpacePairAt(s: string, i: int)
    requires 0 <= i < |s| - 1
  {
    IsSpace(s[i]) && IsSpace(s[i + 1])
  }

  predicate NoAdjacentSpaces(s: string) {
    forall i :: 0 <= i < |s| - 1 ==> !SpacePairAt(s, i)
  }

  predicate OnlyPlainSpaces(s: string) {
    forall i :: 0 <= i < |s| ==> IsSpace(s[i]) ==> s[i] == ' '
  }

  /**
   * A normalised title: no whitespace at either end, no two whitespace
   * characters in a row, and every whitespace character a plain space.
   */
  predicate IsNormalized(s: string) {
    && (|s| > 0 ==> !IsSpace(s[0]) && !IsSpace(s[|s| - 1]))
    && NoAdjacentSpaces(s)
    && OnlyPlainSpaces(s)
  }

  lemma {:induction false} CollapseKeepsOnlySep(s: string, sep: char)
    ensures forall i :: 0 <= i < |CollapseSpaces(s, sep)| ==> IsSpace(CollapseSpaces(s, sep)[i]) ==> CollapseSpaces(s, sep)[i] == sep
    decreases |s|
  {
    if |s| > 0 {
      if IsSpace(s[0]) {
        CollapseKeepsOnlySep(TrimStart(s), sep);
      } else {
        CollapseKeepsOnlySep(s[1..], sep);
      }
    }
  }

  lemma {:induction false} CollapseNoAdjacent(s: string)
    ensures NoAdjacentSpaces(CollapseSpaces(s, ' '))
    decreases |s|
  {
    var r := CollapseSpaces(s, ' ');
    if |s| > 0 {
      var rest := if IsSpace(s[0]) then TrimStart(s) else s[1..];
      var tail := CollapseSpaces(rest, ' ');
      CollapseNoAdjacent(rest);
      assert r == [r[0]] + tail;
      assert |tail| > 0 ==> !(IsSpace(r[0]) && IsSpace(tail[0])) by {
        if |tail| > 0 && IsSpace(s[0]) {
          assert !IsSpace(rest[0]);
        }
      }
      NoAdjacentCons(r[0], tail);
    }
  }

  /** Putting a character in front keeps a text free of adjacent spaces unless it makes a new pair. */
  lemma NoAdjacentCons(c: char, t: string)
    requires NoAdjacentSpaces(t)
    requires |t| > 0 ==> !(IsSpace(c) && IsSpace(t[0]))
    ensures NoAdjacentSpaces([c] + t)
  {
    var r := [c] + t;
    forall i | 0 <= i < |r| - 1
      ensures !SpacePairAt(r, i)
    {
      if i > 0 {
        assert r[i] == t[i - 1] && r[i + 1] == t[i];
        assert !SpacePairAt(t, i - 1);
      }
    }
  }

  /** `UnescapeAmp` keeps a character only if it was already there. */
  lemma {:induction false} UnescapeChars(s: string)
    ensures forall i :: 0 <= i < |UnescapeAmp(s)| ==> UnescapeAmp(s)[i] in s
    decreases |s|
  {
    if |s| > 0 {
      var r := UnescapeAmp(s);
      if |s| >= 5 && s[..5] == AmpEntity {
        UnescapeChars(s[5..]);
        assert forall c :: c in s[5..] ==> c in s;
      } else {
        UnescapeChars(s[1..]);
        assert forall c :: c in s[1..] ==> c in s;
      }
    }
  }

  /** Unescaping never puts two whitespace characters next to each other. */
  lemma {:induction false} UnescapeNoAdjacent(s: string)
    requires NoAdjacentSpaces(s)
    ensures NoAdjacentSpaces(UnescapeAmp(s))
    decreases |s|
  {
    if |s| > 0 {
      var r := UnescapeAmp(s);
      var entity := |s| >= 5 && s[..5] == AmpEntity;
      var rest := if entity then s[5..] else s[1..];
      assert NoAdjacentSpaces(rest) by {
        var d := |s| - |rest|;
        forall i | 0 <= i < |rest| - 1
          ensures !SpacePairAt(rest, i)
        {
          assert rest[i] == s[i + d] && rest[i + 1] == s[i + d + 1];
          assert !SpacePairAt(s, i + d);
        }
      }
      UnescapeNoAdjacent(rest);
      var tail := UnescapeAmp(rest);
      assert r == [r[0]] + tail;
      forall i | 0 <= i < |r| - 1
        ensures !SpacePairAt(r, i)
      {
        if i == 0 {
          if !entity {
            assert tail[0] == rest[0] == s[1];
            assert !SpacePairAt(s, 0);
          }
        } else {
          assert r[i] == tail[i - 1] && r[i + 1] == tail[i];
          assert !SpacePairAt(tail, i - 1);
        }
      }
    }
  }

  /** Trimming keeps a slice, so it keeps both inner properties, and cleans both ends. */
  lemma {:induction false} TrimNormalizes(s: string)
    requires NoAdjacentSpaces(s) && OnlyPlainSpaces(s)
    ensures IsNormalized(Trim(s))
  {
    var a := TrimOffset(s);
    SliceKeepsShape(s, a, a + |Trim(s)|);
  }

  /** Where the trimmed text starts inside the original. */
  lemma TrimOffset(s: string) returns (a: nat)
    ensures a + |Trim(s)| <= |s| && Trim(s) == s[a..a + |Trim(s)|]
  {
    var t := TrimStart(s);
    a := |s| - |t|;
    assert t == s[a..] && TrimEnd(t) == t[..|TrimEnd(t)|];
  }

  /** A slice of a text with single plain spaces has single plain spaces. */
  lemma SliceKeepsShape(s: string, a: nat, b: nat)
    requires a <= b <= |s| && NoAdjacentSpaces(s) && OnlyPlainSpaces(s)
    ensures NoAdjacentSpaces(s[a..b]) && OnlyPlainSpaces(s[a..b])
  {
    var r := s[a..b];
    forall i | 0 <= i < |r| - 1
      ensures !SpacePairAt(r, i)
    {
      assert r[i] == s[a + i] && r[i + 1] == s[a + i + 1];
      assert !SpacePairAt(s, a + i);
    }
    forall i | 0 <= i < |r|
      ensures IsSpace(r[i]) ==> r[i] == ' '
    {
      assert r[i] == s[a + i];
    }
  }

  /** Every cleaned series title is normalised (src/index.js:196, 228-232, 285-289, 355). */
  lemma CleanTitleNormalized(s: string)
    ensures IsNormalized(CleanTitle(s))
  {
    var c := CollapseSpaces(s, ' ');
    CollapseKeepsOnlySep(s, ' ');
    CollapseNoAdjacent(s);
    UnescapeNoAdjacent(c);
    var u := UnescapeAmp(c);
    UnescapeChars(c);
    forall i | 0 <= i < |u|
      ensures IsSpace(u[i]) ==> u[i] == ' '
    {
      var j :| 0 <= j < |c| && c[j] == u[i];
    }
    TrimNormalizes(u);
  }

  /** Every cleaned chapter title is normalised (src/index.js:392). */
  lemma CleanChapterTitleNormalized(s: string)
    ensures IsNormalized(CleanChapterTitle(s))
  {
    CollapseKeepsOnlySep(s, ' ');
    CollapseNoAdjacent(s);
    TrimNormalizes(CollapseSpaces(s, ' '));
  }

  // ---------------------------------------------------------------------------
  // Fixed points, content, and the entity round trip

  /** Skipping a whitespace run at the front of `w + b` stops where `b` begins. */
  lemma {:induction false} SkipSpacesRun(w: string, b: string, i: nat)
    requires i <= |w| && forall k :: 0 <= k < |w| ==> IsSpace(w[k])
    requires |b| == 0 || !IsSpace(b[0])
    ensures SkipSpaces(w + b, i) == |w|
    decreases |w| - i
  {
    if i < |w| {
      assert (w + b)[i] == w[i];
      SkipSpacesRun(w, b, i + 1);
    } else if |b| > 0 {
      assert (w + b)[i] == b[0];
    }
  }

  /** Skipping that stops inside `a` stops at the same place when more text follows `a`. */
  lemma {:induction false} SkipSpacesInPrefix(a: string, t: string, i: nat)
    requires i <= |a| && SkipSpaces(a, i) < |a|
    ensures SkipSpaces(a + t, i) == SkipSpaces(a, i)
    decreases |a| - i
  {
    assert (a + t)[i] == a[i];
    if IsSpace(a[i]) {
      SkipSpacesInPrefix(a, t, i + 1);
    }
  }

  /** A text that starts with whitespace collapses to `sep` and the collapse of what follows the run. */
  lemma CollapseLeadingRun(w: string, b: string, sep: char)
    requires |w| > 0 && forall k :: 0 <= k < |w| ==> IsSpace(w[k])
    requires |b| == 0 || !IsSpace(b[0])
    ensures CollapseSpaces(w + b, sep) == [sep] + CollapseSpaces(b, sep)
  {
    SkipSpacesRun(w, b, 0);
    assert (w + b)[0] == w[0];
    assert (w + b)[|w|..] == b;
  }

  /**
   * Each maximal run of whitespace becomes exactly one `sep`: a run between
   * two visible characters (or an end of the text) collapses on its own,
   * and the text on either side collapses independently.
   */
  lemma {:induction false} CollapseRun(a: string, w: string, b: string, sep: char)
    requires |a| == 0 || !IsSpace(a[|a| - 1])
    requires |w| > 0 && forall k :: 0 <= k < |w| ==> IsSpace(w[k])
    requires |b| == 0 || !IsSpace(b[0])
    ensures CollapseSpaces(a + w + b, sep) == CollapseSpaces(a, sep) + [sep] + CollapseSpaces(b, sep)
    decreases |a|
  {
    if |a| == 0 {
      CollapseLeadingRun(w, b, sep);
      CollapseRunAtFront(a, w, b, sep);
    } else {
      var t := w + b;
      ConcatAssoc(a, w, b);
      CollapseLeadingRun(w, b, sep);
      var k, head := CollapseHeadStep(a, t, sep);
      CollapseRun(a[k..], w, b, sep);
      ConcatAssoc(a[k..], w, b);
      PrependHead(CollapseSpaces(a + t, sep), CollapseSpaces(a[k..] + t, sep),
                  CollapseSpaces(a, sep), CollapseSpaces(a[k..], sep), head, sep, CollapseSpaces(b, sep));
    }
  }

  /** With nothing in front, the run is the leading one that `CollapseLeadingRun` describes. */
  lemma CollapseRunAtFront(a: string, w: string, b: string, sep: char)
    requires |a| == 0
    requires CollapseSpaces(w + b, sep) == [sep] + CollapseSpaces(b, sep)
    ensures CollapseSpaces(a + w + b, sep) == CollapseSpaces(a, sep) + [sep] + CollapseSpaces(b, sep)
  {
    EmptyLeft(a, w);
    var e := CollapseSpaces(a, sep);
    assert |e| == 0;
    EmptyLeft(e, [sep]);
  }

  /** Putting the same first element in front of both sides keeps a sequence equation. */
  lemma PrependHead<T>(x: seq<T>, x': seq<T>, y: seq<T>, y': seq<T>, head: T, mid: T, z: seq<T>)
    requires x == [head] + x' && y == [head] + y'
    requires x' == y' + [mid] + z
    ensures x == y + [mid] + z
  {
  }

  /**
   * The first step of collapsing `a` is the same whether or not text follows
   * `a`, provided `a` ends with a visible character.
   */
  lemma CollapseHeadStep(a: string, t: string, sep: char) returns (k: nat, head: char)
    requires |a| > 0 && !IsSpace(a[|a| - 1])
    ensures 0 < k < |a| || k == |a| == 1
    ensures CollapseSpaces(a + t, sep) == [head] + CollapseSpaces(a[k..] + t, sep)
    ensures CollapseSpaces(a, sep) == [head] + CollapseSpaces(a[k..], sep)
  {
    assert (a + t)[0] == a[0];
    if IsSpace(a[0]) {
      k, head := SkipSpaces(a, 0), sep;
      SkipSpacesInPrefix(a, t, 0);
    } else {
      k, head := 1, a[0];
    }
    assert (a + t)[k..] == a[k..] + t;
  }

  /** A visible character, a whitespace run, then visible text: the run becomes one `sep`. */
  lemma CollapseBetween(x: char, w: string, y: string, sep: char)
    requires !IsSpace(x)
    requires |w| > 0 && forall k :: 0 <= k < |w| ==> IsSpace(w[k])
    requires |y| > 0 && !IsSpace(y[0])
    ensures CollapseSpaces([x] + w + y, sep) == [x, sep] + CollapseSpaces(y, sep)
  {
    CollapseRun([x], w, y, sep);
    CollapseSingle(x, sep);
    PairConcat(x, sep, CollapseSpaces(y, sep));
  }

  lemma CollapseSingle(x: char, sep: char)
    requires !IsSpace(x)
    ensures CollapseSpaces([x], sep) == [x]
  {
    assert [x][1..] == [];
  }

  /** `"a   b\n\tc"` collapses to `"a b c"`. */
  lemma CollapseExample(s: string)
    requires s == "a   b\n\tc"
    ensures CollapseSpaces(s, ' ') == "a b c"
  {
    var tail := "b\n\tc";
    CollapseExampleTail(tail);
    assert s == ['a'] + "   " + tail;
    CollapseBetween('a', "   ", tail, ' ');
  }

  lemma CollapseExampleTail(s: string)
    requires s == "b\n\tc"
    ensures CollapseSpaces(s, ' ') == "b c"
  {
    assert s == ['b'] + "\n\t" + "c";
    CollapseBetween('b', "\n\t", "c", ' ');
    CollapseSingle('c', ' ');
  }

  lemma {:induction false} CollapseWithoutSpaces(s: string, sep: char)
    requires HasNoSpace(s)
    ensures CollapseSpaces(s, sep) == s
    decreases |s|
  {
    if |s| > 0 {
      CollapseWithoutSpaces(s[1..], sep);
    }
  }

  /** The entity `&amp;` starts at position `i` of `s`. */
  predicate EntityAt(s: string, i: nat) {
    i + |AmpEntity| <= |s| && s[i..i + |AmpEntity|] == AmpEntity
  }

  /** No `&amp;` occurs in `s`; a bare `&`, as in "Tom & Jerry", may. */
  predicate HasNoEntity(s: string) {
    forall i :: 0 <= i < |s| ==> !EntityAt(s, i)
  }

  lemma HasNoEntityTail(s: string)
    requires |s| > 0 && HasNoEntity(s)
    ensures HasNoEntity(s[1..])
  {
    forall i | 0 <= i < |s[1..]| ensures !EntityAt(s[1..], i) {
      if i + |AmpEntity| <= |s[1..]| {
        assert s[1..][i..i + |AmpEntity|] == s[i + 1..i + 1 + |AmpEntity|];
        assert !EntityAt(s, i + 1);
      }
    }
  }

  /** Text holding no `&amp;` is untouched by the entity step; every bare `&` survives. */
  lemma {:induction false} UnescapeWithoutAmp(s: string)
    requires HasNoEntity(s)
    ensures UnescapeAmp(s) == s
    decreases |s|
  {
    if |s| > 0 {
      assert !EntityAt(s, 0);
      assert !(|s| >= 5 && s[..5] == AmpEntity) by {
        if |s| >= 5 { assert s[0..|AmpEntity|] == s[..5]; }
      }
      HasNoEntityTail(s);
      UnescapeWithoutAmp(s[1..]);
    }
  }

  lemma TrimKeepsClean(s: string)
    requires |s| > 0 ==> !IsSpace(s[0]) && !IsSpace(s[|s| - 1])
    ensures Trim(s) == s
  {
  }

  /** A normalised title holding no `&amp;` comes out of the cleaner unchanged, bare `&` included. */
  lemma CleanTitleKeepsPlain(s: string)
    requires IsNormalized(s) && HasNoEntity(s)
    ensures CleanTitle(s) == s
  {
    CollapseNormalized(s);
    UnescapeWithoutAmp(s);
    TrimKeepsClean(s);
  }

  /** `"Tom & Jerry"` is already clean: its bare `&` survives the cleaner. */
  lemma CleanTitleKeepsBareAmp(s: string)
    requires s == "Tom & Jerry"
    ensures CleanTitle(s) == s
  {
    assert IsNormalized(s) by {
      forall i | 0 <= i < |s| - 1 ensures !SpacePairAt(s, i) {
        assert s[i] != ' ' || s[i + 1] != ' ';
      }
    }
    assert HasNoEntity(s) by {
      forall i | 0 <= i < |s| ensures !EntityAt(s, i) {
        assert i + 5 <= |s| ==> s[i..i + 5][1] == s[i + 1];
      }
    }
    CleanTitleKeepsPlain(s);
  }
  lemma {:induction false} CollapseNormalized(s: string)
    requires NoAdjacentSpaces(s) && OnlyPlainSpaces(s)
    ensures CollapseSpaces(s, ' ') == s
    decreases |s|
  {
    if |s| > 0 {
      assert NoAdjacentSpaces(s[1..]) && OnlyPlainSpaces(s[1..]) by {
        forall i | 0 <= i < |s[1..]| - 1
          ensures !SpacePairAt(s[1..], i)
        {
          assert !SpacePairAt(s, i + 1);
        }
      }
      if IsSpace(s[0]) {
        if |s| > 1 {
          assert !SpacePairAt(s, 0);
        }
        assert TrimStart(s) == TrimStart(s[1..]) == s[1..];
      }
      CollapseNormalized(s[1..]);
    }
  }

  /** Normalised text is a fixed point of the chapter-title cleaner. */
  lemma NormalizedIsFixed(s: string)
    requires IsNormalized(s)
    ensures CleanChapterTitle(s) == s
  {
    CollapseNormalized(s);
  }

  /** The chapter-title cleaner is idempotent (unlike the series-title cleaner). */
  lemma CleanChapterTitleIdempotent(s: string)
    ensures CleanChapterTitle(CleanChapterTitle(s)) == CleanChapterTitle(s)
  {
    CleanChapterTitleNormalized(s);
    NormalizedIsFixed(CleanChapterTitle(s));
  }

  /** The series-title cleaner is not idempotent: a doubly escaped ampersand loses one level per pass. */
  lemma CleanTitleNotIdempotent()
    ensures CleanTitle("&amp;amp;") == "&amp;"
    ensures CleanTitle("&amp;") == "&"
  {
    CleanAmpAmp("&amp;amp;");
    CleanAmp("&amp;");
  }

  lemma CleanAmpAmp(t: string)
    requires t == "&amp;amp;"
    ensures CleanTitle(t) == "&amp;"
  {
    assert CollapseSpaces(t, ' ') == t by {
      LiteralHasNoSpace(t);
      CollapseWithoutSpaces(t, ' ');
    }
    UnescapeAmpAmp(t);
    assert Trim("&amp;") == "&amp;" by {
      TrimKeepsClean("&amp;");
    }
  }

  lemma UnescapeAmpAmp(t: string)
    requires t == "&amp;amp;"
    ensures UnescapeAmp(t) == "&amp;"
  {
    assert t[..5] == AmpEntity && t[5..] == "amp;";
    UnescapeWithoutAmp(t[5..]);
  }

  lemma CleanAmp(t: string)
    requires t == "&amp;"
    ensures CleanTitle(t) == "&"
  {
    assert CollapseSpaces(t, ' ') == t by {
      LiteralHasNoSpace(t);
      CollapseWithoutSpaces(t, ' ');
    }
    assert UnescapeAmp(t) == "&" by {
      assert t[..5] == AmpEntity && t[5..] == "";
    }
    assert Trim("&") == "&" by {
      TrimKeepsClean("&");
    }
  }

  /** Only ASCII letters and punctuation of the entity: no whitespace. */
  lemma LiteralHasNoSpace(s: string)
    requires forall i :: 0 <= i < |s| ==> s[i] in "&amp;"
    ensures HasNoSpace(s)
  {
  }

  /** Unescaping undoes escaping: every `&` written as `&amp;` reads back as `&`. */
  lemma {:induction false} UnescapeEscape(t: string)
    ensures UnescapeAmp(EscapeAmp(t)) == t
    decreases |t|
  {
    if |t| > 0 {
      var e := EscapeAmp(t);
      UnescapeEscape(t[1..]);
      if t[0] == '&' {
        assert e[..5] == AmpEntity && e[5..] == EscapeAmp(t[1..]);
      } else {
        assert e[1..] == EscapeAmp(t[1..]);
        assert !(|e| >= 5 && e[..5] == AmpEntity) by {
          if |e| >= 5 { assert e[0] == t[0]; }
        }
      }
      assert t == [t[0]] + t[1..];
    }
  }

  /** The text with every whitespace character removed. */
  function Visible(s: string): string {
    if |s| == 0 then ""
    else if IsSpace(s[0]) then Visible(s[1..])
    else [s[0]] + Visible(s[1..])
  }

  lemma {:induction false} VisibleConcat(a: string, b: string)
    ensures Visible(a + b) == Visible(a) + Visible(b)
    decreases |a|
  {
    if |a| > 0 {
      assert (a + b)[1..] == a[1..] + b;
      VisibleConcat(a[1..], b);
    } else {
      assert a + b == b;
    }
  }

  lemma {:induction false} VisibleOfSpaces(s: string)
    requires forall i :: 0 <= i < |s| ==> IsSpace(s[i])
    ensures Visible(s) == ""
    decreases |s|
  {
    if |s| > 0 {
      VisibleOfSpaces(s[1..]);
    }
  }

  /** Whitespace in front of a text does not show. */
  lemma SpacesThenVisible(a: string, b: string)
    requires forall i :: 0 <= i < |a| ==> IsSpace(a[i])
    ensures Visible(a + b) == Visible(b)
  {
    VisibleConcat(a, b);
    VisibleOfSpaces(a);
  }

  /** Whitespace after a text does not show. */
  lemma VisibleThenSpaces(a: string, b: string)
    requires forall i :: 0 <= i < |b| ==> IsSpace(b[i])
    ensures Visible(a + b) == Visible(a)
  {
    VisibleConcat(a, b);
    VisibleOfSpaces(b);
  }

  lemma {:induction false} CollapseKeepsVisible(s: string)
    ensures Visible(CollapseSpaces(s, ' ')) == Visible(s)
    decreases |s|
  {
    if |s| > 0 {
      var c := CollapseSpaces(s, ' ');
      if IsSpace(s[0]) {
        var rest := TrimStart(s);
        CollapseKeepsVisible(rest);
        assert s == s[..|s| - |rest|] + rest;
        SpacesThenVisible(s[..|s| - |rest|], rest);
        assert c[1..] == CollapseSpaces(rest, ' ');
      } else {
        CollapseKeepsVisible(s[1..]);
        assert c[1..] == CollapseSpaces(s[1..], ' ');
      }
    }
  }

  lemma {:induction false} TrimStartKeepsVisible(s: string)
    ensures Visible(TrimStart(s)) == Visible(s)
  {
    var t := TrimStart(s);
    var k := |s| - |t|;
    assert s == s[..k] + t;
    SpacesThenVisible(s[..k], t);
  }

  lemma {:induction false} TrimEndKeepsVisible(s: string)
    ensures Visible(TrimEnd(s)) == Visible(s)
  {
    var r := TrimEnd(s);
    assert s == r + s[|r|..];
    VisibleThenSpaces(r, s[|r|..]);
  }

  lemma TrimKeepsVisible(s: string)
    ensures Visible(Trim(s)) == Visible(s)
  {
    TrimStartKeepsVisible(s);
    TrimEndKeepsVisible(TrimStart(s));
  }

  /** The chapter-title cleaner keeps every non-whitespace character, in order. */
  lemma CleanChapterTitleKeepsVisible(s: string)
    ensures Visible(CleanChapterTitle(s)) == Visible(s)
  {
    CollapseKeepsVisible(s);
    TrimKeepsVisible(CollapseSpaces(s, ' '));
  }

  // ---------------------------------------------------------------------------
  // Last path segment

  /**
   * `path.split("/")[length - 1]` (src/index.js:233-234, 291-292, 402-403):
   * the longest suffix without `/`, which is the whole path when it has no `/`
   * and empty when it ends in `/`.
   */
  function LastSegment(path: string): (r: string)
    ensures '/' !in r
    ensures |r| <= |path| && r == path[|path| - |r|..]
    ensures |r| < |path| ==> path[|path| - |r| - 1] == '/'
  {
    if |path| == 0 || path[|path| - 1] == '/' then ""
    else LastSegment(path[..|path| - 1]) + [path[|path| - 1]]
  }

  /** `s.split("/")`: the pieces between separators, always at least one. */
  function Split(s: string): (parts: seq<string>)
    ensures |parts| >= 1
    decreases |s|
  {
    if |s| == 0 then [""]
    else if s[|s| - 1] == '/' then Split(s[..|s| - 1]) + [""]
    else
      var init := Split(s[..|s| - 1]);
      init[..|init| - 1] + [init[|init| - 1] + [s[|s| - 1]]]
  }

  /** Joins pieces with `/`; `Split` is its inverse. */
  function Join(parts: seq<string>): string
    requires |parts| >= 1
  {
    if |parts| == 1 then parts[0] else Join(parts[..|parts| - 1]) + "/" + parts[|parts| - 1]
  }

  lemma {:induction false} JoinSplit(s: string)
    ensures Join(Split(s)) == s
    decreases |s|
  {
    if |s| > 0 {
      JoinSplit(s[..|s| - 1]);
      if s[|s| - 1] == '/' {
        JoinSplitSlash(s);
      } else {
        JoinSplitChar(s);
      }
    }
  }

  /** A trailing `/` adds an empty last piece. */
  lemma JoinSplitSlash(s: string)
    requires |s| > 0 && s[|s| - 1] == '/'
    requires Join(Split(s[..|s| - 1])) == s[..|s| - 1]
    ensures Join(Split(s)) == s
  {
    var u := s[..|s| - 1];
    var init, parts := Split(u), Split(s);
    assert parts == init + [""];
    assert parts[..|parts| - 1] == init && parts[|parts| - 1] == "";
    assert Join(parts) == u + "/" + "";
    DropLast(s);
  }

  /** Any other last character extends the last piece. */
  lemma JoinSplitChar(s: string)
    requires |s| > 0 && s[|s| - 1] != '/'
    requires Join(Split(s[..|s| - 1])) == s[..|s| - 1]
    ensures Join(Split(s)) == s
  {
    var init := Split(s[..|s| - 1]);
    assert Join(Split(s)) == Join(init) + [s[|s| - 1]] by {
      assert Split(s) == init[..|init| - 1] + [init[|init| - 1] + [s[|s| - 1]]];
      JoinExtendLast(init, s[|s| - 1]);
    }
    DropLast(s);
  }

  /** Adding a character to the last piece adds it to the end of the joined text. */
  lemma JoinExtendLast(parts: seq<string>, c: char)
    requires |parts| >= 1
    ensures Join(parts[..|parts| - 1] + [parts[|parts| - 1] + [c]]) == Join(parts) + [c]
  {
    var front, last := parts[..|parts| - 1], parts[|parts| - 1];
    var longer := front + [last + [c]];
    if |parts| > 1 {
      assert longer[..|longer| - 1] == front && longer[|longer| - 1] == last + [c];
      assert parts[..|parts| - 1] == front;
      ConcatAssoc(Join(front) + "/", last, [c]);
    }
  }

  /** `LastSegment` is the last piece of the split path. */
  lemma {:induction false} LastSegmentIsLastPiece(path: string)
    ensures LastSegment(path) == Split(path)[|Split(path)| - 1]
    decreases |path|
  {
    if |path| > 0 && path[|path| - 1] != '/' {
      LastSegmentIsLastPiece(path[..|path| - 1]);
    }
  }

  /** The segment after the last `/` comes back out of a path built around it. */
  lemma LastSegmentOfJoined(dir: string, seg: string)
    requires '/' !in seg
    ensures LastSegment(dir + "/" + seg) == seg
  {
    var p := dir + "/" + seg;
    assert p[|p| - |seg| - 1] == '/';
    assert p[|p| - |seg|..] == seg;
  }

  // ---------------------------------------------------------------------------
  // The search query and the cleaned title

  /** Every space character `' '` written as `'+'`. */
  function PlusForSpace(s: string): (r: string)
    ensures |r| == |s|
  {
    if |s| == 0 then "" else [if s[0] == ' ' then '+' else s[0]] + PlusForSpace(s[1..])
  }

  /**
   * The query is the whitespace-collapsed name with its spaces written as
   * `+`: the same words, separated the same way, as the cleaned name before
   * trimming.
   */
  lemma {:induction false} SanitizeQueryIsPlusCollapsed(name: string)
    ensures SanitizeQuery(name) == PlusForSpace(CollapseSpaces(name, ' '))
    decreases |name|
  {
    if |name| > 0 {
      var c := CollapseSpaces(name, ' ');
      var q := CollapseSpaces(name, '+');
      if IsSpace(name[0]) {
        var rest := TrimStart(name);
        SanitizeQueryIsPlusCollapsed(rest);
        assert c == [' '] + CollapseSpaces(rest, ' ');
        assert q == ['+'] + CollapseSpaces(rest, '+');
        assert c[1..] == CollapseSpaces(rest, ' ');
      } else {
        SanitizeQueryIsPlusCollapsed(name[1..]);
        assert c[1..] == CollapseSpaces(name[1..], ' ');
      }
    }
  }
}
