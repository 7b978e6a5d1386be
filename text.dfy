/**
 * The string operations the core relies on: JavaScript's notion of white space
 * (shared by `String.prototype.trim` and the regular-expression class `\s`),
 * trimming, lower-casing, substring search and the e-mail pattern `\S+@\S+\.\S+`.
 */
module Text {

  /** The characters JavaScript counts as white space or line terminators. */
  predicate IsWhitespace(c: char) {
    || c == ' ' || c == '\t' || c == '\n' || c == '\U{000B}' || c == '\U{000C}' || c == '\r'
    || c == '\U{00A0}' || c == '\U{1680}' || ('\U{2000}' <= c <= '\U{200A}')
    || c == '\U{2028}' || c == '\U{2029}' || c == '\U{202F}' || c == '\U{205F}'
    || c == '\U{3000}' || c == '\U{FEFF}'
  }

  predicate AllWhitespace(s: string) {
    forall i :: 0 <= i < |s| ==> IsWhitespace(s[i])
  }

  /** Drops the leading white space: what is left is a suffix that starts with a visible character. */
  function TrimStart(s: string): (r: string)
    ensures |r| <= |s| && r == s[|s| - |r|..]
    ensures AllWhitespace(s[..|s| - |r|])
    ensures r != [] ==> !IsWhitespace(r[0])
    decreases |s|
  {
    if s != [] && IsWhitespace(s[0]) then
      var r := TrimStart(s[1..]);
      assert AllWhitespace(s[..|s| - |r|]) by {
        forall i | 0 <= i < |s| - |r|
          ensures IsWhitespace(s[i])
        {
          if i > 0 {
            assert s[1..][..|s| - 1 - |r|][i - 1] == s[i];
          }
        }
      }
      r
    else s
  }

  /** Drops the trailing white space: what is left is a prefix that ends with a visible character. */
  function TrimEnd(s: string): (r: string)
    ensures |r| <= |s| && r == s[..|r|]
    ensures AllWhitespace(s[|r|..])
    ensures r != [] ==> !IsWhitespace(r[|r| - 1])
    decreases |s|
  {
    if s != [] && IsWhitespace(s[|s| - 1]) then
      var init := s[..|s| - 1];
      var r := TrimEnd(init);
      assert r == s[..|r|];
      assert AllWhitespace(s[|r|..]) by {
        forall i | |r| <= i < |s|
          ensures IsWhitespace(s[i])
        {
          if i < |s| - 1 {
            assert init[|r|..][i - |r|] == s[i];
          }
        }
      }
      r
    else s
  }

  /** The number of white-space characters `trim()` removes from the front. */
  function LeadingWhitespace(s: string): nat {
    |s| - |TrimStart(s)|
  }

  /**
   * `s.trim()`: a slice of `s` with only white space on either side of it,
   * and starting and ending with a visible character unless it is empty.
   */
  function Trim(s: string): (r: string)
    ensures LeadingWhitespace(s) + |r| <= |s|
    ensures r == s[LeadingWhitespace(s)..LeadingWhitespace(s) + |r|]
    ensures AllWhitespace(s[..LeadingWhitespace(s)]) && AllWhitespace(s[LeadingWhitespace(s) + |r|..])
    ensures r != [] ==> !IsWhitespace(r[0]) && !IsWhitespace(r[|r| - 1])
  {
    var t := TrimStart(s);
    var r := TrimEnd(t);
    TrimmedSlice(s, |s| - |t|, t, r);
    r
  }

  /** A prefix `r` of the suffix `s[a..]`, followed there only by white space, is the slice `s[a..a + |r|]`. */
  lemma TrimmedSlice(s: string, a: nat, t: string, r: string)
    requires a <= |s| && t == s[a..] && |r| <= |t| && r == t[..|r|] && AllWhitespace(t[|r|..])
    ensures r == s[a..a + |r|] && AllWhitespace(s[a + |r|..])
    ensures r != [] ==> r[0] == t[0]
  {
    assert s[a + |r|..] == t[|r|..];
  }

  /** A string whose trimmed form is empty, which JavaScript treats as false: exactly the all-white-space strings. */
  predicate IsBlank(s: string): (b: bool)
    ensures b <==> AllWhitespace(s)
  {
    var t := TrimStart(s);
    var k := |s| - |t|;
    assert Trim(s) == "" ==> AllWhitespace(s) by {
      if Trim(s) == "" {
        forall i | 0 <= i < |s|
          ensures IsWhitespace(s[i])
        {
          assert s[..k][i] == s[i];
        }
      }
    }
    assert Trim(s) != "" && t != [] ==> !IsWhitespace(s[k]);
    Trim(s) == ""
  }

  /** A string with a visible character somewhere is not blank. */
  lemma VisibleNotBlank(s: string, i: int)
    requires 0 <= i < |s| && !IsWhitespace(s[i])
    ensures !IsBlank(s)
  {
  }

  /** ASCII-only `toLowerCase` of one character. */
  function LowerChar(c: char): char {
    if 'A' <= c <= 'Z' then (c as int + 32) as char else c
  }

  /**
   * `s.toLowerCase()`, restricted to ASCII letters: no upper-case letter is
   * left, each one becomes its lower-case partner, and nothing else changes.
   */
  function Lower(s: string): (r: string)
    ensures |r| == |s|
    ensures forall i :: 0 <= i < |r| ==> !('A' <= r[i] <= 'Z')
    ensures forall i :: 0 <= i < |s| && 'A' <= s[i] <= 'Z' ==> r[i] as int == s[i] as int + ('a' as int - 'A' as int)
    ensures forall i :: 0 <= i < |s| && !('A' <= s[i] <= 'Z') ==> r[i] == s[i]
  {
    seq(|s|, i requires 0 <= i < |s| => LowerChar(s[i]))
  }

  /**
   * `hay.includes(needle)`: some window of `hay` spells `needle`. The empty
   * needle is found everywhere, a longer needle nowhere, and one of the same
   * length only in an equal string.
   */
  predicate Contains(hay: string, needle: string): (b: bool)
    ensures needle == [] ==> b
    ensures b ==> |needle| <= |hay|
    ensures |needle| == |hay| ==> (b <==> hay == needle)
  {
    assert needle == [] ==> OccursAt(hay, needle, 0);
    assert |needle| == |hay| && hay == needle ==> OccursAt(hay, needle, 0);
    exists i | 0 <= i <= |hay| :: OccursAt(hay, needle, i)
  }

  predicate OccursAt(hay: string, needle: string, i: int) {
    0 <= i <= |hay| - |needle| && hay[i..i + |needle|] == needle
  }

  /** `s[lo..hi]` is a match of `\S+`: non-empty and free of white space. */
  predicate VisibleRun(s: string, lo: int, hi: int) {
    0 <= lo < hi <= |s| && forall k :: lo <= k < hi ==> !IsWhitespace(s[k])
  }

  /** The regular expression `\S+@\S+\.\S+` matches `s[i..j]`, with its `@` at `at` and its `.` at `dot`. */
  predicate EmailMatchAt(s: string, i: int, at: int, dot: int, j: int) {
    && VisibleRun(s, i, at)
    && at < |s| && s[at] == '@'
    && VisibleRun(s, at + 1, dot)
    && dot < |s| && s[dot] == '.'
    && VisibleRun(s, dot + 1, j)
  }

  /**
   * `/\S+@\S+\.\S+/.test(s)`: the pattern is not anchored, so any substring
   * may match. A matching string holds an `@` and a `.` and is at least five
   * characters long, the length of "a@b.c".
   */
  predicate MatchesEmailPattern(s: string): (b: bool)
    ensures b ==> 5 <= |s| && '@' in s && '.' in s
  {
    exists i, at, dot, j | 0 <= i < |s| && 0 <= at < |s| && 0 <= dot < |s| && 0 <= j <= |s| ::
      EmailMatchAt(s, i, at, dot, j)
  }

  /** The local shape the pattern reduces to: a visible character, `@`, a visible run, `.`, a visible character. */
  predicate EmailShapeAt(s: string, at: int, dot: int) {
    && 0 < at && at + 1 < dot && dot + 1 < |s|
    && s[at] == '@' && s[dot] == '.'
    && !IsWhitespace(s[at - 1]) && !IsWhitespace(s[dot + 1])
    && forall k :: at < k < dot ==> !IsWhitespace(s[k])
  }

  /** The e-mail pattern matches exactly when the local shape occurs somewhere in the string. */
  lemma EmailPatternIsLocal(s: string)
    ensures MatchesEmailPattern(s) <==> exists at, dot :: EmailShapeAt(s, at, dot)
  {
    if MatchesEmailPattern(s) {
      var i, at, dot, j :| 0 <= i < |s| && 0 <= at < |s| && 0 <= dot < |s| && 0 <= j <= |s|
        && EmailMatchAt(s, i, at, dot, j);
      assert EmailShapeAt(s, at, dot);
    }
    if exists at, dot :: EmailShapeAt(s, at, dot) {
      var at, dot :| EmailShapeAt(s, at, dot);
      assert EmailMatchAt(s, at - 1, at, dot, dot + 2);
    }
  }

}
