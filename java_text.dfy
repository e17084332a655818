/** The Java and Spring string operations the post service relies on:
    `String.split` with a one-character literal pattern, `equalsIgnoreCase`
    against a pattern of ASCII letters, and Spring's `StringUtils.hasText`. */
module JavaText {

  /** The longest prefix of `s` that does not contain `d`. */
  function Prefix(s: string, d: char): (p: string)
    ensures p <= s && d !in p
    ensures |p| < |s| ==> s[|p|] == d
    decreases |s|
  {
    if |s| == 0 || s[0] == d then "" else [s[0]] + Prefix(s[1..], d)
  }

  /** Every piece of `s` between occurrences of `d`, empty pieces included:
      the pattern split before Java drops trailing empty strings. */
  function SplitAll(s: string, d: char): (r: seq<string>)
    ensures |r| >= 1
    ensures r[0] <= s && d !in r[0]
    ensures |r[0]| < |s| ==> s[|r[0]|] == d
    ensures |r| == 1 <==> d !in s
    decreases |s|
  {
    if |s| == 0 then [""]
    else
      var rest := SplitAll(s[1..], d);
      if s[0] == d then [""] + rest
      else [[s[0]] + rest[0]] + rest[1..]
  }

  /** The pieces put back together with `d` between them. */
  function Join(parts: seq<string>, d: char): string
    decreases |parts|
  {
    if |parts| == 0 then ""
    else if |parts| == 1 then parts[0]
    else parts[0] + [d] + Join(parts[1..], d)
  }

  /** `parts` without its trailing run of empty strings. */
  function DropTrailingEmpty(parts: seq<string>): (r: seq<string>)
    ensures r <= parts
    ensures r == [] || r[|r| - 1] != ""
    ensures forall i :: |r| <= i < |parts| ==> parts[i] == ""
    decreases |parts|
  {
    if |parts| == 0 then []
    else if parts[|parts| - 1] == "" then DropTrailingEmpty(parts[..|parts| - 1])
    else parts
  }

  /** Java's `s.split(regex)` for a regex that matches exactly the character
      `d`, with the default limit 0: no match gives `[s]` itself (so `""`
      gives `[""]`); otherwise every piece, with trailing empty pieces
      removed. */
  function Split(s: string, d: char): (r: seq<string>)
    ensures d !in s ==> r == [s]
    ensures r <= SplitAll(s, d)
    ensures forall i :: |r| <= i < |SplitAll(s, d)| ==> SplitAll(s, d)[i] == ""
    ensures d in s ==> r == [] || r[|r| - 1] != ""
  {
    if d !in s then
      NoDelimiterOnePiece(s, d);
      [s]
    else DropTrailingEmpty(SplitAll(s, d))
  }

  /** True when some occurrence of `d` in `s` is followed, somewhere later,
      by a character other than `d`. */
  ghost predicate DelimiterThenOther(s: string, d: char) {
    exists i, j :: 0 <= i < j < |s| && s[i] == d && s[j] != d
  }

  lemma {:induction false} NoDelimiterOnePiece(s: string, d: char)
    requires d !in s
    ensures SplitAll(s, d) == [s]
    decreases |s|
  {
    if |s| > 0 {
      assert d !in s[1..];
      NoDelimiterOnePiece(s[1..], d);
      assert [s[0]] + s[1..] == s;
    }
  }

  /** Splitting and joining again gives the original string back. */
  lemma {:induction false} JoinSplitAll(s: string, d: char)
    ensures Join(SplitAll(s, d), d) == s
    decreases |s|
  {
    if |s| > 0 {
      var t := s[1..];
      var rest := SplitAll(t, d);
      JoinSplitAll(t, d);
      assert s == [s[0]] + t;
      if s[0] == d {
        assert ([""] + rest)[1..] == rest;
      } else {
        var r := SplitAll(s, d);
        assert r[1..] == rest[1..];
        if |rest| > 1 {
          assert Join(rest, d) == rest[0] + [d] + Join(rest[1..], d);
          assert Join(r, d) == ([s[0]] + rest[0]) + [d] + Join(rest[1..], d);
        }
      }
    }
  }

  /** No piece contains the delimiter. */
  lemma {:induction false} SplitAllPiecesFree(s: string, d: char)
    ensures forall k :: 0 <= k < |SplitAll(s, d)| ==> d !in SplitAll(s, d)[k]
    decreases |s|
  {
    if |s| > 0 {
      SplitAllPiecesFree(s[1..], d);
    }
  }

  /** The first piece is the prefix before the first delimiter. */
  lemma FirstPieceIsPrefix(s: string, d: char)
    ensures SplitAll(s, d)[0] == Prefix(s, d)
  {
  }

  /** After the first delimiter, the pieces are those of the rest of `s`. */
  lemma {:induction false} SplitAllAfterFirst(s: string, d: char)
    requires d in s
    ensures |Prefix(s, d)| < |s|
    ensures SplitAll(s, d)[1..] == SplitAll(s[|Prefix(s, d)| + 1..], d)
    decreases |s|
  {
    FirstPieceIsPrefix(s, d);
    var t := s[1..];
    if s[0] != d {
      assert d in t;
      SplitAllAfterFirst(t, d);
      FirstPieceIsPrefix(t, d);
      assert t[|Prefix(t, d)| + 1..] == s[|Prefix(s, d)| + 1..];
    }
  }

  /** Some piece at index `k0` or later is non-empty. */
  ghost predicate NonEmptyFrom(parts: seq<string>, k0: nat) {
    exists k :: k0 <= k < |parts| && parts[k] != ""
  }

  /** Some character of `s` is not `d`. */
  ghost predicate HasOther(s: string, d: char) {
    exists j :: 0 <= j < |s| && s[j] != d
  }

  lemma NonEmptyFromShift(parts: seq<string>, x: string, k0: nat)
    ensures NonEmptyFrom([x] + parts, k0 + 1) <==> NonEmptyFrom(parts, k0)
  {
    var q := [x] + parts;
    if NonEmptyFrom(q, k0 + 1) {
      var k :| k0 + 1 <= k < |q| && q[k] != "";
      assert parts[k - 1] != "";
    }
    if NonEmptyFrom(parts, k0) {
      var k :| k0 <= k < |parts| && parts[k] != "";
      assert q[k + 1] != "";
    }
  }

  lemma HasOtherStep(s: string, d: char)
    requires |s| > 0 && s[0] == d
    ensures HasOther(s, d) <==> HasOther(s[1..], d)
  {
  }

  lemma DelimiterThenOtherStep(s: string, d: char)
    requires |s| > 0
    ensures s[0] == d ==> (DelimiterThenOther(s, d) <==> HasOther(s[1..], d))
    ensures s[0] != d ==> (DelimiterThenOther(s, d) <==> DelimiterThenOther(s[1..], d))
  {
  }

  /** Some piece is non-empty exactly when `s` has a character other than `d`. */
  lemma {:induction false} AnyPieceNonEmpty(s: string, d: char)
    ensures NonEmptyFrom(SplitAll(s, d), 0) <==> HasOther(s, d)
    decreases |s|
  {
    if |s| > 0 {
      var t := s[1..];
      var rest := SplitAll(t, d);
      AnyPieceNonEmpty(t, d);
      if s[0] == d {
        assert SplitAll(s, d) == [""] + rest;
        NonEmptyFromShift(rest, "", 0);
        HasOtherStep(s, d);
      } else {
        assert SplitAll(s, d)[0] != "";
        assert s[0] != d;
      }
    }
  }

  /** A non-empty piece after the first is there exactly when a delimiter is
      followed by some other character. */
  lemma {:induction false} LaterPieceNonEmpty(s: string, d: char)
    ensures NonEmptyFrom(SplitAll(s, d), 1) <==> DelimiterThenOther(s, d)
    decreases |s|
  {
    if |s| > 0 {
      var t := s[1..];
      var rest := SplitAll(t, d);
      DelimiterThenOtherStep(s, d);
      if s[0] == d {
        AnyPieceNonEmpty(t, d);
        assert SplitAll(s, d) == [""] + rest;
        NonEmptyFromShift(rest, "", 0);
      } else {
        LaterPieceNonEmpty(t, d);
        var r := SplitAll(s, d);
        assert r == [r[0]] + rest[1..];
        assert rest == [rest[0]] + rest[1..];
        NonEmptyFromShift(rest[1..], r[0], 0);
        NonEmptyFromShift(rest[1..], rest[0], 0);
      }
    }
  }

  /** Java's split yields at least two strings exactly when a delimiter is
      followed, somewhere later, by another character. */
  lemma SplitHasTwoPieces(s: string, d: char)
    ensures |Split(s, d)| >= 2 <==> DelimiterThenOther(s, d)
  {
    LaterPieceNonEmpty(s, d);
    if d in s {
      var all := SplitAll(s, d);
      var r := Split(s, d);
      if |r| >= 2 {
        assert all[|r| - 1] != "";
      }
      if NonEmptyFrom(all, 1) {
        var k :| 1 <= k < |all| && all[k] != "";
        assert k < |r|;
      }
    }
  }

  function AsciiLower(c: char): char {
    if 'A' <= c <= 'Z' then (c as int + 32) as char else c
  }

  predicate IsAsciiLetter(c: char) {
    'a' <= c <= 'z' || 'A' <= c <= 'Z'
  }

  /** Java's per-character test in `equalsIgnoreCase` (equal, equal upper
      cases, or equal lower cases of the upper cases) for a pattern character
      that is an ASCII letter. Besides the two ASCII cases, four non-ASCII
      characters fold onto ASCII letters: U+017F (long s) upper-cases to 'S',
      U+212A (Kelvin sign) lower-cases to 'k', U+0130 lower-cases to 'i' and
      U+0131 (dotless i) upper-cases to 'I'. */
  predicate CharEqualsIgnoreCase(c: char, t: char)
    requires IsAsciiLetter(t)
  {
    AsciiLower(c) == AsciiLower(t)
    || (c == '\U{017F}' && AsciiLower(t) == 's')
    || (c == '\U{212A}' && AsciiLower(t) == 'k')
    || ((c == '\U{0130}' || c == '\U{0131}') && AsciiLower(t) == 'i')
  }

  /** `s.equalsIgnoreCase(t)` for a `t` made of ASCII letters. */
  predicate EqualsIgnoreCase(s: string, t: string)
    requires forall i :: 0 <= i < |t| ==> IsAsciiLetter(t[i])
  {
    |s| == |t| && forall i :: 0 <= i < |s| ==> CharEqualsIgnoreCase(s[i], t[i])
  }

  /** Java's `Character.isWhitespace`: the space, line and paragraph
      separators other than the no-break spaces U+00A0, U+2007 and U+202F,
      and the controls U+0009 to U+000D and U+001C to U+001F. */
  predicate IsJavaWhitespace(c: char) {
    var n := c as int;
    (0x09 <= n <= 0x0D) || (0x1C <= n <= 0x20) || n == 0x1680
    || (0x2000 <= n <= 0x200A && n != 0x2007)
    || n == 0x2028 || n == 0x2029 || n == 0x205F || n == 0x3000
  }

  /** Spring's `StringUtils.hasText`: some character is not whitespace. */
  predicate HasText(s: string) {
    exists i :: 0 <= i < |s| && !IsJavaWhitespace(s[i])
  }

  /** The empty string and whitespace, including the ideographic space, have
      no text; a no-break space counts as text, as it does for Java. */
  lemma HasTextExamples()
    ensures !HasText("") && !HasText(" \t\n\U{3000}")
    ensures HasText(" title ") && HasText("\U{00A0}")
  {
    assert " title "[1] == 't';
    assert "\U{00A0}"[0] == '\U{00A0}';
  }
}
