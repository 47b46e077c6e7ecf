/**
 * Character classes and the small string operations of Python's `str` and `re`
 * that the acronym code relies on. Characters are classified as ASCII: `\w` is a
 * letter, a digit or `_`, `\d` a digit, and `\s` (like `str.isspace()`) one of
 * the ASCII whitespace characters.
 */
module Text {

  /** A character matched by `\w`. */
  predicate IsWordChar(c: char)
  {
    'a' <= c <= 'z' || 'A' <= c <= 'Z' || '0' <= c <= '9' || c == '_'
  }

  /** A character matched by `[A-Z]`. */
  predicate IsUpper(c: char)
  {
    'A' <= c <= 'Z'
  }

  /** A character matched by `\d`. */
  predicate IsDigit(c: char)
  {
    '0' <= c <= '9'
  }

  /**
   * A character matched by `\s` and removed by `str.strip()`: tab, line feed,
   * vertical tab, form feed, carriage return (9 to 13), the four information
   * separators (28 to 31) and space (32).
   */
  predicate IsSpace(c: char)
  {
    9 <= c as int <= 13 || 28 <= c as int <= 32
  }

  predicate NotLineFeed(c: char)
  {
    c != '\n'
  }

  /** No line feed anywhere in `s`: a single line of text. */
  predicate IsSingleLine(s: string)
  {
    forall k :: 0 <= k < |s| ==> s[k] != '\n'
  }

  /** The end of the longest run of characters satisfying `p` that starts at `i`. */
  function RunEnd(s: string, i: nat, p: char -> bool): (j: nat)
    requires i <= |s|
    ensures i <= j <= |s|
    ensures forall k :: i <= k < j ==> p(s[k])
    ensures j < |s| ==> !p(s[j])
    decreases |s| - i
  {
    if i < |s| && p(s[i]) then RunEnd(s, i + 1, p) else i
  }

  /** The first position at or after `i` that is not whitespace (what a greedy `\s*` stops at). */
  function SkipSpace(s: string, i: nat): (j: nat)
    requires i <= |s|
    ensures i <= j <= |s|
    ensures forall k :: i <= k < j ==> IsSpace(s[k])
    ensures j < |s| ==> !IsSpace(s[j])
    decreases |s| - i
  {
    if i < |s| && IsSpace(s[i]) then SkipSpace(s, i + 1) else i
  }

  /** The position of the first line feed at or after `i`, or the end of `s` (where a greedy `.+` stops). */
  function LineEnd(s: string, i: nat): (j: nat)
    requires i <= |s|
    ensures i <= j <= |s|
    ensures IsSingleLine(s[i..j])
    ensures j < |s| ==> s[j] == '\n'
  {
    RunEnd(s, i, NotLineFeed)
  }

  /** No whitespace at either end: what `str.strip()` returns. */
  predicate IsStripped(s: string)
  {
    s == [] || (!IsSpace(s[0]) && !IsSpace(s[|s| - 1]))
  }

  /** `s.strip()`: `s` without its leading and trailing whitespace. */
  function Strip(s: string): (r: string)
    ensures IsStripped(r)
    ensures |r| <= |s|
    decreases |s|
  {
    if s != [] && IsSpace(s[0]) then Strip(s[1..])
    else if s != [] && IsSpace(s[|s| - 1]) then Strip(s[..|s| - 1])
    else s
  }

  /**
   * What `Strip` removes: the result is the part of `s` between a whitespace
   * prefix `s[..i]` and a whitespace suffix, which together with its being
   * stripped determines it.
   */
  lemma {:induction false} StripRemovesOuterSpace(s: string) returns (i: nat)
    ensures i + |Strip(s)| <= |s| && Strip(s) == s[i..i + |Strip(s)|]
    ensures AllSpace(s[..i]) && AllSpace(s[i + |Strip(s)|..])
    decreases |s|
  {
    if s != [] && IsSpace(s[0]) {
      var j := StripRemovesOuterSpace(s[1..]);
      i := DropFirstSpace(s, j);
    } else if s != [] && IsSpace(s[|s| - 1]) {
      i := StripRemovesOuterSpace(s[..|s| - 1]);
      DropLastSpace(s, i);
    } else {
      i := 0;
      assert s[0..|s|] == s;
    }
  }

  /** One step of `StripRemovesOuterSpace`: a leading whitespace character joins the removed prefix. */
  lemma DropFirstSpace(s: string, j: nat) returns (i: nat)
    requires s != [] && IsSpace(s[0])
    requires var t, r := s[1..], Strip(s[1..]);
      j + |r| <= |t| && r == t[j..j + |r|] && AllSpace(t[..j]) && AllSpace(t[j + |r|..])
    ensures i == j + 1
    ensures var r := Strip(s[1..]);
      i + |r| <= |s| && r == s[i..i + |r|] && AllSpace(s[..i]) && AllSpace(s[i + |r|..])
  {
    i := j + 1;
    var t, r := s[1..], Strip(s[1..]);
    forall k | j <= k < j + |r| ensures t[k] == s[k + 1] {
    }
    assert s[i..i + |r|] == t[j..j + |r|];
    assert s[..i] == [s[0]] + t[..j];
    assert s[i + |r|..] == t[j + |r|..];
  }

  /** One step of `StripRemovesOuterSpace`: a trailing whitespace character joins the removed suffix. */
  lemma DropLastSpace(s: string, i: nat)
    requires s != [] && IsSpace(s[|s| - 1])
    requires var t, r := s[..|s| - 1], Strip(s[..|s| - 1]);
      i + |r| <= |t| && r == t[i..i + |r|] && AllSpace(t[..i]) && AllSpace(t[i + |r|..])
    ensures var r := Strip(s[..|s| - 1]);
      i + |r| <= |s| && r == s[i..i + |r|] && AllSpace(s[..i]) && AllSpace(s[i + |r|..])
  {
    var t, r := s[..|s| - 1], Strip(s[..|s| - 1]);
    assert s[i..i + |r|] == t[i..i + |r|];
    assert s[..i] == t[..i];
    assert s[i + |r|..] == t[i + |r|..] + [s[|s| - 1]];
  }

  predicate AllSpace(s: string)
  {
    forall k :: 0 <= k < |s| ==> IsSpace(s[k])
  }

  /** Stripping a string that has no outer whitespace leaves it as it is. */
  lemma StripStripped(s: string)
    requires IsStripped(s)
    ensures Strip(s) == s
  {
  }

  /** The stripped text is empty exactly when the whole string is whitespace. */
  lemma StripEmpty(s: string)
    ensures Strip(s) == [] <==> AllSpace(s)
  {
    var r := Strip(s);
    var i := StripRemovesOuterSpace(s);
    if r == [] {
      forall k | 0 <= k < |s| ensures IsSpace(s[k]) {
        if k < i { assert s[..i][k] == s[k]; } else { assert s[i..][k - i] == s[k]; }
      }
    }
  }

  /** Stripping only removes characters: what holds of every character of `s` holds of every character of its stripped text. */
  lemma StripKeeps(s: string, p: char -> bool)
    requires forall k :: 0 <= k < |s| ==> p(s[k])
    ensures forall k :: 0 <= k < |Strip(s)| ==> p(Strip(s)[k])
  {
    var r := Strip(s);
    var i := StripRemovesOuterSpace(s);
    assert forall k :: 0 <= k < |r| ==> r[k] == s[i + k];
  }

  /** `needle` occurs in `hay` starting at position `i`. */
  predicate OccursAt(hay: string, needle: string, i: nat)
  {
    i + |needle| <= |hay| && hay[i..i + |needle|] == needle
  }

  /** Python's substring test `needle in hay` (the empty string is in every string). */
  function Contains(hay: string, needle: string): bool
  {
    if needle <= hay then true
    else if hay == [] then false
    else Contains(hay[1..], needle)
  }

  /** `Contains` holds exactly when the needle occurs at some position. */
  lemma {:induction false} ContainsIff(hay: string, needle: string)
    ensures Contains(hay, needle) <==> exists i: nat :: OccursAt(hay, needle, i)
  {
    if Contains(hay, needle) {
      ContainsOccurs(hay, needle);
    }
    forall i: nat | OccursAt(hay, needle, i) ensures Contains(hay, needle) {
      OccursContains(hay, needle, i);
    }
  }

  lemma {:induction false} ContainsOccurs(hay: string, needle: string)
    requires Contains(hay, needle)
    ensures exists i: nat :: OccursAt(hay, needle, i)
  {
    if needle <= hay {
      assert OccursAt(hay, needle, 0);
    } else {
      ContainsOccurs(hay[1..], needle);
      var i: nat :| OccursAt(hay[1..], needle, i);
      assert hay[1..][i..i + |needle|] == hay[i + 1..i + 1 + |needle|];
      assert OccursAt(hay, needle, i + 1);
    }
  }

  lemma {:induction false} OccursContains(hay: string, needle: string, i: nat)
    requires OccursAt(hay, needle, i)
    ensures Contains(hay, needle)
    decreases i
  {
    if i == 0 {
      assert hay[..|needle|] == needle;
    } else if !(needle <= hay) {
      assert hay[1..][i - 1..i - 1 + |needle|] == hay[i..i + |needle|];
      OccursContains(hay[1..], needle, i - 1);
    }
  }

  /**
   * `s.split('\n')[0]`: the text before the first line feed, or all of `s`
   * when it has none.
   */
  function FirstLine(s: string): (r: string)
    ensures r <= s
    ensures IsSingleLine(r)
    ensures |r| < |s| ==> s[|r|] == '\n'
  {
    if s == [] || s[0] == '\n' then [] else [s[0]] + FirstLine(s[1..])
  }

  /** The value of one decimal digit. */
  function DigitValue(c: char): (v: nat)
    requires IsDigit(c)
    ensures v < 10
  {
    c as int - '0' as int
  }

  /** The digit character for a value below ten. */
  function DigitChar(v: nat): (c: char)
    requires v < 10
    ensures IsDigit(c) && DigitValue(c) == v
  {
    ('0' as int + v) as char
  }

  predicate AllDigits(s: string)
  {
    forall k :: 0 <= k < |s| ==> IsDigit(s[k])
  }

  /** `int(d)` for a string of decimal digits (leading zeros allowed). */
  function DecimalValue(d: string): nat
    requires AllDigits(d)
  {
    if d == [] then 0 else DecimalValue(d[..|d| - 1]) * 10 + DigitValue(d[|d| - 1])
  }

  /** `str(n)`: the decimal digits of `n`, without leading zeros. */
  function DecimalString(n: nat): (d: string)
    ensures d != [] && AllDigits(d)
    ensures DecimalValue(d) == n
    decreases n
  {
    if n < 10 then [DigitChar(n)]
    else
      var d := DecimalString(n / 10) + [DigitChar(n % 10)];
      assert d[..|d| - 1] == DecimalString(n / 10);
      d
  }
}
