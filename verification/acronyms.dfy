/**
 * `extract_acronyms` (utils.py lines 9-13): the set of matches of the regular
 * expression `\b[A-Z]{2,}\b`, found the way `re.findall` finds them.
 */
module Acronyms {
  import opened Wrappers
  import opened Text

  /** Python's `\b` at position `i`: a word character on exactly one side. */
  predicate IsBoundary(s: string, i: nat)
    requires i <= |s|
  {
    (i > 0 && IsWordChar(s[i - 1])) != (i < |s| && IsWordChar(s[i]))
  }

  /** `s[i..j]` is a match of `\b[A-Z]{2,}\b`: at least two capitals with a `\b` on each side. */
  ghost predicate IsAcronymSpan(s: string, i: nat, j: nat)
  {
    i + 2 <= j <= |s| && IsBoundary(s, i) && IsBoundary(s, j) &&
    forall k :: i <= k < j ==> IsUpper(s[k])
  }

  /** `t` is matched somewhere in `s`. */
  ghost predicate OccursAsAcronym(s: string, t: string)
  {
    exists i: nat, j: nat :: IsAcronymSpan(s, i, j) && s[i..j] == t
  }

  /**
   * After `\b` and a greedy `[A-Z]{2,}` that stopped at `j`, the engine tries the
   * closing `\b` at `j` and then gives back one capital at a time while at least
   * two remain.
   */
  function Backtrack(s: string, i: nat, j: nat): (r: Option<nat>)
    requires i <= j <= |s|
    ensures r.Some? ==> i + 2 <= r.value <= j && IsBoundary(s, r.value)
    decreases j
  {
    if j < i + 2 then None
    else if IsBoundary(s, j) then Some(j)
    else Backtrack(s, i, j - 1)
  }

  /** The end of the match that the regular expression makes when tried at position `i`, if any. */
  function MatchAt(s: string, i: nat): (r: Option<nat>)
    requires i <= |s|
    ensures r.Some? ==> i + 2 <= r.value <= |s|
  {
    if IsBoundary(s, i) then Backtrack(s, i, RunEnd(s, i, IsUpper)) else None
  }

  /**
   * `re.findall` from position `i`: try a match at each position in turn; after a
   * match, go on from its end.
   */
  function FindAll(s: string, i: nat): seq<string>
    requires i <= |s|
    decreases |s| - i
  {
    if i == |s| then []
    else match MatchAt(s, i)
      case Some(j) => [s[i..j]] + FindAll(s, j)
      case None => FindAll(s, i + 1)
  }

  /**
   * `extract_acronyms(text)`: the distinct matches. A string is in the result
   * exactly when it is a whole word of `text` (a maximal run of word characters)
   * made of at least two capitals A to Z.
   */
  function ExtractAcronyms(text: string): (r: set<string>)
    ensures forall t :: t in r <==> OccursAsAcronym(text, t)
  {
    FindAllMatches(text, 0);
    set t | t in FindAll(text, 0)
  }

  /**
   * Giving back capitals never helps: between two capitals there is no `\b`,
   * so the only possible end of a match is the end of the run of capitals.
   */
  lemma {:induction false} BacktrackOnlyAtRunEnd(s: string, i: nat, j: nat, e: nat)
    requires i <= j <= e <= |s|
    requires forall k :: i <= k < e ==> IsUpper(s[k])
    ensures Backtrack(s, i, j) == if j == e && i + 2 <= j && IsBoundary(s, j) then Some(j) else None
    decreases j
  {
    if i + 2 <= j && !IsBoundary(s, j) {
      BacktrackOnlyAtRunEnd(s, i, j - 1, e);
    }
  }

  /** The match tried at `i` ends at `j` exactly when `s[i..j]` is a match of the pattern. */
  lemma MatchAtIff(s: string, i: nat, j: nat)
    requires i <= |s|
    ensures MatchAt(s, i) == Some(j) <==> IsAcronymSpan(s, i, j)
  {
    var e := RunEnd(s, i, IsUpper);
    BacktrackOnlyAtRunEnd(s, i, e, e);
    assert forall k :: i < k < e ==> !IsBoundary(s, k);
  }

  /** No match starts strictly inside a match. */
  lemma NoSpanInside(s: string, i: nat, j: nat, p: nat, q: nat)
    requires IsAcronymSpan(s, i, j) && i < p < j
    ensures !IsAcronymSpan(s, p, q)
  {
    assert IsUpper(s[p - 1]) && IsUpper(s[p]);
  }

  /** `FindAll(s, i)` finds exactly the matches that start at `i` or later. */
  lemma {:induction false} FindAllMatches(s: string, i: nat)
    requires i <= |s|
    ensures forall t :: t in FindAll(s, i) <==>
      exists p: nat, q: nat :: i <= p && IsAcronymSpan(s, p, q) && s[p..q] == t
    decreases |s| - i
  {
    if i < |s| {
      match MatchAt(s, i)
      case Some(j) =>
        FindAllMatches(s, j);
        MatchAtIff(s, i, j);
        forall t ensures t in FindAll(s, i) <==>
          exists p: nat, q: nat :: i <= p && IsAcronymSpan(s, p, q) && s[p..q] == t
        {
          if p: nat, q: nat :| i <= p && IsAcronymSpan(s, p, q) && s[p..q] == t {
            if p == i {
              MatchAtIff(s, i, q);
            } else if p < j {
              NoSpanInside(s, i, j, p, q);
            }
          }
        }
      case None =>
        FindAllMatches(s, i + 1);
        forall t ensures t in FindAll(s, i) <==>
          exists p: nat, q: nat :: i <= p && IsAcronymSpan(s, p, q) && s[p..q] == t
        {
          if p: nat, q: nat :| i <= p && IsAcronymSpan(s, p, q) && s[p..q] == t {
            MatchAtIff(s, i, q);
          }
        }
    }
  }

  /**
   * The pattern read in plain words: `s[i..j]` is at least two capitals, preceded by
   * the start of the text or a character that is not a letter, digit or
   * underscore, and followed by the end of the text or such a character.
   */
  ghost predicate IsWholeCapitalWord(s: string, i: nat, j: nat)
  {
    i + 2 <= j <= |s| &&
    (forall k :: i <= k < j ==> IsUpper(s[k])) &&
    (i == 0 || !IsWordChar(s[i - 1])) &&
    (j == |s| || !IsWordChar(s[j]))
  }

  /** The two `\b` of the pattern say exactly that the capitals form a whole word. */
  lemma SpanIsWholeWord(s: string, i: nat, j: nat)
    ensures IsAcronymSpan(s, i, j) <==> IsWholeCapitalWord(s, i, j)
  {
    if i + 2 <= j <= |s| && forall k :: i <= k < j ==> IsUpper(s[k]) {
      assert IsWordChar(s[i]) && IsWordChar(s[j - 1]);
    }
  }

  /**
   * Every extracted token is at least two capitals A to Z and sits in the text
   * with a non-word character or an end of the text on each side.
   */
  lemma TokensAreWholeCapitalWords(s: string, t: string)
    requires t in ExtractAcronyms(s)
    ensures |t| >= 2 && forall k :: 0 <= k < |t| ==> IsUpper(t[k])
    ensures exists i: nat, j: nat :: IsWholeCapitalWord(s, i, j) && s[i..j] == t
  {
    var i: nat, j: nat :| IsAcronymSpan(s, i, j) && s[i..j] == t;
    SpanIsWholeWord(s, i, j);
    assert forall k :: 0 <= k < |t| ==> t[k] == s[i + k];
  }

  /** Conversely, every whole word of two or more capitals is extracted. */
  lemma WholeCapitalWordsAreTokens(s: string, i: nat, j: nat)
    requires IsWholeCapitalWord(s, i, j)
    ensures s[i..j] in ExtractAcronyms(s)
  {
    SpanIsWholeWord(s, i, j);
  }

  /**
   * A token is exactly one whole word, so extracting from the token itself gives
   * back just that token.
   */
  lemma TokenExtractsItself(t: string)
    requires |t| >= 2 && forall k :: 0 <= k < |t| ==> IsUpper(t[k])
    ensures ExtractAcronyms(t) == {t}
  {
    assert IsAcronymSpan(t, 0, |t|) && t[0..|t|] == t;
    forall u | u in ExtractAcronyms(t) ensures u == t {
      var i: nat, j: nat :| IsAcronymSpan(t, i, j) && t[i..j] == u;
    }
  }

  /** Capitals next to a lower-case letter, a digit or an underscore are not reported. */
  lemma CapitalsTouchingWordCharsAreNotTokens()
    ensures ExtractAcronyms("ABCd") == {}
    ensures ExtractAcronyms("AB1") == {}
    ensures ExtractAcronyms("xAB") == {}
    ensures ExtractAcronyms("AB_CD") == {}
  {
  }
}
