/**
 * Reading the two language-model replies (utils.py lines 63-67 and 104-108):
 * `re.search(r'FULL_FORM:\s*(.+)', ...)` and `re.search(r'INDEX:\s*(\d+)', ...)`
 * on the stripped reply, and what the code makes of their first group.
 */
module Replies {
  import opened Wrappers
  import opened Text

  const FullFormMarker: string := "FULL_FORM:"
  const IndexMarker: string := "INDEX:"

  /** The part of each pattern after its marker. */
  datatype Group =
    | RestOfLine  // `\s*(.+)`
    | Digits      // `\s*(\d+)`

  /** What a match of each group looks like: a non-empty line, or a non-empty run of digits. */
  predicate GroupShape(g: Group, text: string)
  {
    text != [] &&
    match g
    case RestOfLine => IsSingleLine(text)
    case Digits => AllDigits(text)
  }

  /** The last position in `[q, e)` that does not hold a line feed. */
  function LastNonLineFeed(s: string, q: nat, e: nat): (r: Option<nat>)
    requires q <= e <= |s|
    ensures r.Some? ==> q <= r.value < e && s[r.value] != '\n'
    decreases e
  {
    if e <= q then None
    else if s[e - 1] != '\n' then Some(e - 1)
    else LastNonLineFeed(s, q, e - 1)
  }

  /**
   * `\s*(.+)` tried at `q`. The greedy `\s*` (which also eats line feeds) stops at
   * the first character that is not whitespace, and `.+` takes the rest of that
   * line. When the whitespace runs to the end of the text, `\s*` gives characters
   * back until `.+` can start on one that is not a line feed.
   */
  function RestOfLineAt(s: string, q: nat): (r: Option<string>)
    requires q <= |s|
    ensures r.Some? ==> r.value != [] && IsSingleLine(r.value)
  {
    var e := SkipSpace(s, q);
    if e < |s| then Some(s[e..LineEnd(s, e)])
    else match LastNonLineFeed(s, q, e)
      case Some(k) => Some(s[k..LineEnd(s, k)])
      case None => None
  }

  /**
   * `\s*(\d+)` tried at `q`. Giving whitespace back cannot help `\d+`, so the
   * group matches only when the first character after the whitespace is a digit,
   * and then it is the whole run of digits there.
   */
  function DigitsAt(s: string, q: nat): (r: Option<string>)
    requires q <= |s|
    ensures r.Some? ==> r.value != [] && AllDigits(r.value)
  {
    var e := SkipSpace(s, q);
    if e < |s| && IsDigit(s[e]) then Some(s[e..RunEnd(s, e, IsDigit)]) else None
  }

  /** Group `g` tried at `q`. */
  function GroupAt(g: Group, s: string, q: nat): (r: Option<string>)
    requires q <= |s|
    ensures r.Some? ==> GroupShape(g, r.value)
  {
    match g
    case RestOfLine => RestOfLineAt(s, q)
    case Digits => DigitsAt(s, q)
  }

  /** The whole pattern matches at `i`: `marker` occurs there and group `g` matches right after it. */
  predicate MatchesAt(s: string, marker: string, g: Group, i: nat)
  {
    i + |marker| <= |s| && OccursAt(s, marker, i) && GroupAt(g, s, i + |marker|).Some?
  }

  /**
   * `re.search` for `marker` followed by group `g`, from position `p` on: group 1
   * of the leftmost position where the whole pattern matches.
   */
  function Search(s: string, marker: string, g: Group, p: nat): (r: Option<string>)
    requires p <= |s| && marker != []
    ensures r.Some? ==> GroupShape(g, r.value)
    decreases |s| - p
  {
    if p + |marker| > |s| then None
    else if MatchesAt(s, marker, g, p) then GroupAt(g, s, p + |marker|)
    else Search(s, marker, g, p + 1)
  }

  /** Without an occurrence of the marker from `p` on, the search finds nothing. */
  lemma {:induction false} SearchWithoutMarker(s: string, marker: string, g: Group, p: nat)
    requires p <= |s| && marker != []
    requires forall i: nat :: p <= i ==> !OccursAt(s, marker, i)
    ensures Search(s, marker, g, p) == None
  {
    assert forall i: nat :: p <= i ==> !MatchesAt(s, marker, g, i);
    SearchWithoutMatch(s, marker, g, p);
  }

  /**
   * When the whole pattern matches at no position from `p` on, the search finds
   * nothing, even where the marker itself occurs.
   */
  lemma {:induction false} SearchWithoutMatch(s: string, marker: string, g: Group, p: nat)
    requires p <= |s| && marker != []
    requires forall i: nat :: p <= i ==> !MatchesAt(s, marker, g, i)
    ensures Search(s, marker, g, p) == None
    decreases |s| - p
  {
    if p + |marker| <= |s| {
      SearchWithoutMatch(s, marker, g, p + 1);
    }
  }

  /**
   * A search that finds something found it at the leftmost position `i` where the
   * whole pattern matches, and its result is group 1 there.
   */
  lemma {:induction false} SearchFoundAtMatch(s: string, marker: string, g: Group, p: nat) returns (i: nat)
    requires p <= |s| && marker != []
    requires Search(s, marker, g, p).Some?
    ensures p <= i && MatchesAt(s, marker, g, i)
    ensures forall j: nat :: p <= j < i ==> !MatchesAt(s, marker, g, j)
    ensures Search(s, marker, g, p) == GroupAt(g, s, i + |marker|)
    decreases |s| - p
  {
    if MatchesAt(s, marker, g, p) {
      i := p;
    } else {
      i := SearchFoundAtMatch(s, marker, g, p + 1);
    }
  }

  /** The search passes over positions where the whole pattern does not match. */
  lemma {:induction false} SearchSkips(s: string, marker: string, g: Group, p: nat, p': nat)
    requires p <= p' <= |s| && p' + |marker| <= |s| && marker != []
    requires forall i: nat :: p <= i < p' ==> !MatchesAt(s, marker, g, i)
    ensures Search(s, marker, g, p) == Search(s, marker, g, p')
    decreases p' - p
  {
    if p < p' {
      SearchSkips(s, marker, g, p + 1, p');
    }
  }

  /**
   * The expansion chosen from the first reply (lines 63-67): the stripped group
   * after `FULL_FORM:` when the pattern matches the stripped reply, and the whole
   * stripped reply otherwise.
   */
  function ChosenExpansion(reply: string): (r: string)
    ensures IsStripped(r)
  {
    var response := Strip(reply);
    match Search(response, FullFormMarker, RestOfLine, 0)
    case Some(group) => Strip(group)
    case None => response
  }

  /**
   * The longest numeral `int()` converts: longer ones raise `ValueError`, under
   * the default `sys.int_info.default_max_str_digits` of Python 3.11 and later.
   */
  const MaxIntDigits: nat := 4300

  /**
   * The number after `INDEX:` in the second reply (lines 104-108), or None when
   * the pattern does not match the stripped reply or `int()` refuses the digits.
   * Either way the run ends with None (lines 106-107 and 113-115).
   */
  function ParseIndex(reply: string): (r: Option<nat>)
    ensures r.Some? ==> Search(Strip(reply), IndexMarker, Digits, 0).Some?
  {
    match Search(Strip(reply), IndexMarker, Digits, 0)
    case Some(digits) => if |digits| <= MaxIntDigits then Some(DecimalValue(digits)) else None
    case None => None
  }

  /** A reply without the marker is taken whole, stripped: the pipeline goes on with it. */
  lemma ExpansionFallback(reply: string)
    requires !Contains(Strip(reply), FullFormMarker)
    ensures ChosenExpansion(reply) == Strip(reply)
  {
    ContainsIff(Strip(reply), FullFormMarker);
    SearchWithoutMarker(Strip(reply), FullFormMarker, RestOfLine, 0);
  }

  /**
   * When the marker first occurs at `p` with text after it, the expansion is read
   * there: from the first character after the marker that is not whitespace
   * (line breaks included) to the end of that line, stripped. It is never empty
   * and never spans two lines.
   */
  lemma ExpansionAfterFirstMarker(reply: string, p: nat)
    requires OccursAt(Strip(reply), FullFormMarker, p)
    requires forall i: nat :: i < p ==> !OccursAt(Strip(reply), FullFormMarker, i)
    requires p + |FullFormMarker| < |Strip(reply)|
    ensures var s := Strip(reply);
            var e := SkipSpace(s, p + |FullFormMarker|);
            e < |s| && ChosenExpansion(reply) == Strip(s[e..LineEnd(s, e)])
    ensures ChosenExpansion(reply) != []
    ensures IsSingleLine(ChosenExpansion(reply))
  {
    var s := Strip(reply);
    var e := SkipSpace(s, p + |FullFormMarker|);
    SearchSkips(s, FullFormMarker, RestOfLine, 0, p);
    assert e < |s|;
    var line := s[e..LineEnd(s, e)];
    StripEmpty(line);
    assert !IsSpace(line[0]);
    StripKeeps(line, NotLineFeed);
  }

  /** After a marker, a whitespace separator is skipped up to the text that follows it. */
  lemma SkipSeparator(marker: string, sep: string, body: string)
    requires AllSpace(sep) && body != [] && !IsSpace(body[0])
    ensures SkipSpace(marker + sep + body, |marker|) == |marker| + |sep|
  {
    var s := marker + sep + body;
    var j := SkipSpace(s, |marker|);
    assert forall k :: 0 <= k < |sep| ==> s[|marker| + k] == sep[k];
    assert s[|marker| + |sep|] == body[0];
  }

  /** A run that lasts to the end of the text ends there. */
  lemma RunToEnd(s: string, i: nat, p: char -> bool)
    requires i <= |s|
    requires forall k :: i <= k < |s| ==> p(s[k])
    ensures RunEnd(s, i, p) == |s|
  {
  }

  /** A group found right after a marker at the start of the text is what the search returns. */
  lemma SearchAtStart(s: string, marker: string, g: Group)
    requires marker != [] && OccursAt(s, marker, 0) && GroupAt(g, s, |marker|).Some?
    ensures Search(s, marker, g, 0) == GroupAt(g, s, |marker|)
  {
  }

  /** Marker, whitespace, then text that is stripped: the whole is stripped. */
  lemma MarkedTextStripped(marker: string, sep: string, body: string)
    requires marker != [] && !IsSpace(marker[0]) && body != [] && IsStripped(body)
    ensures Strip(marker + sep + body) == marker + sep + body
  {
    var s := marker + sep + body;
    assert s[0] == marker[0] && s[|s| - 1] == body[|body| - 1];
    StripStripped(s);
  }

  /** After the marker and a whitespace separator, `\s*(.+)` takes a one-line text that follows, whole. */
  lemma RestOfLineAfterSeparator(marker: string, sep: string, body: string)
    requires AllSpace(sep) && body != [] && !IsSpace(body[0])
    requires IsSingleLine(body)
    ensures RestOfLineAt(marker + sep + body, |marker|) == Some(body)
  {
    var s := marker + sep + body;
    var e := |marker| + |sep|;
    SkipSeparator(marker, sep, body);
    assert forall k :: e <= k < |s| ==> s[k] == body[k - e];
    RunToEnd(s, e, NotLineFeed);
    assert LineEnd(s, e) == |s|;
    assert SkipSpace(s, |marker|) == e < |s|;
    assert s[e..|s|] == body;
  }

  /** After the marker and a whitespace separator, `\s*(\d+)` takes a run of digits that follows, whole. */
  lemma DigitsAfterSeparator(marker: string, sep: string, digits: string)
    requires AllSpace(sep) && digits != [] && AllDigits(digits)
    ensures DigitsAt(marker + sep + digits, |marker|) == Some(digits)
  {
    var s := marker + sep + digits;
    var e := |marker| + |sep|;
    SkipSeparator(marker, sep, digits);
    assert forall k :: e <= k < |s| ==> s[k] == digits[k - e];
    RunToEnd(s, e, IsDigit);
    assert SkipSpace(s, |marker|) == e < |s| && IsDigit(s[e]);
    assert s[e..|s|] == digits;
  }

  /**
   * The reply format the first prompt asks for is read back exactly: the marker,
   * any whitespace (a line break included), then a one-line expansion.
   */
  lemma ExpansionRoundTrip(sep: string, expansion: string)
    requires AllSpace(sep)
    requires expansion != [] && IsStripped(expansion)
    requires IsSingleLine(expansion)
    ensures ChosenExpansion(FullFormMarker + sep + expansion) == expansion
  {
    var s := FullFormMarker + sep + expansion;
    MarkedTextStripped(FullFormMarker, sep, expansion);
    assert OccursAt(s, FullFormMarker, 0) by { assert s[..|FullFormMarker|] == FullFormMarker; }
    RestOfLineAfterSeparator(FullFormMarker, sep, expansion);
    SearchAtStart(s, FullFormMarker, RestOfLine);
    StripStripped(expansion);
  }

  /**
   * When the first `FULL_FORM:` ends the stripped reply, `(.+)` has nothing to
   * match there or later, so the whole reply is taken.
   */
  lemma BareMarkerFallsBack(reply: string, p: nat)
    requires OccursAt(Strip(reply), FullFormMarker, p)
    requires forall i: nat :: i < p ==> !OccursAt(Strip(reply), FullFormMarker, i)
    requires p + |FullFormMarker| == |Strip(reply)|
    ensures ChosenExpansion(reply) == Strip(reply)
  {
    var s := Strip(reply);
    SearchSkips(s, FullFormMarker, RestOfLine, 0, p);
    assert SkipSpace(s, |s|) == |s|;
    assert Search(s, FullFormMarker, RestOfLine, p + 1) == None;
  }

  /**
   * The index is read at the first `INDEX:` followed, after any whitespace, by a
   * digit; earlier markers without digits are passed over, text before the marker
   * is ignored, and leading zeros do not change the value. A numeral longer than
   * `int()` accepts gives no index.
   */
  lemma IndexAfterFirstMatch(reply: string, p: nat)
    requires MatchesAt(Strip(reply), IndexMarker, Digits, p)
    requires forall i: nat :: i < p ==> !MatchesAt(Strip(reply), IndexMarker, Digits, i)
    ensures var s := Strip(reply);
            var e := SkipSpace(s, p + |IndexMarker|);
            e < |s| && IsDigit(s[e]) &&
            var digits := s[e..RunEnd(s, e, IsDigit)];
            ParseIndex(reply) == if |digits| <= MaxIntDigits then Some(DecimalValue(digits)) else None
  {
    SearchSkips(Strip(reply), IndexMarker, Digits, 0, p);
  }

  /** A reply without `INDEX:` gives no index. */
  lemma MissingIndexMarker(reply: string)
    requires !Contains(Strip(reply), IndexMarker)
    ensures ParseIndex(reply) == None
  {
    ContainsIff(Strip(reply), IndexMarker);
    SearchWithoutMarker(Strip(reply), IndexMarker, Digits, 0);
  }

  /**
   * When `INDEX:` is never followed, after any whitespace, by a digit, there is no
   * index, whether or not the marker occurs.
   */
  lemma NoIndexWithoutDigits(reply: string)
    requires forall p: nat :: !MatchesAt(Strip(reply), IndexMarker, Digits, p)
    ensures ParseIndex(reply) == None
  {
    SearchWithoutMatch(Strip(reply), IndexMarker, Digits, 0);
  }

  /** An index is read only where `INDEX:` is followed, after any whitespace, by a digit. */
  lemma IndexNeedsMatch(reply: string) returns (p: nat)
    requires ParseIndex(reply).Some?
    ensures MatchesAt(Strip(reply), IndexMarker, Digits, p)
  {
    p := SearchFoundAtMatch(Strip(reply), IndexMarker, Digits, 0);
  }

  /** The reply format the second prompt asks for is read back exactly: `INDEX:`, whitespace, the number. */
  lemma IndexRoundTrip(sep: string, n: nat)
    requires AllSpace(sep)
    ensures ParseIndex(IndexMarker + sep + DecimalString(n)) ==
      if |DecimalString(n)| <= MaxIntDigits then Some(n) else None
  {
    var d := DecimalString(n);
    var s := IndexMarker + sep + d;
    MarkedTextStripped(IndexMarker, sep, d);
    assert OccursAt(s, IndexMarker, 0) by { assert s[..|IndexMarker|] == IndexMarker; }
    DigitsAfterSeparator(IndexMarker, sep, d);
    SearchAtStart(s, IndexMarker, Digits);
  }

  /** Text before the marker and leading zeros: `Answer: INDEX: 02` gives 2. */
  lemma IndexAfterText()
    ensures ParseIndex("Answer: INDEX: 02") == Some(2)
  {
    var s := "Answer: INDEX: 02";
    StripStripped(s);
    assert s[8..14] == IndexMarker;
    assert SkipSpace(s, 14) == 15;
    assert RunEnd(s, 15, IsDigit) == 17;
    assert MatchesAt(s, IndexMarker, Digits, 8);
    forall i: nat | i < 8 ensures !MatchesAt(s, IndexMarker, Digits, i) {
      assert s[i..i + 6][0] == s[i] != 'I';
    }
    IndexAfterFirstMatch(s, 8);
    assert s[15..17] == "02";
    assert "02"[..1] == "0" && "0"[..0] == [];
    assert DecimalValue("02") == 2;
  }

  /** A marker without digits is passed over for a later one: `INDEX: none` then `INDEX: 3` gives 3. */
  lemma IndexSkipsMarkerWithoutDigits()
    ensures ParseIndex("INDEX: none\nINDEX: 3") == Some(3)
  {
    var s := "INDEX: none\nINDEX: 3";
    StripStripped(s);
    NoDigitsAfterFirstMarker(s);
    DigitsAfterSecondMarker(s);
    IndexAfterFirstMatch(s, 12);
    assert s[19..20] == "3" && "3"[..0] == [];
    assert DecimalValue(s[19..20]) == 3;
  }

  /** `INDEX: none`: the pattern matches nowhere before the second line. */
  lemma NoDigitsAfterFirstMarker(s: string)
    requires s == "INDEX: none\nINDEX: 3"
    ensures forall i: nat :: i < 12 ==> !MatchesAt(s, IndexMarker, Digits, i)
  {
    assert SkipSpace(s, 6) == 7 && !IsDigit(s[7]);
    assert DigitsAt(s, 6) == None;
    assert GroupAt(Digits, s, 6) == None;
    forall i: nat | 0 < i < 12 ensures !MatchesAt(s, IndexMarker, Digits, i) {
      assert s[i..i + 6][0] == s[i] != 'I';
    }
  }

  /** `INDEX: 3` on the second line: the pattern matches there, with the digit at 19. */
  lemma DigitsAfterSecondMarker(s: string)
    requires s == "INDEX: none\nINDEX: 3"
    ensures MatchesAt(s, IndexMarker, Digits, 12)
    ensures SkipSpace(s, 12 + |IndexMarker|) == 19 && RunEnd(s, 19, IsDigit) == 20
  {
    assert s[12..18] == IndexMarker;
    assert SkipSpace(s, 18) == 19;
    assert RunEnd(s, 19, IsDigit) == 20;
  }

  /** A marker followed by a word rather than digits: `INDEX: two` gives no index. */
  lemma IndexInWords()
    ensures ParseIndex("INDEX: two") == None
  {
    var s := "INDEX: two";
    StripStripped(s);
    forall p: nat ensures !MatchesAt(s, IndexMarker, Digits, p) {
      if p == 0 {
        assert SkipSpace(s, 6) == 7 && !IsDigit(s[7]);
        assert DigitsAt(s, 6) == None;
      } else if p + |IndexMarker| <= |s| {
        assert s[p..p + 6][0] == s[p] != 'I';
      }
    }
    NoIndexWithoutDigits(s);
  }
}
