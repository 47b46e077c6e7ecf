/**
 * Stage one of `get_acronym_meanings` (utils.py lines 27-44): collecting the
 * candidate meanings from the definitions page. The page is given already
 * parsed, as the parts the code reads from it.
 */
module Harvest {
  import opened Wrappers
  import opened Text

  /**
   * One `td` cell of a table row: its text (`get_text()`) and the text of the
   * first `p` element of class `desc` inside it, when it has one.
   */
  datatype Cell = Cell(text: string, desc: Option<string>)

  /**
   * The definitions page as the harvest sees it: the `td` cells of every `tr`
   * row, and the texts of the `div` elements of class `desc`, each in
   * document order.
   */
  datatype Document = Document(rows: seq<seq<Cell>>, descDivs: seq<string>)

  /**
   * What the key cell `key` and the cell after it contribute (lines 33-38): the
   * stripped description of `next`, when the acronym is a substring of the
   * stripped text of `key` and that description is not empty.
   */
  function PairMeaning(acronym: string, key: Cell, next: Cell): (r: seq<string>)
    ensures |r| <= 1
  {
    if Contains(Strip(key.text), acronym) && next.desc.Some? && Strip(next.desc.value) != []
    then [Strip(next.desc.value)]
    else []
  }

  /** What the first `n` cells of a row contribute as keys, each with the cell after it. */
  function KeyedMeanings(acronym: string, cells: seq<Cell>, n: nat): seq<string>
    requires n < |cells|
  {
    if n == 0 then [] else KeyedMeanings(acronym, cells, n - 1) + PairMeaning(acronym, cells[n - 1], cells[n])
  }

  /** The meanings one row contributes: every cell but the last is tried as a key. */
  function RowMeanings(acronym: string, cells: seq<Cell>): seq<string>
  {
    if cells == [] then [] else KeyedMeanings(acronym, cells, |cells| - 1)
  }

  /** The meanings of the rows, row after row (lines 30-38). */
  function RowsMeanings(acronym: string, rows: seq<seq<Cell>>): seq<string>
  {
    Concat(seq(|rows|, r requires 0 <= r < |rows| => RowMeanings(acronym, rows[r])))
  }

  /** The parts one after the other, as the appends of the harvest loops leave them. */
  function Concat(parts: seq<seq<string>>): seq<string>
  {
    if parts == [] then [] else Concat(parts[..|parts| - 1]) + parts[|parts| - 1]
  }

  /** Concatenating two runs of parts is concatenating their concatenations. */
  lemma {:induction false} ConcatAppend(parts1: seq<seq<string>>, parts2: seq<seq<string>>)
    ensures Concat(parts1 + parts2) == Concat(parts1) + Concat(parts2)
    decreases |parts2|
  {
    if parts2 == [] {
      assert parts1 + parts2 == parts1;
    } else {
      var init := parts2[..|parts2| - 1];
      assert (parts1 + parts2)[..|parts1 + parts2| - 1] == parts1 + init;
      ConcatAppend(parts1, init);
    }
  }

  /** A string is in the concatenation exactly when it is in one of the parts. */
  lemma {:induction false} ConcatMembership(parts: seq<seq<string>>, m: string)
    ensures m in Concat(parts) <==> exists r :: 0 <= r < |parts| && m in parts[r]
  {
    if parts != [] {
      var init := parts[..|parts| - 1];
      ConcatMembership(init, m);
      if r :| 0 <= r < |parts| && m in parts[r] {
        if r < |parts| - 1 {
          assert init[r] == parts[r];
        }
      }
    }
  }

  /** The stripped text of a `div.desc`, unless it is empty (lines 42-44). */
  function DivMeaning(div: string): (r: seq<string>)
    ensures |r| <= 1
  {
    if Strip(div) != [] then [Strip(div)] else []
  }

  /** The meanings of the `div.desc` elements, in document order (lines 40-44). */
  function DivMeanings(divs: seq<string>): seq<string>
  {
    Concat(seq(|divs|, d requires 0 <= d < |divs| => DivMeaning(divs[d])))
  }

  /** `found_meanings` at line 46: the row meanings first, then the div meanings. */
  function FoundMeanings(acronym: string, doc: Document): seq<string>
  {
    RowsMeanings(acronym, doc.rows) + DivMeanings(doc.descDivs)
  }

  /**
   * The harvest of lines 27-44, appending to `found` as the code does: the
   * loop over the rows, then the loop over the `div.desc` elements.
   */
  method HarvestMeanings(acronym: string, doc: Document) returns (found: seq<string>)
    ensures found == FoundMeanings(acronym, doc)
  {
    found := [];
    for r := 0 to |doc.rows|
      invariant found == RowsMeanings(acronym, doc.rows[..r])
    {
      found := AppendRowMeanings(acronym, doc.rows[r], found);
      RowsMeaningsLast(acronym, doc.rows[..r], doc.rows[r]);
      assert doc.rows[..r] + [doc.rows[r]] == doc.rows[..r + 1];
    }
    assert doc.rows[..|doc.rows|] == doc.rows;
    found := AppendDivMeanings(doc.descDivs, found);
  }

  /** The loop over the `div.desc` elements (lines 40-44). */
  method AppendDivMeanings(divs: seq<string>, found0: seq<string>) returns (found: seq<string>)
    ensures found == found0 + DivMeanings(divs)
  {
    found := found0;
    for d := 0 to |divs|
      invariant found == found0 + DivMeanings(divs[..d])
    {
      var text := Strip(divs[d]);
      if text != [] {
        found := found + [text];
      }
      DivMeaningsLast(divs[..d], divs[d]);
      assert divs[..d] + [divs[d]] == divs[..d + 1];
    }
    assert divs[..|divs|] == divs;
  }

  /** The inner loop over the cells of one row (lines 31-38). */
  method AppendRowMeanings(acronym: string, cells: seq<Cell>, found0: seq<string>) returns (found: seq<string>)
    ensures found == found0 + RowMeanings(acronym, cells)
  {
    found := found0;
    var i := 0;
    while i < |cells| - 1
      invariant cells != [] ==> i < |cells| && found == found0 + KeyedMeanings(acronym, cells, i)
      invariant cells == [] ==> i == 0 && found == found0
    {
      if Contains(Strip(cells[i].text), acronym) {
        var desc := cells[i + 1].desc;
        if desc.Some? {
          var meaning := Strip(desc.value);
          if meaning != [] {
            found := found + [meaning];
          }
        }
      }
      i := i + 1;
    }
  }

  /**
   * The condition of lines 33-37, stated independently of the code: the acronym
   * occurs in the stripped text of the key cell, and `m` is the non-empty
   * stripped description of the cell after it.
   */
  ghost predicate KeyedDescription(acronym: string, key: Cell, next: Cell, m: string)
  {
    (exists p: nat :: OccursAt(Strip(key.text), acronym, p)) &&
    next.desc.Some? && m == Strip(next.desc.value) && m != []
  }

  /** A pair contributes exactly the meanings the condition of lines 33-37 describes. */
  lemma PairMeaningIff(acronym: string, key: Cell, next: Cell, m: string)
    ensures m in PairMeaning(acronym, key, next) <==> KeyedDescription(acronym, key, next, m)
  {
    ContainsIff(Strip(key.text), acronym);
  }

  /** The first `n` keys of a row contribute exactly the descriptions of the pairs that qualify. */
  lemma {:induction false} KeyedMeaningsMembership(acronym: string, cells: seq<Cell>, n: nat, m: string)
    requires n < |cells|
    ensures m in KeyedMeanings(acronym, cells, n) <==>
      exists i :: 0 <= i < n && KeyedDescription(acronym, cells[i], cells[i + 1], m)
  {
    if n > 0 {
      KeyedMeaningsMembership(acronym, cells, n - 1, m);
      PairMeaningIff(acronym, cells[n - 1], cells[n], m);
    }
  }

  /** A row contributes exactly the descriptions of its qualifying pairs of neighbouring cells. */
  lemma RowMeaningsMembership(acronym: string, cells: seq<Cell>, m: string)
    ensures m in RowMeanings(acronym, cells) <==>
      exists i :: 0 <= i < |cells| - 1 && KeyedDescription(acronym, cells[i], cells[i + 1], m)
  {
    if cells != [] {
      KeyedMeaningsMembership(acronym, cells, |cells| - 1, m);
    }
  }

  /** The table contributes exactly the descriptions of the qualifying pairs of all its rows. */
  lemma RowsMeaningsMembership(acronym: string, rows: seq<seq<Cell>>, m: string)
    ensures m in RowsMeanings(acronym, rows) <==>
      exists r, i :: 0 <= r < |rows| && 0 <= i < |rows[r]| - 1 && KeyedDescription(acronym, rows[r][i], rows[r][i + 1], m)
  {
    var parts := seq(|rows|, r requires 0 <= r < |rows| => RowMeanings(acronym, rows[r]));
    ConcatMembership(parts, m);
    forall r | 0 <= r < |rows|
      ensures m in parts[r] <==>
        exists i :: 0 <= i < |rows[r]| - 1 && KeyedDescription(acronym, rows[r][i], rows[r][i + 1], m)
    {
      RowMeaningsMembership(acronym, rows[r], m);
    }
  }

  /** The `div.desc` elements contribute exactly their non-blank stripped texts. */
  lemma DivMeaningsMembership(divs: seq<string>, m: string)
    ensures m in DivMeanings(divs) <==> exists d :: 0 <= d < |divs| && m == Strip(divs[d]) && m != []
  {
    var parts := seq(|divs|, d requires 0 <= d < |divs| => DivMeaning(divs[d]));
    ConcatMembership(parts, m);
    assert forall d :: 0 <= d < |divs| ==> (m in parts[d] <==> m == Strip(divs[d]) && m != []);
  }

  /**
   * What the harvest contains: the non-empty stripped description in the cell
   * after every cell, other than the last of its row, whose stripped text contains
   * the acronym, and the non-empty stripped text of every `div.desc`.
   */
  lemma HarvestMembership(acronym: string, doc: Document, m: string)
    ensures m in FoundMeanings(acronym, doc) <==>
      (exists r, i :: 0 <= r < |doc.rows| && 0 <= i < |doc.rows[r]| - 1 &&
         KeyedDescription(acronym, doc.rows[r][i], doc.rows[r][i + 1], m)) ||
      (exists d :: 0 <= d < |doc.descDivs| && m == Strip(doc.descDivs[d]) && m != [])
  {
    RowsMeaningsMembership(acronym, doc.rows, m);
    DivMeaningsMembership(doc.descDivs, m);
  }

  /** Every candidate is non-empty and has no surrounding whitespace. */
  lemma HarvestStrippedNonEmpty(acronym: string, doc: Document)
    ensures forall m :: m in FoundMeanings(acronym, doc) ==> m != [] && IsStripped(m)
  {
    forall m | m in FoundMeanings(acronym, doc) ensures m != [] && IsStripped(m) {
      HarvestMembership(acronym, doc, m);
    }
  }

  /** Rows are harvested in order: the meanings of earlier rows come first. */
  lemma RowsMeaningsAppend(acronym: string, rows1: seq<seq<Cell>>, rows2: seq<seq<Cell>>)
    ensures RowsMeanings(acronym, rows1 + rows2) == RowsMeanings(acronym, rows1) + RowsMeanings(acronym, rows2)
  {
    var rows := rows1 + rows2;
    var parts1 := seq(|rows1|, r requires 0 <= r < |rows1| => RowMeanings(acronym, rows1[r]));
    var parts2 := seq(|rows2|, r requires 0 <= r < |rows2| => RowMeanings(acronym, rows2[r]));
    assert seq(|rows|, r requires 0 <= r < |rows| => RowMeanings(acronym, rows[r])) == parts1 + parts2;
    ConcatAppend(parts1, parts2);
  }

  /** Adding a row appends that row's meanings. */
  lemma RowsMeaningsLast(acronym: string, rows: seq<seq<Cell>>, row: seq<Cell>)
    ensures RowsMeanings(acronym, rows + [row]) == RowsMeanings(acronym, rows) + RowMeanings(acronym, row)
  {
    var all := rows + [row];
    var parts := seq(|rows|, r requires 0 <= r < |rows| => RowMeanings(acronym, rows[r]));
    var allParts := seq(|all|, r requires 0 <= r < |all| => RowMeanings(acronym, all[r]));
    assert allParts[..|allParts| - 1] == parts;
  }

  /** `div.desc` elements are harvested in document order. */
  lemma DivMeaningsAppend(divs1: seq<string>, divs2: seq<string>)
    ensures DivMeanings(divs1 + divs2) == DivMeanings(divs1) + DivMeanings(divs2)
  {
    var divs := divs1 + divs2;
    var parts1 := seq(|divs1|, d requires 0 <= d < |divs1| => DivMeaning(divs1[d]));
    var parts2 := seq(|divs2|, d requires 0 <= d < |divs2| => DivMeaning(divs2[d]));
    assert seq(|divs|, d requires 0 <= d < |divs| => DivMeaning(divs[d])) == parts1 + parts2;
    ConcatAppend(parts1, parts2);
  }

  /** Adding a `div.desc` appends its meaning. */
  lemma DivMeaningsLast(divs: seq<string>, div: string)
    ensures DivMeanings(divs + [div]) == DivMeanings(divs) + DivMeaning(div)
  {
    var all := divs + [div];
    var parts := seq(|divs|, d requires 0 <= d < |divs| => DivMeaning(divs[d]));
    var allParts := seq(|all|, d requires 0 <= d < |all| => DivMeaning(all[d]));
    assert allParts[..|allParts| - 1] == parts;
  }

  /**
   * Nothing is deduplicated: when no `div.desc` is blank, each one contributes
   * its stripped text, repeated texts included.
   */
  lemma {:induction false} NoDeduplication(divs: seq<string>)
    requires forall d :: 0 <= d < |divs| ==> Strip(divs[d]) != []
    ensures DivMeanings(divs) == seq(|divs|, d requires 0 <= d < |divs| => Strip(divs[d]))
  {
    if divs != [] {
      var init, last := divs[..|divs| - 1], divs[|divs| - 1];
      NoDeduplication(init);
      DivMeaningsLast(init, last);
      assert init + [last] == divs;
      var all := seq(|divs|, d requires 0 <= d < |divs| => Strip(divs[d]));
      var head := seq(|init|, d requires 0 <= d < |init| => Strip(init[d]));
      assert all == head + [Strip(last)];
    }
  }

  /**
   * A row is read only through the texts of its cells but the last (the keys) and
   * the descriptions of its cells but the first: the text of the last cell is never
   * used as a key, and the description of the first cell never taken.
   */
  lemma {:induction false} KeyedMeaningsReads(acronym: string, cells1: seq<Cell>, cells2: seq<Cell>, n: nat)
    requires n < |cells1| && n < |cells2|
    requires forall i :: 0 <= i < n ==> cells1[i].text == cells2[i].text
    requires forall i :: 1 <= i <= n ==> cells1[i].desc == cells2[i].desc
    ensures KeyedMeanings(acronym, cells1, n) == KeyedMeanings(acronym, cells2, n)
  {
    if n > 0 {
      KeyedMeaningsReads(acronym, cells1, cells2, n - 1);
    }
  }

  /** For whole rows: the last cell's text and the first cell's description do not matter. */
  lemma RowReadsKeysAndDescriptions(acronym: string, cells1: seq<Cell>, cells2: seq<Cell>)
    requires |cells1| == |cells2|
    requires forall i :: 0 <= i < |cells1| - 1 ==> cells1[i].text == cells2[i].text
    requires forall i :: 1 <= i < |cells1| ==> cells1[i].desc == cells2[i].desc
    ensures RowMeanings(acronym, cells1) == RowMeanings(acronym, cells2)
  {
    if cells1 != [] {
      KeyedMeaningsReads(acronym, cells1, cells2, |cells1| - 1);
    }
  }
}
