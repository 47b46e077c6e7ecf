# Acronym resolution: a verified model

The application listens to speech, finds the acronyms in the transcript, and
explains each one. Two functions in `utils.py` do this, and this project models
them.

- **`extract_acronyms`** reports the distinct matches of `\b[A-Z]{2,}\b`.
- **`get_acronym_meanings`** resolves one acronym in five steps:
  1. It harvests candidate meanings from the acronym's page on a definitions site.
  2. It asks a language model which candidate fits the context, and reads the
     reply's `FULL_FORM:` line.
  3. It searches an encyclopedia with that expansion.
  4. It fetches the pages found. A failed fetch is skipped.
  5. It asks the model to choose one page, reads the reply's `INDEX:` line, and
     returns the first line of that page's summary.

   Any exception gives `None`.

Modules:

- `Text` (text.dfy): the character classes and string operations the code relies
  on, as Python defines them for ASCII: `\w`, `\s`, `\d`, `str.strip`, `in` on
  strings, and `split('\n')[0]`. It also defines decimal numerals.
- `Acronyms` (acronyms.dfy): models `re.findall` step by step, including the
  regex engine's backtracking, and proves it equal to a declarative definition
  of a whole word of capitals.
- `Replies` (replies.dfy): models `re.search` for the two reply markers. This
  includes the line-break-crossing `\s*` and the fallback to the whole reply.
- `Harvest` (harvest.dfy): the parsed definitions page, and the nested loops that
  collect `found_meanings`. These are methods, proved equal to functions that
  specify them.
- `Resolver` (resolver.dfy): the whole pipeline.
  - The definitions site, the language model and the encyclopedia are fields of
    a `Services` value. Each is a function of what the code sends, and answers
    `None` where the call raises.
  - `Resolve` specifies the pipeline, including the ordered log of the calls made.
  - The method `GetAcronymMeanings` runs the steps and is proved to agree with
    `Resolve`.

## Model

| member | source | states |
|---|---|---|
| Acronyms.ExtractAcronyms | utils.py:9-13 | A string is in the result exactly when it occurs in the text as a match of `\b[A-Z]{2,}\b`: two or more capitals with a word boundary on each side. Duplicates collapse because the result is a set. |
| Acronyms.FindAllMatches | utils.py:11-12 | The left-to-right scan that `re.findall` performs, resuming after each match, finds every match that starts at or after a position, and nothing else. |
| Acronyms.MatchAtIff | utils.py:11 | The match the regex engine makes when tried at a position, after greedy repetition and backtracking, ends at `j` exactly when that stretch is a match of the pattern. |
| Acronyms.BacktrackOnlyAtRunEnd | utils.py:11 | Giving back capitals never yields a match: the only possible end is the end of the run of capitals. |
| Acronyms.NoSpanInside | utils.py:11-12 | No match starts strictly inside another match, so resuming after a match loses nothing. |
| Acronyms.SpanIsWholeWord | utils.py:11 | The two `\b` of the pattern hold exactly when the capitals are preceded and followed by a non-word character or an end of the text. |
| Acronyms.TokensAreWholeCapitalWords | utils.py:11-13 | Every token has length at least 2, is all A-Z, and appears in the text as a whole word. |
| Acronyms.WholeCapitalWordsAreTokens | utils.py:11-13 | Conversely, every whole word of two or more capitals in the text is returned. |
| Acronyms.TokenExtractsItself | utils.py:11-13 | Extracting from a single token gives back exactly that token. |
| Acronyms.CapitalsTouchingWordCharsAreNotTokens | utils.py:11-12 | Capitals touching a lower-case letter, digit or underscore are not reported (`ABCd`, `AB1`, `xAB`, `AB_CD`). |
| Text.Strip | utils.py:33 | `str.strip()`: the result has no whitespace at either end. |
| Text.StripRemovesOuterSpace | utils.py:33 | The stripped text is the stretch of the string between a whitespace prefix and a whitespace suffix. |
| Text.StripStripped | utils.py:63 | Stripping a string without outer whitespace leaves it unchanged. |
| Text.StripEmpty | utils.py:37 | The stripped text is empty exactly when the whole string is whitespace, which is when a candidate is dropped. |
| Text.StripKeeps | utils.py:67 | Stripping only removes characters, so any property of every character survives it. |
| Text.ContainsIff | utils.py:33 | Python's substring test `acronym in text` holds exactly when the acronym occurs at some position of the text. |
| Text.FirstLine | utils.py:82 | `split('\n')[0]` is a prefix of the summary with no line feed, and it stops only at a line feed. |
| Text.DecimalString | utils.py:108 | The numeral written for a number has only digits, is non-empty, and `int()` reads it back as that number. |
| Replies.Search | utils.py:66 | `re.search` for a marker followed by a group returns, when anything, a group of the right shape: a non-empty single line, or a non-empty run of digits. |
| Replies.ChosenExpansion | utils.py:63-67 | The expansion chosen from the first reply never has outer whitespace. |
| Replies.ExpansionFallback | utils.py:66-67 | A reply whose stripped text does not contain `FULL_FORM:` is taken whole, stripped. `Resolver.SearchWithWholeReply` shows that processing goes on with it. |
| Replies.ExpansionAfterFirstMarker | utils.py:66-67 | When `FULL_FORM:` first occurs with text after it, the expansion is read from the first non-whitespace character after the marker, line breaks included, to the end of that line, then stripped. It is non-empty and single-line. |
| Replies.ExpansionRoundTrip | utils.py:63-67 | A reply in the requested format (`FULL_FORM:`, whitespace, a stripped one-line expansion) gives back exactly that expansion. |
| Replies.BareMarkerFallsBack | utils.py:66-67 | When the first `FULL_FORM:` ends the stripped reply, nothing follows it for `(.+)`, so the pattern does not match and the whole stripped reply is taken. |
| Replies.SearchWithoutMarker | utils.py:66 | Without an occurrence of the marker, the search finds nothing. |
| Replies.SearchWithoutMatch | utils.py:66 | When the whole pattern, marker then group, matches at no position, the search finds nothing, even where the marker occurs. |
| Replies.SearchFoundAtMatch | utils.py:66 | A search that finds something found it at the leftmost position where the whole pattern matches, and returns group 1 there. |
| Replies.SearchSkips | utils.py:66 | The search passes over positions where the whole pattern, marker and group, does not match. |
| Replies.RestOfLineAfterSeparator | utils.py:66 | After the marker and whitespace, `\s*(.+)` captures a following one-line text whole. |
| Replies.DigitsAfterSeparator | utils.py:105 | After the marker and whitespace, `\s*(\d+)` captures a following run of digits whole. |
| Replies.MissingIndexMarker | utils.py:104-107 | A second reply without `INDEX:` gives no index. |
| Replies.ParseIndex | utils.py:104-108 | An index is read only when the search for `INDEX:\s*(\d+)` in the stripped reply finds digits. A numeral longer than 4300 digits, which `int()` refuses, gives no index. `IndexNeedsMatch` and `NoIndexWithoutDigits` restate the first point as where the pattern matches. |
| Replies.NoIndexWithoutDigits | utils.py:104-107 | When `INDEX:` is nowhere followed, after any whitespace, by a digit, there is no index, whether or not the marker occurs. |
| Replies.IndexNeedsMatch | utils.py:104-108 | An index that is read comes from a position where `INDEX:` is followed, after any whitespace, by a digit. |
| Replies.IndexAfterFirstMatch | utils.py:104-108 | The index is read at the first position where `INDEX:` is followed, after any whitespace, by a digit. It is the value of the whole run of digits there, leading zeros included, or nothing when that run has more than 4300 digits. |
| Replies.IndexRoundTrip | utils.py:104-108 | `INDEX:`, whitespace and the decimal numeral of `n` is read back as `n`, when the numeral has at most 4300 digits. |
| Replies.IndexAfterText | utils.py:104-108 | Text before the marker and leading zeros are accepted: `Answer: INDEX: 02` gives 2. |
| Replies.IndexInWords | utils.py:104-107 | A number written in words is not read: `INDEX: two` gives no index. |
| Replies.IndexSkipsMarkerWithoutDigits | utils.py:104-108 | An `INDEX:` without digits after it is passed over for a later one: `INDEX: none`, a line break, then `INDEX: 3` gives 3. |
| Harvest.PairMeaning | utils.py:33-38 | A key cell and the cell after it contribute at most one candidate. |
| Harvest.PairMeaningIff | utils.py:33-38 | A pair contributes `m` exactly when the acronym occurs in the key cell's stripped text, the next cell has a `p.desc`, and `m` is that description stripped and non-empty. |
| Harvest.HarvestMeanings | utils.py:27-44 | The nested append loops build exactly the specified candidate list: row meanings in row order, then `div.desc` meanings. |
| Harvest.AppendRowMeanings | utils.py:31-38 | The loop over `range(len(cells)-1)` appends exactly the meanings of one row. |
| Harvest.AppendDivMeanings | utils.py:40-44 | The loop over the `div.desc` elements appends exactly their non-blank stripped texts, in order. |
| Harvest.KeyedMeaningsMembership | utils.py:32-38 | A row's first `n` keys yield `m` exactly when one of them, with the cell after it, qualifies as above. |
| Harvest.RowMeaningsMembership | utils.py:31-38 | A row yields `m` exactly when some cell of it other than the last qualifies with the cell after it. |
| Harvest.RowsMeaningsMembership | utils.py:30-38 | The table yields `m` exactly when some row has a key cell, not the row's last, that qualifies with its successor. |
| Harvest.DivMeaningsMembership | utils.py:40-44 | The divs yield `m` exactly when `m` is the non-empty stripped text of one of them. |
| Harvest.HarvestMembership | utils.py:27-44 | The harvested candidates are exactly the qualifying row descriptions together with the non-blank `div.desc` texts. |
| Harvest.HarvestStrippedNonEmpty | utils.py:36-37 | Every candidate is non-empty and has no outer whitespace: blank texts are dropped. |
| Harvest.RowsMeaningsAppend | utils.py:30-38 | Rows are harvested in order: the meanings of earlier rows come before those of later ones. |
| Harvest.RowsMeaningsLast | utils.py:30-38 | Adding a row appends that row's meanings at the end. |
| Harvest.DivMeaningsLast | utils.py:41-44 | Adding a `div.desc` appends its non-blank stripped text at the end. |
| Harvest.DivMeaningsAppend | utils.py:40-44 | `div.desc` elements are harvested in document order. |
| Harvest.NoDeduplication | utils.py:40-44 | Nothing is deduplicated: when no div is blank, each one contributes its stripped text, repeats included. |
| Harvest.KeyedMeaningsReads | utils.py:32-37 | The keys tried read only the texts of cells `0..n-1` and the descriptions of cells `1..n`. |
| Harvest.RowReadsKeysAndDescriptions | utils.py:32-37 | The last cell of a row is never a key, and the first cell's description is never taken: rows that differ only there harvest the same. |
| Resolver.PageEntry | utils.py:78-85 | A page fetch contributes at most one entry, whose summary is a single line. A failed fetch contributes none. |
| Resolver.Summaries | utils.py:76-85 | There are no more entries than search results, and every entry's summary is a single line. |
| Resolver.SelectSummary | utils.py:108-111 | No index gives `None`. Index `n` with `1 <= n <= len` gives the n-th summary, counting from 1. `0` gives the last summary, by Python's negative indexing. An index past the end raises, which gives `None`. |
| Resolver.AfterSearch | utils.py:72-111 | Once the search has listed its titles, the result, whenever there is one, is a single line of text. |
| Resolver.Resolve | utils.py:15-115 | The pipeline's result, whenever there is one, is a single line of text. |
| Resolver.FetchSummaries | utils.py:76-85 | The page loop, which skips failed fetches with `continue`, builds exactly the specified entries. |
| Resolver.GetAcronymMeanings | utils.py:15-115 | Running the steps gives exactly the result and the call log that `Resolve` specifies, for every behaviour of the services. |
| Resolver.SummariesProvenance | utils.py:77-83 | An entry is exactly the title and the first summary line of a page that was fetched for one of the search results. |
| Resolver.SummariesEmpty | utils.py:87-88 | There are no entries exactly when every page fetch fails. |
| Resolver.SummariesAppend | utils.py:77-85 | Entries keep the order of the search results. |
| Resolver.DefinitionsFailure | utils.py:113-115 | When the definitions page cannot be fetched, nothing else is called and the result is `None`. |
| Resolver.EmptyHarvestStops | utils.py:46-47 | An empty harvest gives `None`. No language-model, search or page call is made. |
| Resolver.SearchUsesChosenExpansion | utils.py:63-70 | Whatever the first reply is, the third call is the encyclopedia search for the expansion read from it. |
| Resolver.SearchWithWholeReply | utils.py:66-70 | A first reply without `FULL_FORM:` does not stop the run: the encyclopedia is searched with the whole stripped reply. |
| Resolver.SearchUsesExpansion | utils.py:63-70 | When the first reply is in the requested format, the encyclopedia is searched with the expansion it names. |
| Resolver.ResolveAfterSearch | utils.py:16-70 | A run that reaches the search has made exactly three calls by then: the definitions fetch, the first question and the search. |
| Resolver.AfterSearchCalls | utils.py:72-101 | After the search come exactly one page fetch per title, in search order, then the second question when at least one page was fetched, and nothing else. |
| Resolver.PageFetchesFollowSearch | utils.py:70-101 | The page fetches are exactly `FetchPage(t)` for each search result `t`, in order, right after the search. Only the second question comes after them, and no page is fetched anywhere else. |
| Resolver.PageFetchesNeedTitles | utils.py:70-79 | A page is fetched only when the definitions fetch, the first question and the search all succeeded, and only for a title the search returned. |
| Resolver.NoTitles | utils.py:70-73 | A search with no results gives `None`. No page is fetched and the model is not asked again. |
| Resolver.AllPagesFail | utils.py:76-88 | When every page fetch fails, the result is `None` and the second question is never asked. |
| Resolver.MissingIndex | utils.py:104-107 | A second reply where `INDEX:` is nowhere followed by digits gives `None`. This covers a reply without the marker and one such as `INDEX: two`. |
| Resolver.MeaningProvenance | utils.py:76-111 | A result is always a single line: the first line of the summary of a page fetched during the run. |
| Resolver.IndexSelectsEntry | utils.py:104-111 | With every step succeeding and the reply `INDEX: n`, where `n` has at most 4300 digits: `1 <= n <= len` picks entry `n`, counting from 1; `n = 0` picks the last entry. `n > len`, or a longer numeral, gives `None`. |

## Left out

- The user interface and audio transcription of the application: interface glue
  and I/O with no logic of their own.
- HTTP, HTML parsing, the language-model client and the encyclopedia library are
  not modelled.
  - Only their results enter the model, as the `Services` parameters.
  - The page is given already parsed into rows of cells (each with its text and
    its `p.desc` text, if any) and the texts of the `div.desc` elements.
  - Which elements `find_all` returns for nested tables is the parser's concern.
- The prompt texts are not modelled. The model records what each prompt is built
  from: the context, the acronym, the candidates, the expansion and the entries.
- The `results=5` argument of the search is the encyclopedia's promise. The model
  accepts any list of titles.
- The message printed in the exception handler is not modelled; only its `None`
  result is.
- Unicode matters are not modelled. `\w`, `\s`, `\d` and `str.strip()` are
  modelled on ASCII: word characters are letters, digits and `_`; whitespace is
  characters 9-13 and 28-32.
- `int()` refuses numerals of more than 4300 digits. That is the interpreter's
  default limit, which a program or its environment can change. The model uses
  the default, and only ASCII digits.
- Two behaviours of the code that a reader might not expect are modelled as
  written:
  - `INDEX: 0` yields the last summary, through Python's index -1, rather than
    no result.
  - The whitespace after `FULL_FORM:` may include line breaks, so the expansion
    can be read from a later line.
