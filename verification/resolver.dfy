/**
 * `get_acronym_meanings` (utils.py lines 15-115): from an acronym and the text
 * it was heard in, to the first line of the summary of the encyclopedia article
 * that best explains it. The definitions site, the language model and the
 * encyclopedia are parameters: each call is a function of what the code sends,
 * answering None where the call raises (the `try` of lines 16 and 113-115 turns
 * every such exception into a None result). The calls made are recorded, in
 * order, so that what the code asks each service can be stated.
 */
module Resolver {
  import opened Wrappers
  import opened Text
  import opened Harvest
  import opened Replies

  /** The definitions page is fetched from this address followed by the acronym (line 19). */
  const DefinitionsUrl: string := "https://www.abbreviations.com/"

  /** What a successful `wikipedia.page(title, auto_suggest=False)` gives: the page's own title and its summary. */
  datatype Page = Page(title: string, summary: string)

  /** One element of `wiki_summaries` (lines 80-83): a page title and the first line of its summary. */
  datatype Entry = Entry(title: string, summary: string)

  /**
   * The outside world, as seen by the code. None stands for a call that raises.
   *  - definitions: `requests.get` of a url, parsed into what the harvest reads;
   *  - askExpansion: the first completion, given the context text, the acronym and the candidates;
   *  - search: `wikipedia.search` of a query, the titles it lists;
   *  - page: `wikipedia.page` of a title;
   *  - askIndex: the second completion, given the acronym, the chosen expansion and the entries.
   */
  datatype Services = Services(
    definitions: string -> Option<Document>,
    askExpansion: (string, string, seq<string>) -> Option<string>,
    search: string -> Option<seq<string>>,
    page: string -> Option<Page>,
    askIndex: (string, string, seq<Entry>) -> Option<string>)

  /** A call to one of the services, with what it is sent. */
  datatype Call =
    | FetchDefinitions(url: string)
    | AskExpansion(context: string, acronym: string, candidates: seq<string>)
    | SearchTitles(query: string)
    | FetchPage(title: string)
    | AskIndex(acronym: string, expansion: string, entries: seq<Entry>)

  /** The result of a run, and the calls it made. */
  datatype Outcome = Outcome(meaning: Option<string>, calls: seq<Call>)

  /** What one fetched page contributes to `wiki_summaries`: nothing when the fetch raised (lines 78-86). */
  function PageEntry(p: Option<Page>): (r: seq<Entry>)
    ensures |r| <= 1
    ensures forall e :: e in r ==> IsSingleLine(e.summary)
  {
    match p
    case None => []
    case Some(page) => [Entry(page.title, FirstLine(page.summary))]
  }

  /** `wiki_summaries` after the loop of lines 77-86 over the search results `titles`. */
  function Summaries(titles: seq<string>, page: string -> Option<Page>): (r: seq<Entry>)
    ensures |r| <= |titles|
    ensures forall e :: e in r ==> IsSingleLine(e.summary)
  {
    if titles == [] then []
    else Summaries(titles[..|titles| - 1], page) + PageEntry(page(titles[|titles| - 1]))
  }

  /** The page fetches of that loop, one per title, in order. */
  function PageCalls(titles: seq<string>): seq<Call>
  {
    seq(|titles|, i requires 0 <= i < |titles| => FetchPage(titles[i]))
  }

  /**
   * `wiki_summaries[most_relevant_index]["summary"]` with `most_relevant_index`
   * the parsed number less one (lines 108-111), under Python's list indexing:
   * index -1 is the last entry, and an index out of range raises, which gives None.
   */
  function SelectSummary(entries: seq<Entry>, index: Option<nat>): (r: Option<string>)
    ensures r.Some? <==> index.Some? && entries != [] && index.value <= |entries|
    ensures index.Some? && 1 <= index.value <= |entries| ==> r == Some(entries[index.value - 1].summary)
    ensures index == Some(0) && entries != [] ==> r == Some(entries[|entries| - 1].summary)
    ensures r.Some? ==> exists k :: 0 <= k < |entries| && r.value == entries[k].summary
  {
    match index
    case None => None
    case Some(n) =>
      var k: int := n - 1;
      if 0 <= k < |entries| then Some(entries[k].summary)
      else if -|entries| <= k < 0 then Some(entries[|entries| + k].summary)
      else None
  }

  /**
   * Lines 72-111, once the search has listed `titles` for `expansion`: the result,
   * and the calls made from then on.
   */
  function AfterSearch(acronym: string, expansion: string, titles: seq<string>, env: Services): (r: Outcome)
    ensures r.meaning.Some? ==> IsSingleLine(r.meaning.value)
  {
    if titles == [] then Outcome(None, [])
    else
      var entries := Summaries(titles, env.page);
      if entries == [] then Outcome(None, PageCalls(titles))
      else
        var arbitrated := PageCalls(titles) + [AskIndex(acronym, expansion, entries)];
        match env.askIndex(acronym, expansion, entries)
        case None => Outcome(None, arbitrated)
        case Some(answer) => Outcome(SelectSummary(entries, ParseIndex(answer)), arbitrated)
  }

  /** The whole of lines 16-115: the result and the calls made, in order. */
  function Resolve(acronym: string, context: string, env: Services): (r: Outcome)
    ensures r.meaning.Some? ==> IsSingleLine(r.meaning.value)
  {
    var url := DefinitionsUrl + acronym;
    var fetched := [FetchDefinitions(url)];
    match env.definitions(url)
    case None => Outcome(None, fetched)
    case Some(doc) =>
      var found := FoundMeanings(acronym, doc);
      if found == [] then Outcome(None, fetched)
      else
        var asked := fetched + [AskExpansion(context, acronym, found)];
        match env.askExpansion(context, acronym, found)
        case None => Outcome(None, asked)
        case Some(reply) =>
          var expansion := ChosenExpansion(reply);
          var searched := asked + [SearchTitles(expansion)];
          match env.search(expansion)
          case None => Outcome(None, searched)
          case Some(titles) =>
            var rest := AfterSearch(acronym, expansion, titles, env);
            Outcome(rest.meaning, searched + rest.calls)
  }

  /** The page loop of lines 77-86: a page that cannot be fetched is skipped. */
  method FetchSummaries(titles: seq<string>, page: string -> Option<Page>) returns (entries: seq<Entry>)
    ensures entries == Summaries(titles, page)
  {
    entries := [];
    for i := 0 to |titles|
      invariant entries == Summaries(titles[..i], page)
    {
      assert titles[..i + 1][..i] == titles[..i];
      var fetched := page(titles[i]);
      if fetched.None? {
        continue;
      }
      entries := entries + [Entry(fetched.value.title, FirstLine(fetched.value.summary))];
    }
    assert titles[..|titles|] == titles;
  }

  /** `get_acronym_meanings`, step by step as lines 16-115 run. */
  method GetAcronymMeanings(acronym: string, context: string, env: Services)
    returns (meaning: Option<string>, ghost calls: seq<Call>)
    ensures meaning == Resolve(acronym, context, env).meaning
    ensures calls == Resolve(acronym, context, env).calls
  {
    var url := DefinitionsUrl + acronym;
    calls := [FetchDefinitions(url)];
    var response := env.definitions(url);
    if response.None? {
      return None, calls;
    }
    var found := HarvestMeanings(acronym, response.value);
    if found == [] {
      return None, calls;
    }
    calls := calls + [AskExpansion(context, acronym, found)];
    var reply := env.askExpansion(context, acronym, found);
    if reply.None? {
      return None, calls;
    }
    var expansion := ChosenExpansion(reply.value);
    calls := calls + [SearchTitles(expansion)];
    var titles := env.search(expansion);
    if titles.None? || titles.value == [] {
      return None, calls;
    }
    var entries := FetchSummaries(titles.value, env.page);
    calls := calls + PageCalls(titles.value);
    if entries == [] {
      return None, calls;
    }
    calls := calls + [AskIndex(acronym, expansion, entries)];
    var answer := env.askIndex(acronym, expansion, entries);
    if answer.None? {
      return None, calls;
    }
    meaning := SelectSummary(entries, ParseIndex(answer.value));
  }

  /** The entries are the fetched pages, each as its title and the first line of its summary. */
  lemma {:induction false} SummariesProvenance(titles: seq<string>, page: string -> Option<Page>, e: Entry)
    ensures e in Summaries(titles, page) <==>
      exists i, p :: 0 <= i < |titles| && page(titles[i]) == Some(p) && e == Entry(p.title, FirstLine(p.summary))
  {
    if titles != [] {
      var init := titles[..|titles| - 1];
      SummariesProvenance(init, page, e);
      if i, p :| 0 <= i < |titles| && page(titles[i]) == Some(p) && e == Entry(p.title, FirstLine(p.summary)) {
        if i < |titles| - 1 {
          assert init[i] == titles[i];
        }
      }
    }
  }

  /** No entry at all exactly when every page fetch fails (line 88). */
  lemma {:induction false} SummariesEmpty(titles: seq<string>, page: string -> Option<Page>)
    ensures Summaries(titles, page) == [] <==> forall i :: 0 <= i < |titles| ==> page(titles[i]).None?
  {
    if titles != [] {
      var init := titles[..|titles| - 1];
      SummariesEmpty(init, page);
      assert forall i :: 0 <= i < |init| ==> init[i] == titles[i];
    }
  }

  /** Entries keep the order of the search results. */
  lemma {:induction false} SummariesAppend(titles1: seq<string>, titles2: seq<string>, page: string -> Option<Page>)
    ensures Summaries(titles1 + titles2, page) == Summaries(titles1, page) + Summaries(titles2, page)
    decreases |titles2|
  {
    if titles2 == [] {
      assert titles1 + titles2 == titles1;
    } else {
      var init := titles2[..|titles2| - 1];
      assert (titles1 + titles2)[..|titles1 + titles2| - 1] == titles1 + init;
      SummariesAppend(titles1, init, page);
    }
  }

  /** When the definitions page cannot be fetched, nothing else is asked and there is no meaning. */
  lemma DefinitionsFailure(acronym: string, context: string, env: Services)
    requires env.definitions(DefinitionsUrl + acronym).None?
    ensures Resolve(acronym, context, env) == Outcome(None, [FetchDefinitions(DefinitionsUrl + acronym)])
  {
  }

  /** When the page offers no candidate meaning, the language model is never asked (line 46). */
  lemma EmptyHarvestStops(acronym: string, context: string, env: Services, doc: Document)
    requires env.definitions(DefinitionsUrl + acronym) == Some(doc)
    requires FoundMeanings(acronym, doc) == []
    ensures Resolve(acronym, context, env) == Outcome(None, [FetchDefinitions(DefinitionsUrl + acronym)])
  {
  }

  /** The encyclopedia is searched with the expansion read from the first reply (lines 63-70). */
  lemma SearchUsesChosenExpansion(acronym: string, context: string, env: Services, doc: Document, reply: string)
    requires env.definitions(DefinitionsUrl + acronym) == Some(doc)
    requires FoundMeanings(acronym, doc) != []
    requires env.askExpansion(context, acronym, FoundMeanings(acronym, doc)) == Some(reply)
    ensures var calls := Resolve(acronym, context, env).calls;
      |calls| >= 3 && calls[2] == SearchTitles(ChosenExpansion(reply))
  {
  }

  /**
   * A first reply without `FULL_FORM:` does not stop the run: the encyclopedia is
   * searched with the whole reply, stripped (line 67).
   */
  lemma SearchWithWholeReply(acronym: string, context: string, env: Services, doc: Document, reply: string)
    requires env.definitions(DefinitionsUrl + acronym) == Some(doc)
    requires FoundMeanings(acronym, doc) != []
    requires env.askExpansion(context, acronym, FoundMeanings(acronym, doc)) == Some(reply)
    requires !Contains(Strip(reply), FullFormMarker)
    ensures var calls := Resolve(acronym, context, env).calls;
      |calls| >= 3 && calls[2] == SearchTitles(Strip(reply))
  {
    ExpansionFallback(reply);
    SearchUsesChosenExpansion(acronym, context, env, doc, reply);
  }

  /** When the first reply is in the requested format, the search is for the expansion it names. */
  lemma SearchUsesExpansion(acronym: string, context: string, env: Services, doc: Document, sep: string, expansion: string)
    requires env.definitions(DefinitionsUrl + acronym) == Some(doc)
    requires FoundMeanings(acronym, doc) != []
    requires env.askExpansion(context, acronym, FoundMeanings(acronym, doc)) == Some(FullFormMarker + sep + expansion)
    requires AllSpace(sep) && expansion != [] && IsStripped(expansion) && IsSingleLine(expansion)
    ensures var calls := Resolve(acronym, context, env).calls;
      |calls| >= 3 && calls[2] == SearchTitles(expansion)
  {
    ExpansionRoundTrip(sep, expansion);
    SearchUsesChosenExpansion(acronym, context, env, doc, FullFormMarker + sep + expansion);
  }

  /** A run that reaches the search goes on as `AfterSearch` says, after the first three calls. */
  lemma ResolveAfterSearch(acronym: string, context: string, env: Services, doc: Document, reply: string,
                           titles: seq<string>)
    requires env.definitions(DefinitionsUrl + acronym) == Some(doc)
    requires FoundMeanings(acronym, doc) != []
    requires env.askExpansion(context, acronym, FoundMeanings(acronym, doc)) == Some(reply)
    requires env.search(ChosenExpansion(reply)) == Some(titles)
    ensures var rest := AfterSearch(acronym, ChosenExpansion(reply), titles, env);
      Resolve(acronym, context, env).calls ==
        [FetchDefinitions(DefinitionsUrl + acronym), AskExpansion(context, acronym, FoundMeanings(acronym, doc)),
         SearchTitles(ChosenExpansion(reply))] + rest.calls
  {
  }

  /** After the search: one fetch per title, then the second question when some page was fetched. */
  lemma AfterSearchCalls(acronym: string, expansion: string, titles: seq<string>, env: Services)
    ensures AfterSearch(acronym, expansion, titles, env).calls ==
      PageCalls(titles) + if titles == [] || Summaries(titles, env.page) == [] then []
                          else [AskIndex(acronym, expansion, Summaries(titles, env.page))]
  {
    if titles == [] {
      assert PageCalls(titles) == [];
    }
  }

  /**
   * The pages fetched are exactly the search results, each once, in search order,
   * right after the search and before the second question (lines 70-79).
   */
  lemma PageFetchesFollowSearch(acronym: string, context: string, env: Services, doc: Document, reply: string,
                                titles: seq<string>)
    requires env.definitions(DefinitionsUrl + acronym) == Some(doc)
    requires FoundMeanings(acronym, doc) != []
    requires env.askExpansion(context, acronym, FoundMeanings(acronym, doc)) == Some(reply)
    requires env.search(ChosenExpansion(reply)) == Some(titles)
    ensures var calls := Resolve(acronym, context, env).calls;
      |calls| >= 3 + |titles| &&
      calls[2] == SearchTitles(ChosenExpansion(reply)) &&
      (forall i :: 0 <= i < |titles| ==> calls[3 + i] == FetchPage(titles[i])) &&
      (forall j :: 0 <= j < |calls| && calls[j].FetchPage? ==> 3 <= j < 3 + |titles|) &&
      (forall j :: 3 + |titles| <= j < |calls| ==> calls[j].AskIndex?)
  {
    var expansion := ChosenExpansion(reply);
    var head := [FetchDefinitions(DefinitionsUrl + acronym), AskExpansion(context, acronym, FoundMeanings(acronym, doc)),
                 SearchTitles(expansion)];
    var tail: seq<Call> := if titles == [] || Summaries(titles, env.page) == [] then []
                           else [AskIndex(acronym, expansion, Summaries(titles, env.page))];
    ResolveAfterSearch(acronym, context, env, doc, reply, titles);
    AfterSearchCalls(acronym, expansion, titles, env);
    LogShape(head, AfterSearch(acronym, expansion, titles, env).calls, titles, tail, Resolve(acronym, context, env).calls);
  }

  /** Where the page fetches sit in a log made of three calls, the fetches, and then only second questions. */
  lemma LogShape(head: seq<Call>, rest: seq<Call>, titles: seq<string>, tail: seq<Call>, calls: seq<Call>)
    requires |head| == 3 && forall j :: 0 <= j < 3 ==> !head[j].FetchPage?
    requires forall j :: 0 <= j < |tail| ==> tail[j].AskIndex?
    requires calls == head + rest && rest == PageCalls(titles) + tail
    ensures |calls| >= 3 + |titles| && calls[..3] == head
    ensures forall i :: 0 <= i < |titles| ==> calls[3 + i] == FetchPage(titles[i])
    ensures forall j :: 0 <= j < |calls| && calls[j].FetchPage? ==> 3 <= j < 3 + |titles|
    ensures forall j :: 3 + |titles| <= j < |calls| ==> calls[j].AskIndex?
  {
    assert forall j :: 3 + |titles| <= j < |calls| ==> calls[j] == tail[j - 3 - |titles|];
  }

  /** A page is fetched only for a title the search returned. */
  lemma PageFetchesNeedTitles(acronym: string, context: string, env: Services, t: string)
    requires FetchPage(t) in Resolve(acronym, context, env).calls
    ensures var url := DefinitionsUrl + acronym;
      env.definitions(url).Some? &&
      var found := FoundMeanings(acronym, env.definitions(url).value);
      env.askExpansion(context, acronym, found).Some? &&
      var titles := env.search(ChosenExpansion(env.askExpansion(context, acronym, found).value));
      titles.Some? && t in titles.value
  {
    var url := DefinitionsUrl + acronym;
    var calls := Resolve(acronym, context, env).calls;
    match env.definitions(url)
    case None =>
      assert false;
    case Some(doc) =>
      var found := FoundMeanings(acronym, doc);
      if found == [] {
        assert false;
      } else {
        match env.askExpansion(context, acronym, found)
        case None =>
          assert false;
        case Some(reply) =>
          var expansion := ChosenExpansion(reply);
          match env.search(expansion)
          case None =>
            assert false;
          case Some(titles) =>
            PageFetchesFollowSearch(acronym, context, env, doc, reply, titles);
            var i :| 0 <= i < |calls| && calls[i] == FetchPage(t);
            assert calls[3 + (i - 3)] == FetchPage(titles[i - 3]);
      }
  }

  /** When the search lists no title, no page is fetched and there is no meaning (line 72). */
  lemma NoTitles(acronym: string, context: string, env: Services, doc: Document, reply: string)
    requires env.definitions(DefinitionsUrl + acronym) == Some(doc)
    requires FoundMeanings(acronym, doc) != []
    requires env.askExpansion(context, acronym, FoundMeanings(acronym, doc)) == Some(reply)
    requires env.search(ChosenExpansion(reply)) == Some([])
    ensures Resolve(acronym, context, env).meaning == None
    ensures forall c :: c in Resolve(acronym, context, env).calls ==> !c.FetchPage? && !c.AskIndex?
  {
  }

  /** When every page fetch fails, the second question is never asked and there is no meaning (line 88). */
  lemma AllPagesFail(acronym: string, context: string, env: Services, doc: Document, reply: string, titles: seq<string>)
    requires env.definitions(DefinitionsUrl + acronym) == Some(doc)
    requires FoundMeanings(acronym, doc) != []
    requires env.askExpansion(context, acronym, FoundMeanings(acronym, doc)) == Some(reply)
    requires env.search(ChosenExpansion(reply)) == Some(titles)
    requires forall i :: 0 <= i < |titles| ==> env.page(titles[i]).None?
    ensures Resolve(acronym, context, env).meaning == None
    ensures forall c :: c in Resolve(acronym, context, env).calls ==> !c.AskIndex?
  {
    SummariesEmpty(titles, env.page);
  }

  /**
   * A second reply where `INDEX:` is nowhere followed by digits, including one
   * without the marker at all, gives no meaning (lines 105-107).
   */
  lemma MissingIndex(acronym: string, context: string, env: Services, doc: Document, reply: string,
                     titles: seq<string>, answer: string)
    requires env.definitions(DefinitionsUrl + acronym) == Some(doc)
    requires FoundMeanings(acronym, doc) != []
    requires env.askExpansion(context, acronym, FoundMeanings(acronym, doc)) == Some(reply)
    requires env.search(ChosenExpansion(reply)) == Some(titles)
    requires env.askIndex(acronym, ChosenExpansion(reply), Summaries(titles, env.page)) == Some(answer)
    requires forall p: nat :: !MatchesAt(Strip(answer), IndexMarker, Digits, p)
    ensures Resolve(acronym, context, env).meaning == None
  {
    NoIndexWithoutDigits(answer);
  }

  /**
   * A meaning is only ever the first line of the summary of a page fetched
   * during the run.
   */
  lemma MeaningProvenance(acronym: string, context: string, env: Services, m: string)
    requires Resolve(acronym, context, env).meaning == Some(m)
    ensures IsSingleLine(m)
    ensures exists t, p :: FetchPage(t) in Resolve(acronym, context, env).calls &&
                           env.page(t) == Some(p) && m == FirstLine(p.summary)
  {
    var url := DefinitionsUrl + acronym;
    var doc := env.definitions(url).value;
    var found := FoundMeanings(acronym, doc);
    var expansion := ChosenExpansion(env.askExpansion(context, acronym, found).value);
    var titles := env.search(expansion).value;
    var entries := Summaries(titles, env.page);
    var k :| 0 <= k < |entries| && m == entries[k].summary;
    SummariesProvenance(titles, env.page, entries[k]);
    var i, p :| 0 <= i < |titles| && env.page(titles[i]) == Some(p) && entries[k] == Entry(p.title, FirstLine(p.summary));
    var calls := Resolve(acronym, context, env).calls;
    assert PageCalls(titles)[i] == FetchPage(titles[i]);
    assert FetchPage(titles[i]) in calls;
  }

  /**
   * When every step succeeds and the second reply is in the requested format,
   * `INDEX: n` picks the n-th entry, counting from 1; `INDEX: 0` picks the last
   * one; a number past the end gives no meaning.
   */
  lemma IndexSelectsEntry(acronym: string, context: string, env: Services, doc: Document, reply: string,
                          titles: seq<string>, sep: string, n: nat)
    requires env.definitions(DefinitionsUrl + acronym) == Some(doc)
    requires FoundMeanings(acronym, doc) != []
    requires env.askExpansion(context, acronym, FoundMeanings(acronym, doc)) == Some(reply)
    requires env.search(ChosenExpansion(reply)) == Some(titles)
    requires Summaries(titles, env.page) != []
    requires env.askIndex(acronym, ChosenExpansion(reply), Summaries(titles, env.page)) == Some(IndexMarker + sep + DecimalString(n))
    requires AllSpace(sep)
    ensures var entries, meaning := Summaries(titles, env.page), Resolve(acronym, context, env).meaning;
      var fits := |DecimalString(n)| <= MaxIntDigits;
      (fits && 1 <= n <= |entries| ==> meaning == Some(entries[n - 1].summary)) &&
      (fits && n == 0 ==> meaning == Some(entries[|entries| - 1].summary)) &&
      (!fits || n > |entries| ==> meaning == None)
  {
    IndexRoundTrip(sep, n);
  }
}
