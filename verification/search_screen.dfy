/** The search screen (screens/SearchScreen.js): submitting the search box,
    pressing a recent-search chip, and which sections are on screen.

    The search box text, `hasSearched` and the results belong to the parent
    and reach the screen as properties; `isSearching` is the screen's own.
    A search is modelled as two steps, the synchronous start and the moment
    the service answers, and as their composition for a whole search. */
module SearchScreen {
  import opened Common
  import opened Text
  import opened Catalog

  /** What the screen works with. `added` lists, oldest first, the terms
      handed to the `onAddSearch` callback. */
  datatype State = State(
    searchText: string,
    hasSearched: bool,
    isSearching: bool,
    results: seq<Book>,
    added: seq<string>)

  /** A submission: the state afterwards and the request sent, if any. */
  datatype Submitted = Submitted(state: State, request: Option<Request>)

  /** The guard of a submission: the text is not empty once trimmed. */
  predicate NonBlank(text: string)
  {
    Trim(text) != []
  }

  /** The synchronous start of a search for `term`: the term goes to
      `onAddSearch` when that callback is given, and the screen switches to
      the searched and searching mode. */
  function StartSearch(s: State, term: string, hasAddCallback: bool): (r: State)
    ensures r.isSearching && r.hasSearched
    ensures r.searchText == s.searchText && r.results == s.results
    ensures hasAddCallback ==> |r.added| == |s.added| + 1 && r.added[|s.added|] == term
    ensures !hasAddCallback ==> r.added == s.added
    ensures s.added <= r.added
  {
    s.(isSearching := true, hasSearched := true,
       added := if hasAddCallback then s.added + [term] else s.added)
  }

  /** The service's answer arrives: its books on success, no books on an
      error, and the screen stops searching either way. */
  function FinishSearch(s: State, outcome: Result<seq<Book>, ApiError>): (r: State)
    ensures !r.isSearching
    ensures outcome.Failure? ==> r.results == []
    ensures outcome.Success? ==> r.results == outcome.value
    ensures r.searchText == s.searchText && r.hasSearched == s.hasSearched && r.added == s.added
  {
    s.(isSearching := false,
       results := match outcome case Success(books) => books case Failure(_) => [])
  }

  /** The request the screen sends for `term`: a keyword search for the
      default number of results. */
  function KeywordSearch(term: string): (q: Request)
    ensures q.ItemSearch? && q.query == term && q.queryType == DefaultQueryType
    ensures q.maxResults == 2 * DefaultSearchCount
  {
    SearchRequest(term, DefaultQueryType, DefaultSearchCount)
  }

  /** Submitting the search box, `response` being what the service sends
      back for the request. Blank text is ignored altogether; otherwise the
      untrimmed text is recorded and searched for. */
  function HandleSearch(s: State, hasAddCallback: bool, response: Response): (r: Submitted)
    ensures !NonBlank(s.searchText) ==> r == Submitted(s, None)
    ensures NonBlank(s.searchText) ==>
              r.request == Some(KeywordSearch(s.searchText))
              && r.state == FinishSearch(StartSearch(s, s.searchText, hasAddCallback),
                                         SearchBooks(DefaultSearchCount, response))
  {
    if NonBlank(s.searchText) then
      Submitted(FinishSearch(StartSearch(s, s.searchText, hasAddCallback),
                             SearchBooks(DefaultSearchCount, response)),
                Some(KeywordSearch(s.searchText)))
    else
      Submitted(s, None)
  }

  /** Pressing a recent-search chip: the box takes the term, which is
      recorded and searched for without any blank check. */
  function HandleChipPress(s: State, term: string, hasAddCallback: bool, response: Response): (r: Submitted)
    ensures r.request == Some(KeywordSearch(term))
    ensures r.state == FinishSearch(StartSearch(s.(searchText := term), term, hasAddCallback),
                                    SearchBooks(DefaultSearchCount, response))
    ensures r.state.searchText == term
    ensures r.state.hasSearched && !r.state.isSearching
    ensures hasAddCallback ==> r.state.added == s.added + [term]
    ensures !hasAddCallback ==> r.state.added == s.added
    ensures !response.ok || response.items.None? ==> r.state.results == []
    ensures response.ok && response.items.Some? ==>
              r.state.results == ToBooks(SearchKept(response.items.value, DefaultSearchCount))
  {
    Submitted(FinishSearch(StartSearch(s.(searchText := term), term, hasAddCallback),
                           SearchBooks(DefaultSearchCount, response)),
              Some(KeywordSearch(term)))
  }

  /** A submission is ignored exactly when the box holds only white space. */
  lemma BlankSubmitIgnored(s: State, hasAddCallback: bool, response: Response)
    ensures HandleSearch(s, hasAddCallback, response).request.None? <==> AllSpace(s.searchText)
    ensures AllSpace(s.searchText) ==> HandleSearch(s, hasAddCallback, response).state == s
  {
  }

  /** A submitted search hands the text, as typed, to `onAddSearch` and
      leaves the screen in the searched mode, not searching. */
  lemma SubmitRecordsText(s: State, response: Response)
    requires NonBlank(s.searchText)
    ensures var r := HandleSearch(s, true, response).state;
              r.added == s.added + [s.searchText] && r.hasSearched && !r.isSearching
              && r.searchText == s.searchText
  {
  }

  /** The results a search leaves on screen: the service's books when it
      answers, otherwise none; at most the default count, each outside
      the excluded categories. */
  lemma SubmitResults(s: State, hasAddCallback: bool, response: Response)
    requires NonBlank(s.searchText)
    ensures var r := HandleSearch(s, hasAddCallback, response).state;
              (!response.ok || response.items.None? ==> r.results == [])
              && |r.results| <= DefaultSearchCount
              && (response.ok && response.items.Some? ==>
                    var kept := SearchKept(response.items.value, DefaultSearchCount);
                    r.results == ToBooks(kept)
                    && forall k :: 0 <= k < |kept| ==> !Excluded(kept[k]))
  {
    if response.ok && response.items.Some? {
      SearchResultsShape(DefaultSearchCount, response);
    }
  }

  /** A chip whose term is blank is still searched for. */
  lemma ChipSearchesBlankTerm(s: State, term: string, response: Response)
    requires AllSpace(term)
    ensures HandleChipPress(s, term, true, response).request.Some?
    ensures HandleChipPress(s, term, true, response).state.added == s.added + [term]
    ensures HandleSearch(s.(searchText := term), true, response).request.None?
  {
  }

  // ---------------------------------------------------------------------
  // Sections on screen
  // ---------------------------------------------------------------------

  predicate ShowLoading(s: State)
  {
    s.isSearching
  }

  predicate ShowResults(s: State)
  {
    s.hasSearched && !s.isSearching && |s.results| > 0
  }

  predicate ShowNoResults(s: State)
  {
    s.hasSearched && !s.isSearching && |s.results| == 0
  }

  predicate ShowRecentSearches(s: State, recentSearches: seq<string>)
  {
    !s.hasSearched && |recentSearches| > 0
  }

  predicate ShowRecentBooks(s: State, recentBooks: seq<Book>)
  {
    !s.hasSearched && |recentBooks| > 0
  }

  /** The centred layout of the scroll content. */
  predicate Centered(s: State)
  {
    s.hasSearched && |s.results| == 0
  }

  /** The results and the no-results message never show together, nor
      while a search runs; after a search exactly one of them shows; and
      the recent lists only show before any search. */
  lemma SectionsExclusive(s: State, recentSearches: seq<string>, recentBooks: seq<Book>)
    ensures !(ShowResults(s) && ShowNoResults(s))
    ensures ShowLoading(s) ==> !ShowResults(s) && !ShowNoResults(s)
    ensures s.hasSearched && !s.isSearching ==> ShowResults(s) != ShowNoResults(s)
    ensures ShowRecentSearches(s, recentSearches) || ShowRecentBooks(s, recentBooks)
            ==> !ShowResults(s) && !ShowNoResults(s)
    ensures ShowNoResults(s) ==> Centered(s)
  {
  }

  /** While the service has not answered only the loading indicator shows;
      once it has, the results or the no-results message shows. */
  lemma SearchSections(s: State, term: string, hasAddCallback: bool, response: Response,
                       recentSearches: seq<string>, recentBooks: seq<Book>)
    ensures var started := StartSearch(s, term, hasAddCallback);
              ShowLoading(started) && !ShowResults(started) && !ShowNoResults(started)
              && !ShowRecentSearches(started, recentSearches) && !ShowRecentBooks(started, recentBooks)
    ensures var done := FinishSearch(StartSearch(s, term, hasAddCallback),
                                     SearchBooks(DefaultSearchCount, response));
              !ShowLoading(done) && (ShowResults(done) <==> |done.results| > 0)
              && (ShowNoResults(done) <==> |done.results| == 0)
  {
  }

  // ---------------------------------------------------------------------
  // Result grid
  // ---------------------------------------------------------------------

  /** The result card at `index` ends its row of three. */
  predicate RowLast(index: nat)
  {
    (index + 1) % 3 == 0
  }

  /** The cards that end a row are those in the third column. */
  lemma RowLastThirdColumn(index: nat)
    ensures RowLast(index) <==> index % 3 == 2
  {
  }

  /** The number of row-ending cards among the first `n`. */
  function RowEnds(n: nat): (c: nat)
    ensures c <= n
  {
    if n == 0 then 0 else RowEnds(n - 1) + (if RowLast(n - 1) then 1 else 0)
  }

  /** A grid of `n` cards has one row-ending card per full row. */
  lemma {:induction false} RowEndsAreFullRows(n: nat)
    ensures RowEnds(n) == n / 3
  {
    if n > 0 {
      RowEndsAreFullRows(n - 1);
    }
  }
}
