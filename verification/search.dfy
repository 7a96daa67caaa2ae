/** The history search box: matching history entries ranked and cut to
    eight, the open/closed state and the highlighted index driven by the
    keyboard, and typed input turned into an address or a web search. */
module Search {
  import opened Seqs
  import opened Text
  import Elapsed

  /** A browsing-history entry; `lastVisit` is in milliseconds. */
  datatype HistoryItem = HistoryItem(title: string, url: string, visitCount: int, lastVisit: int)

  const MaxResults: nat := 8

  /** The lower-cased query occurs in the lower-cased title or address. */
  predicate MatchesQuery(item: HistoryItem, query: string) {
    ContainsIgnoringCase(item.title, query) || ContainsIgnoringCase(item.url, query)
  }

  function MatchesBy(query: string): HistoryItem -> bool {
    item => MatchesQuery(item, query)
  }

  /** The title begins with the query, ignoring case. */
  predicate TitleStarts(item: HistoryItem, query: string) {
    StartsWithIgnoringCase(item.title, query)
  }

  /** The comparator's order: titles that begin with the query first, then
      more visits first, then the more recent visit first. */
  predicate RanksBefore(query: string, a: HistoryItem, b: HistoryItem) {
    if TitleStarts(a, query) != TitleStarts(b, query) then TitleStarts(a, query)
    else if a.visitCount != b.visitCount then a.visitCount > b.visitCount
    else a.lastVisit >= b.lastVisit
  }

  function ByRank(query: string): (HistoryItem, HistoryItem) -> bool {
    (a, b) => RanksBefore(query, a, b)
  }

  lemma ByRankIsTotalPreorder(query: string)
    ensures TotalPreorder(ByRank(query))
  {
  }

  /** The entries the query matches, in history order. */
  function Matching(history: seq<HistoryItem>, query: string): (r: seq<HistoryItem>)
    ensures forall x :: x in r <==> x in history && MatchesQuery(x, query)
  {
    Filter(history, MatchesBy(query))
  }

  /** The query effect's result list: nothing for a blank query; otherwise
      the matching entries, best ranked first, at most eight. A matching
      entry is left out only when eight entries ranked at least as high
      were kept. */
  function SearchResults(history: seq<HistoryItem>, query: string): (r: seq<HistoryItem>)
    ensures IsBlank(query) ==> r == []
    ensures |r| <= MaxResults
    ensures forall x :: x in r ==> x in history && MatchesQuery(x, query)
    ensures forall i, j :: 0 <= i < j < |r| ==> RanksBefore(query, r[i], r[j])
    ensures !IsBlank(query) ==> |r| == if |Matching(history, query)| < MaxResults then |Matching(history, query)| else MaxResults
    ensures !IsBlank(query) ==> forall x :: x in history && MatchesQuery(x, query) && x !in r ==>
      |r| == MaxResults && forall y :: y in r ==> RanksBefore(query, y, x)
    ensures forall y :: Filter(r, Tie(ByRank(query), y)) <= Filter(Matching(history, query), Tie(ByRank(query), y))
  {
    if IsBlank(query) then []
    else
      ByRankIsTotalPreorder(query);
      var sorted := SortBy(Matching(history, query), ByRank(query));
      forall y ensures Filter(Take(sorted, MaxResults), Tie(ByRank(query), y)) <= Filter(Matching(history, query), Tie(ByRank(query), y)) {
        FilterTakePrefix(sorted, MaxResults, Tie(ByRank(query), y));
      }
      ResultsRanked(sorted, query);
      ResultsMatch(history, query, sorted);
      ResultsAreTop(history, query, sorted);
      Take(sorted, MaxResults)
  }

  lemma ResultsRanked(sorted: seq<HistoryItem>, query: string)
    requires SortedBy(sorted, ByRank(query))
    ensures forall i, j :: 0 <= i < j < |Take(sorted, MaxResults)| ==>
      RanksBefore(query, Take(sorted, MaxResults)[i], Take(sorted, MaxResults)[j])
  {
    var r := Take(sorted, MaxResults);
    forall i, j | 0 <= i < j < |r| ensures RanksBefore(query, r[i], r[j]) {
      assert ByRank(query)(sorted[i], sorted[j]);
    }
  }

  lemma ResultsMatch(history: seq<HistoryItem>, query: string, sorted: seq<HistoryItem>)
    requires multiset(sorted) == multiset(Matching(history, query))
    ensures forall x :: x in Take(sorted, MaxResults) ==> x in history && MatchesQuery(x, query)
  {
    forall x | x in Take(sorted, MaxResults) ensures x in history && MatchesQuery(x, query) {
      assert x in sorted;
      assert x in multiset(Matching(history, query));
    }
  }

  lemma ResultsAreTop(history: seq<HistoryItem>, query: string, sorted: seq<HistoryItem>)
    requires multiset(sorted) == multiset(Matching(history, query))
    requires SortedBy(sorted, ByRank(query))
    ensures forall x :: x in history && MatchesQuery(x, query) && x !in Take(sorted, MaxResults) ==>
      |Take(sorted, MaxResults)| == MaxResults && forall y :: y in Take(sorted, MaxResults) ==> RanksBefore(query, y, x)
  {
    forall x | x in history && MatchesQuery(x, query) && x !in Take(sorted, MaxResults)
      ensures |Take(sorted, MaxResults)| == MaxResults && forall y :: y in Take(sorted, MaxResults) ==> RanksBefore(query, y, x)
    {
      assert x in multiset(sorted);
      TakeOfSortedIsTop(sorted, MaxResults, ByRank(query), x);
    }
  }

  /** Titles that begin with the query come before those that do not. */
  lemma TitleMatchesFirst(history: seq<HistoryItem>, query: string, i: nat, j: nat)
    requires i < j < |SearchResults(history, query)|
    requires TitleStarts(SearchResults(history, query)[j], query)
    ensures TitleStarts(SearchResults(history, query)[i], query)
  {
    var r := SearchResults(history, query);
    assert RanksBefore(query, r[i], r[j]);
  }

  // ---------------------------------------------------------------------
  // Search box state.

  datatype SearchState = SearchState(query: string, isOpen: bool, results: seq<HistoryItem>, selectedIndex: int)

  /** The state every way of leaving the box returns to. */
  const Closed: SearchState := SearchState("", false, [], -1)

  /** The effect that runs when the query changes: a blank query empties
      the results (the highlighted index is left as it was); any other
      query recomputes them and clears the highlight. */
  function QueryEffect(st: SearchState, history: seq<HistoryItem>): (r: SearchState)
    ensures r.query == st.query && r.isOpen == st.isOpen
    ensures IsBlank(st.query) ==> r.results == [] && r.selectedIndex == st.selectedIndex
    ensures !IsBlank(st.query) ==> r.results == SearchResults(history, st.query) && r.selectedIndex == -1
  {
    if IsBlank(st.query) then st.(results := [])
    else st.(results := SearchResults(history, st.query), selectedIndex := -1)
  }

  /** The highlighted index is a result, or -1 for none. */
  predicate IndexInRange(st: SearchState) {
    -1 <= st.selectedIndex < |st.results|
  }

  /** After a non-blank query nothing is highlighted; after a blank one an
      old highlight outlives the results it pointed into. */
  lemma QueryEffectIndex(st: SearchState, history: seq<HistoryItem>)
    ensures !IsBlank(st.query) ==> IndexInRange(QueryEffect(st, history))
    ensures IsBlank(st.query) && st.selectedIndex >= 0 ==> !IndexInRange(QueryEffect(st, history))
  {
  }

  /** A key press: its name and whether Ctrl or Meta was held. */
  datatype Key = Key(name: string, ctrl: bool, meta: bool)

  /** The state after a key press, and the address opened in a new tab, if any. */
  datatype Outcome = Outcome(state: SearchState, tab: Option<string>)

  function MinInt(a: int, b: int): int {
    if a <= b then a else b
  }

  function MaxInt(a: int, b: int): int {
    if a <= b then b else a
  }

  const SearchPrefix: string := "https://www.google.com/search?q="

  /** The input has a dot and no space, so it is taken for an address. */
  predicate LooksLikeAddress(input: string) {
    '.' in input && ' ' !in input
  }

  predicate HasScheme(url: string) {
    StartsWith(url, "http://") || StartsWith(url, "https://")
  }

  /** `handleDirectNavigation`'s target: an address gains `https://` unless
      it already has a scheme; anything else becomes a web search for the
      encoded input (`encode` stands for `encodeURIComponent`). */
  function NavigationUrl(input: string, encode: string -> string): (url: string)
    ensures LooksLikeAddress(input) ==> HasScheme(url) && url == (if HasScheme(input) then "" else "https://") + input
    ensures !LooksLikeAddress(input) ==> url == SearchPrefix + encode(input)
  {
    if LooksLikeAddress(input) then
      if HasScheme(input) then input else "https://" + input
    else SearchPrefix + encode(input)
  }

  /** Navigating to the address navigation produced opens the same address. */
  lemma NavigationUrlIdempotent(input: string, encode: string -> string)
    requires LooksLikeAddress(input)
    ensures NavigationUrl(NavigationUrl(input, encode), encode) == NavigationUrl(input, encode)
  {
    var url := NavigationUrl(input, encode);
    if !HasScheme(input) {
      assert url == "https://" + input;
      assert forall i :: 0 <= i < |input| ==> url[8 + i] == input[i];
      assert '.' in url by {
        var k :| 0 <= k < |input| && input[k] == '.';
        assert url[8 + k] == '.';
      }
      assert ' ' !in url by {
        forall k | 0 <= k < |url| ensures url[k] != ' ' {
          if k >= 8 {
            assert url[k] == input[k - 8];
          }
        }
      }
    }
  }

  /** `handleDirectNavigation`: open the target and close the box. */
  function DirectNavigation(input: string, encode: string -> string): (o: Outcome)
    ensures o.state == Closed && o.tab == Some(NavigationUrl(input, encode))
  {
    Outcome(Closed, Some(NavigationUrl(input, encode)))
  }

  /** `handleResultClick`: open the entry and close the box. */
  function ResultClick(item: HistoryItem): (o: Outcome)
    ensures o.state == Closed && o.tab == Some(item.url)
  {
    Outcome(Closed, Some(item.url))
  }

  /** Enter: the highlighted result when there is one, else the trimmed
      query when it is not blank, else nothing. */
  function Enter(st: SearchState, encode: string -> string): (o: Outcome)
    ensures 0 <= st.selectedIndex < |st.results| ==> o == ResultClick(st.results[st.selectedIndex])
    ensures !(0 <= st.selectedIndex < |st.results|) && !IsBlank(st.query) ==>
      o == DirectNavigation(Trim(st.query), encode)
    ensures !(0 <= st.selectedIndex < |st.results|) && IsBlank(st.query) ==> o == Outcome(st, None)
  {
    if 0 <= st.selectedIndex < |st.results| then ResultClick(st.results[st.selectedIndex])
    else if Trim(st.query) != "" then DirectNavigation(Trim(st.query), encode)
    else Outcome(st, None)
  }

  /** `handleKeyDown`: Ctrl/Meta-K opens a closed box; a closed box ignores
      every other key; Escape closes; the arrows move the highlight within
      -1 .. results - 1; Enter opens. */
  function HandleKey(st: SearchState, key: Key, encode: string -> string): (o: Outcome)
    ensures !st.isOpen && (key.ctrl || key.meta) && key.name == "k" ==> o == Outcome(st.(isOpen := true), None)
    ensures !st.isOpen && !((key.ctrl || key.meta) && key.name == "k") ==> o == Outcome(st, None)
    ensures st.isOpen && key.name == "Escape" ==> o == Outcome(Closed, None)
    ensures st.isOpen && key.name == "Enter" ==> o == Enter(st, encode)
    ensures st.isOpen && key.name !in {"Escape", "ArrowDown", "ArrowUp", "Enter"} ==> o == Outcome(st, None)
    ensures key.name in {"ArrowDown", "ArrowUp"} ==> o.tab == None && o.state.results == st.results
    ensures st.isOpen && key.name == "ArrowDown" ==>
      o.state == st.(selectedIndex := o.state.selectedIndex)
      && (st.selectedIndex < |st.results| - 1 ==> o.state.selectedIndex == st.selectedIndex + 1)
      && (st.selectedIndex >= |st.results| - 1 ==> o.state.selectedIndex == |st.results| - 1)
    ensures st.isOpen && key.name == "ArrowUp" ==>
      o.state == st.(selectedIndex := o.state.selectedIndex)
      && (st.selectedIndex > -1 ==> o.state.selectedIndex == st.selectedIndex - 1)
      && (st.selectedIndex <= -1 ==> o.state.selectedIndex == -1)
  {
    if !st.isOpen && (key.ctrl || key.meta) && key.name == "k" then Outcome(st.(isOpen := true), None)
    else if !st.isOpen then Outcome(st, None)
    else if key.name == "Escape" then Outcome(Closed, None)
    else if key.name == "ArrowDown" then
      Outcome(st.(selectedIndex := MinInt(st.selectedIndex + 1, |st.results| - 1)), None)
    else if key.name == "ArrowUp" then
      Outcome(st.(selectedIndex := MaxInt(st.selectedIndex - 1, -1)), None)
    else if key.name == "Enter" then Enter(st, encode)
    else Outcome(st, None)
  }

  /** Every key keeps the highlight within -1 .. results - 1 when it
      starts there, including with no results. */
  lemma KeysKeepIndexInRange(st: SearchState, key: Key, encode: string -> string)
    requires IndexInRange(st)
    ensures IndexInRange(HandleKey(st, key, encode).state)
  {
  }

  /** ArrowDown brings a stale highlight back into range. */
  lemma ArrowDownRestoresRange(st: SearchState, encode: string -> string)
    requires st.isOpen && st.selectedIndex >= -2
    ensures IndexInRange(HandleKey(st, Key("ArrowDown", false, false), encode).state)
  {
  }

  /** With no results and a blank query, Enter does nothing, whatever the
      highlighted index. */
  lemma EnterOnBlankDoesNothing(st: SearchState, encode: string -> string)
    requires st.isOpen && st.results == [] && IsBlank(st.query)
    ensures HandleKey(st, Key("Enter", false, false), encode) == Outcome(st, None)
  {
  }

  /** Escape, a result click and direct navigation all leave the box closed
      and empty. */
  lemma ExitsReset(st: SearchState, item: HistoryItem, input: string, encode: string -> string)
    requires st.isOpen
    ensures HandleKey(st, Key("Escape", false, false), encode).state == Closed
    ensures ResultClick(item).state == Closed && DirectNavigation(input, encode).state == Closed
    ensures Closed.query == "" && !Closed.isOpen && Closed.results == [] && Closed.selectedIndex == -1
  {
  }

  /** `formatTimeAgo`: minutes under an hour, hours under a day, else days,
      each the floor of the elapsed milliseconds over the unit. */
  function FormatTimeAgo(now: int, date: int): (l: Elapsed.Label)
    ensures l.MinutesAgo? <==> now - date < Elapsed.HourMs
    ensures l.HoursAgo? <==> Elapsed.HourMs <= now - date < Elapsed.DayMs
    ensures l.DaysAgo? <==> Elapsed.DayMs <= now - date
    ensures l.MinutesAgo? ==> l.minutes * Elapsed.MinuteMs <= now - date < (l.minutes + 1) * Elapsed.MinuteMs
    ensures l.HoursAgo? ==> l.hours * Elapsed.HourMs <= now - date < (l.hours + 1) * Elapsed.HourMs
    ensures l.DaysAgo? ==> l.days * Elapsed.DayMs <= now - date < (l.days + 1) * Elapsed.DayMs
  {
    Elapsed.Relative(now - date)
  }
}
