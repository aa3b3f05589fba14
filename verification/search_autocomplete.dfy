/** The search box: a query over a fixed list of documentation pages, a
    dropdown that opens for a non-blank query, and a selection moved by the
    arrow keys.  State updates made in one handler land together; the effect
    keyed on the query runs afterwards, and only when the query changed. */
module SearchAutocomplete {
  import opened Text
  import Seqs

  datatype SearchResult = SearchResult(title: string, path: string, excerpt: string)

  /** The static list of pages the box searches. */
  const IntroductionPage := SearchResult("FactChat Introduction", "/factchat/introduction", "Learn about FactChat platform and its key benefits")
  const ApiPage := SearchResult("FactChat API", "/factchat/api", "API documentation for FactChat integration")
  const AboutPage := SearchResult("About", "/about", "About this documentation")
  const AdvancedPage := SearchResult("Advanced Features", "/advanced", "Advanced configuration and features")
  const SatoriPage := SearchResult("Satori", "/advanced/satori", "Using Satori for image generation")
  const AnotherPage := SearchResult("Another Page", "/another", "Additional documentation content")

  const DocumentationPages: seq<SearchResult> :=
    [IntroductionPage, ApiPage, AboutPage, AdvancedPage, SatoriPage, AnotherPage]

  /** The text every matching path must contain. */
  const PathMarker: string := "nonexistent-path"

  /** The filter's test: the lower-cased title contains the lower-cased query
      and the lower-cased path contains the marker. */
  predicate Matches(page: SearchResult, query: string) {
    Contains(Lower(page.title), Lower(query)) && Contains(Lower(page.path), PathMarker)
  }

  /** `pages.filter(...)`: exactly the matching pages; `FilterConcat` says
      they stay in list order. */
  function FilterPages(pages: seq<SearchResult>, query: string): (r: seq<SearchResult>)
    ensures |r| <= |pages|
    ensures forall k :: 0 <= k < |r| ==> Matches(r[k], query) && r[k] in pages
    ensures forall k :: 0 <= k < |pages| && Matches(pages[k], query) ==> pages[k] in r
  {
    Seqs.Filter(pages, p => Matches(p, query))
  }

  /** When no page matches, the filter keeps nothing. */
  lemma FilterNothing(pages: seq<SearchResult>, query: string)
    requires forall k :: 0 <= k < |pages| ==> !Matches(pages[k], query)
    ensures FilterPages(pages, query) == []
  {
    Seqs.FilterNone(pages, p => Matches(p, query));
  }

  /** The filter works page by page: filtering a concatenation is the
      concatenation of the filtered parts, and one page is kept exactly when
      it matches.  Together these say the result keeps list order. */
  lemma FilterConcat(a: seq<SearchResult>, b: seq<SearchResult>, query: string)
    ensures FilterPages(a + b, query) == FilterPages(a, query) + FilterPages(b, query)
    ensures forall p :: FilterPages([p], query) == if Matches(p, query) then [p] else []
  {
    Seqs.FilterConcat(a, b, p => Matches(p, query));
    forall page ensures FilterPages([page], query) == if Matches(page, query) then [page] else [] {
      Seqs.FilterSingle(page, p => Matches(p, query));
    }
  }

  /** No letter x in either case (code points 0x78 and 0x58). */
  predicate FreeOfX(s: string) {
    forall i :: 0 <= i < |s| ==> s[i] as int != 0x78 && s[i] as int != 0x58
  }

  /** A path without the letter x in either case can never contain the marker. */
  lemma {:induction false} MarkerNeedsAnX(path: string)
    requires FreeOfX(path)
    ensures !Contains(Lower(path), PathMarker)
  {
    if Contains(Lower(path), PathMarker) {
      assert PathMarker[4] == 'x';
      ContainsChar(Lower(path), PathMarker, 'x');
      LowerChars(path, 'x');
      assert false;
    }
  }

  // One lemma per page keeps each character check small for the solver.
  lemma IntroductionPathFreeOfX() ensures FreeOfX(IntroductionPage.path) {}
  lemma ApiPathFreeOfX() ensures FreeOfX(ApiPage.path) {}
  lemma AboutPathFreeOfX() ensures FreeOfX(AboutPage.path) {}
  lemma AdvancedPathFreeOfX() ensures FreeOfX(AdvancedPage.path) {}
  lemma SatoriPathFreeOfX() ensures FreeOfX(SatoriPage.path) {}
  lemma AnotherPathFreeOfX() ensures FreeOfX(AnotherPage.path) {}

  /** No documentation path holds an x. */
  lemma PathsFreeOfX()
    ensures forall p :: p in DocumentationPages ==> FreeOfX(p.path)
  {
    IntroductionPathFreeOfX();
    ApiPathFreeOfX();
    AboutPathFreeOfX();
    AdvancedPathFreeOfX();
    SatoriPathFreeOfX();
    AnotherPathFreeOfX();
  }

  /** No documentation page passes the filter, whatever the query: the search
      never returns a result. */
  lemma {:induction false} SearchAlwaysEmpty(query: string)
    ensures FilterPages(DocumentationPages, query) == []
  {
    PathsFreeOfX();
    forall k | 0 <= k < |DocumentationPages|
      ensures !Matches(DocumentationPages[k], query)
    {
      MarkerNeedsAnX(DocumentationPages[k].path);
    }
    FilterNothing(DocumentationPages, query);
  }

  datatype SearchState = SearchState(query: string, results: seq<SearchResult>, isOpen: bool, selectedIndex: int)

  const Initial: SearchState := SearchState("", [], false, -1)

  /** The effect that runs after the query changed: a blank query clears the
      results and closes the dropdown; any other query filters the pages and
      opens it, even when nothing matched. */
  function QueryEffect(s: SearchState): (r: SearchState)
    ensures r.query == s.query && r.selectedIndex == s.selectedIndex
    ensures Trim(s.query) == [] ==> r.results == [] && !r.isOpen
    ensures Trim(s.query) != [] ==> r.isOpen && r.results == FilterPages(DocumentationPages, s.query)
  {
    if |Trim(s.query)| > 0 then s.(results := FilterPages(DocumentationPages, s.query), isOpen := true)
    else s.(results := [], isOpen := false)
  }

  /** The new query lands in the state; the effect runs only if it differs
      from the previous one. */
  function Commit(before: SearchState, after: SearchState): SearchState {
    if after.query != before.query then QueryEffect(after) else after
  }

  /** Typing into the input. */
  function SetQuery(s: SearchState, text: string): (r: SearchState)
    ensures r.query == text && r.selectedIndex == s.selectedIndex
    ensures text == s.query ==> r == s
    ensures text != s.query ==> r == QueryEffect(s.(query := text))
  {
    Commit(s, s.(query := text))
  }

  /** Choosing a result: the query is cleared, the dropdown closed and the
      selection reset; there is no navigation. */
  function ResultClick(s: SearchState): (r: SearchState)
    ensures r.query == [] && !r.isOpen && r.selectedIndex == -1
    ensures s.query != [] ==> r.results == []
    ensures s.query == [] ==> r.results == s.results
  {
    Commit(s, s.(query := [], isOpen := false, selectedIndex := -1))
  }

  datatype Key = ArrowDown | ArrowUp | Enter | Escape | OtherKey

  /** The arrow keys' moves on their own. */
  function MoveDown(sel: int, count: nat): int {
    if sel < count - 1 then sel + 1 else sel
  }

  function MoveUp(sel: int): int {
    if sel > 0 then sel - 1 else -1
  }

  /** A selection inside `[-1, count - 1]`: nothing selected, or a result. */
  predicate InRange(sel: int, count: nat) {
    -1 <= sel <= count - 1
  }

  /** A key press in the input.  With the dropdown closed or no results
      nothing happens.  The arrows move the selection within `[-1, len-1]`;
      Enter on a selected result acts as clicking it; Escape only closes.
      Enter with a selection past the results would throw on the missing
      element, which leaves the state as it was. */
  function KeyDown(s: SearchState, key: Key): (r: SearchState)
    ensures !s.isOpen || |s.results| == 0 ==> r == s
    ensures InRange(s.selectedIndex, |s.results|) ==> InRange(r.selectedIndex, |r.results|)
    ensures s.isOpen && |s.results| > 0 && key == Escape ==> r == s.(isOpen := false)
    ensures key == Enter && 0 <= s.selectedIndex < |s.results| && s.isOpen
            ==> r == ResultClick(s)
    ensures key == ArrowDown || key == ArrowUp ==> r == s.(selectedIndex := r.selectedIndex)
  {
    if !s.isOpen || |s.results| == 0 then s
    else
      match key
      case ArrowDown => s.(selectedIndex := MoveDown(s.selectedIndex, |s.results|))
      case ArrowUp => s.(selectedIndex := MoveUp(s.selectedIndex))
      case Enter =>
        if s.selectedIndex >= 0 then
          if s.selectedIndex < |s.results| then ResultClick(s) else s
        else s
      case Escape => s.(isOpen := false)
      case OtherKey => s
  }

  /** ArrowDown never leaves the results and stops at the last one; ArrowUp
      stops at "nothing selected". */
  lemma ArrowBounds(s: SearchState)
    requires s.isOpen && |s.results| > 0 && InRange(s.selectedIndex, |s.results|)
    ensures var d := KeyDown(s, ArrowDown).selectedIndex;
            d == (if s.selectedIndex == |s.results| - 1 then s.selectedIndex else s.selectedIndex + 1)
    ensures var u := KeyDown(s, ArrowUp).selectedIndex;
            u == (if s.selectedIndex == -1 then -1 else s.selectedIndex - 1)
  {
  }

  /** Up undoes Down and Down undoes Up, away from the ends of the list. */
  lemma {:induction false} ArrowsUndo(s: SearchState)
    requires s.isOpen && |s.results| > 0
    ensures -1 <= s.selectedIndex < |s.results| - 1
            ==> KeyDown(KeyDown(s, ArrowDown), ArrowUp) == s
    ensures 0 <= s.selectedIndex <= |s.results| - 1
            ==> KeyDown(KeyDown(s, ArrowUp), ArrowDown) == s
  {
  }

  datatype Event =
    | TypeQuery(text: string)
    | PressKey(key: Key)
    | ClickResultAt(index: nat)
    | HoverResultAt(index: nat)
    | FocusInput
    | ClickOutside
    | ClearClick

  /** One user interaction.  A result can only be clicked or hovered while the
      dropdown lists it, and the clear button only exists while the query is
      non-empty. */
  function Step(s: SearchState, e: Event): (r: SearchState)
    ensures e.ClickOutside? ==> r == s.(isOpen := false)
    ensures e.FocusInput? ==> r == s.(isOpen := s.isOpen || Trim(s.query) != [])
    ensures e.ClearClick? && s.query != [] ==> r.query == [] && r.results == [] && !r.isOpen
    ensures e.ClearClick? && s.query == [] ==> r == s
  {
    match e
    case TypeQuery(text) => SetQuery(s, text)
    case PressKey(key) => KeyDown(s, key)
    case ClickResultAt(i) => if s.isOpen && i < |s.results| then ResultClick(s) else s
    case HoverResultAt(i) => if s.isOpen && i < |s.results| then s.(selectedIndex := i) else s
    case FocusInput => if |Trim(s.query)| > 0 then s.(isOpen := true) else s
    case ClickOutside => s.(isOpen := false)
    case ClearClick => if s.query != [] then Commit(s, s.(query := [], isOpen := false)) else s
  }

  /** What holds in every state the box can reach: no results, no selection,
      and an open dropdown only for a non-blank query. */
  predicate Reachable(s: SearchState) {
    s.results == [] && s.selectedIndex == -1 && (s.isOpen ==> Trim(s.query) != [])
  }

  /** Every interaction keeps the box in a reachable state, so the dropdown
      only ever shows "no results" and the keys never select anything. */
  lemma StepKeepsReachable(s: SearchState, e: Event)
    requires Reachable(s)
    ensures Reachable(Step(s, e))
  {
    match e
    case TypeQuery(text) =>
      SearchAlwaysEmpty(text);
    case ClearClick =>
    case _ =>
  }

  lemma InitialReachable()
    ensures Reachable(Initial)
  {
  }

  /** Over any sequence of interactions from the initial state, no result is
      ever listed or selected. */
  function Run(s: SearchState, events: seq<Event>): SearchState
    decreases |events|
  {
    if |events| == 0 then s else Run(Step(s, events[0]), events[1..])
  }

  lemma {:induction false} RunKeepsReachable(s: SearchState, events: seq<Event>)
    requires Reachable(s)
    ensures Reachable(Run(s, events))
    ensures Run(s, events).results == [] && Run(s, events).selectedIndex == -1
    decreases |events|
  {
    if |events| > 0 {
      StepKeepsReachable(s, events[0]);
      RunKeepsReachable(Step(s, events[0]), events[1..]);
    }
  }
}
