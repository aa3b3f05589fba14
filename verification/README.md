# Docs-theme widgets: a Dafny model

This project models the interactive components of a Nextra documentation
theme:

- **page feedback**: the "Was this page helpful?" widget. It is a four-state
  machine (`idle`, `positive`, `negative`, `submitted`) over the current page
  and a comment field. Each vote appends an event to the
  `page-feedback-analytics` log in local storage. A submission writes the
  page's record under `feedback-<pathname>`, and "Change feedback" deletes it.
- **feedback analytics**: the dashboard. It aggregates the log into one row
  per page, holding the positive, negative and total counts and a satisfaction
  percentage. Rows are sorted by total, descending. The dashboard also shows
  the ten newest events, colours satisfaction in four bands, and clears the log
  after confirmation.
- **API playground**: parses the free-text header field into a header object.
  It generates the curl and Python samples and prepares the request that the
  send button issues.
- **search autocomplete**: the search box's query, dropdown and keyboard
  selection over a fixed list of six pages.
- **TOC sidebar**: extracts `h2`/`h3`/`h4` headings and generates slug ids
  for headings that have none. It also covers the click handler, the collapse
  toggle, the indented list and the reading-progress bar.

Browser storage is a `map` from key to the structured value that the stored
JSON parses to (`Storage`). Every component is a datatype of its hook state
plus pure transition functions. Clock readings, the user-agent string, the
confirmation prompt's answer, whether code runs in a browser, and the page's
heading elements are all parameters.

The files are `optional.dfy` (the `Option` type), `seqs.dfy` (JavaScript's
`filter` over any element type) and `text.dfy` (JavaScript string operations:
`trim`, `split`, `join`, `includes`, `replace`, `toLowerCase`). Each component has one file of its own: `storage.dfy`,
`feedback_analytics.dfy`, `page_feedback.dfy`, `api_playground.dfy`,
`search_autocomplete.dfy` and `toc_sidebar.dfy`.

Behaviour of the code worth knowing:

- **Storage keys.** Records live under `feedback-<pathname>` and the log under
  `page-feedback-analytics`.
- **Row order.** Rows with equal totals have no tie-breaker by pathname. The
  stable sort keeps them in the order their pages first received a vote
  (`FeedbackAnalytics.StatsTiesKeepFirstVoteOrder`).
- **Submission.** The code has no failure path of its own for the write: when
  storage accepts the record, the submission reaches `submitted`. A write
  that throws (a full quota, say) rejects the async handler before the state
  changes; the model's storage never fails (see "## Left out").
- **Search.** The filter also requires every path to contain
  `nonexistent-path`, so the search never returns a result
  (`SearchAutocomplete.SearchAlwaysEmpty`). As a consequence, the dropdown only
  ever shows "no results" and the arrow keys never select anything
  (`SearchAutocomplete.RunKeepsReachable`).
- **TOC highlighting.** The section observer's `setActiveId` call is commented
  out. The active TOC entry therefore changes only on clicks
  (`TocSidebar.ActiveOnlyFromClicks`).

## Model

| member | source | states |
|---|---|---|
| Seqs.Filter | components/api-playground.tsx:29 | `filter` keeps every element that passes the test, only those, and no more elements than the input has |
| Seqs.FilterConcat | components/search-autocomplete.tsx:31-37 | filtering a concatenation concatenates the filtered parts |
| Seqs.FilterSingle | components/search-autocomplete.tsx:31-37 | a single element is kept exactly when it passes |
| Seqs.FilterNone | components/search-autocomplete.tsx:31-37 | when no element passes, nothing is kept |
| Text.Trim | components/page-feedback.tsx:69 | `trim()` drops leading whitespace and keeps a prefix of the rest; the result neither starts nor ends with ECMAScript whitespace |
| Text.TrimTail | components/page-feedback.tsx:69 | everything after the trimmed slice is whitespace, so only whitespace is removed |
| Text.TrimBlank | components/api-playground.tsx:29 | a line trims to the empty (falsy) string exactly when it is all whitespace |
| Text.TrimIdempotent | components/page-feedback.tsx:69 | trimming a trimmed comment changes nothing |
| Text.IndexOf | components/api-playground.tsx:32 | the first occurrence of a character, or -1 exactly when it is absent |
| Text.Split | components/api-playground.tsx:29 | `split('\n')` yields at least one part, no part holds the separator, and joining the parts with it restores the text |
| Text.SplitJoin | components/api-playground.tsx:32-34 | splitting a join of separator-free parts gives the parts back |
| Text.SplitFirst | components/api-playground.tsx:32-34 | `[key, ...valueParts]`: the key is the text before the first colon and the value parts rejoin with ':' to exactly the text after it |
| Text.ReplaceChar | components/api-playground.tsx:49 | `replace(/\n/g, ' ')` keeps the length, changes only the replaced character, and leaves none of it |
| Text.LowerChar | components/search-autocomplete.tsx:32 | an ASCII capital maps to its small letter; every other character is kept |
| Text.Lower | components/search-autocomplete.tsx:32-35 | `toLowerCase` keeps the length, lowers each character and leaves no ASCII capital |
| Text.LowerIdentity | components/toc-sidebar.tsx:164 | lowering a text without capitals gives it back |
| Text.LowerChars | components/search-autocomplete.tsx:35 | each character of a lowered text is in the original, or its capital is |
| Storage.RecordKey | components/page-feedback.tsx:32 | a page's record key is `feedback-` followed by the pathname |
| Storage.RecordKeyIsNotLogKey | components/page-feedback.tsx:75 | no page's record key equals the log key |
| Storage.RecordKeyInjective | components/page-feedback.tsx:87 | two pages share a record key only when they are the same page |
| Storage.ReadLog | components/page-feedback.tsx:51-52 | an absent log reads as the empty log (`'[]'`); a log that reads at all is exactly the stored array; anything else is unusable as an array |
| FeedbackAnalytics.VotesPartition | components/feedback-analytics.tsx:47-51 | every entry for a page counts once, as positive or as negative |
| FeedbackAnalytics.AbsentPageCountsZero | components/feedback-analytics.tsx:42-52 | a page with no entry in the log has no votes |
| FeedbackAnalytics.FirstAppearances | components/feedback-analytics.tsx:43-45 | each pathname once, exactly those of the log |
| FeedbackAnalytics.IndexOfPage | components/feedback-analytics.tsx:43 | the position of a page in the tally, or -1 exactly when it has none |
| FeedbackAnalytics.Tally | components/feedback-analytics.tsx:40-52 | the reduction creates at most one counter per log entry, and at least one for a non-empty log |
| FeedbackAnalytics.TallyPages | components/feedback-analytics.tsx:40-52 | `pageMap` has one key per distinct page, in the order pages first appear in the log |
| FeedbackAnalytics.TallyCounts | components/feedback-analytics.tsx:47-51 | each page's counters equal its positive and its other entries in the log |
| FeedbackAnalytics.TallySum | components/feedback-analytics.tsx:42-52 | all the counters add up to the number of log entries |
| FeedbackAnalytics.Satisfaction | components/feedback-analytics.tsx:56 | between 0 and 100, 0 for no votes, otherwise exactly positive/total times 100 |
| FeedbackAnalytics.UnsortedStats | components/feedback-analytics.tsx:54-63 | one row per tally entry, in tally order |
| FeedbackAnalytics.InsertByTotal | components/feedback-analytics.tsx:64 | inserting into a list sorted by descending total keeps it sorted and adds exactly one row |
| FeedbackAnalytics.InsertGroups | components/feedback-analytics.tsx:64 | an inserted row goes to the end of its group of equal totals, and other groups are unchanged |
| FeedbackAnalytics.SortByTotal | components/feedback-analytics.tsx:64 | the sort gives a permutation in non-increasing total order |
| FeedbackAnalytics.SortStable | components/feedback-analytics.tsx:64 | rows with equal totals keep their input order |
| FeedbackAnalytics.SortSum | components/feedback-analytics.tsx:64 | sorting keeps the sum of totals |
| FeedbackAnalytics.SortUnique | components/feedback-analytics.tsx:64 | sorting keeps one row per page |
| FeedbackAnalytics.Recent | components/feedback-analytics.tsx:37 | the feed holds the last ten entries (or all), newest first |
| FeedbackAnalytics.RecentAfterAppend | components/feedback-analytics.tsx:37 | a new vote heads the feed and the older ones shift down by one |
| FeedbackAnalytics.Stats | components/feedback-analytics.tsx:40-64 | the table has one row per distinct page of the log, runs from the most voted page down, and its totals add up to the log length |
| FeedbackAnalytics.StatsCorrect | components/feedback-analytics.tsx:36-64 | the table is sorted by total, has exactly one row per page of the log, each row's counters and satisfaction agree with the log, and the totals sum to the log length |
| FeedbackAnalytics.StatsTiesKeepFirstVoteOrder | components/feedback-analytics.tsx:40-64 | rows with equal totals appear in the order their pages first received a vote |
| FeedbackAnalytics.StatsExample | components/feedback-analytics.tsx:40-64 | three votes for one page and one for another give the expected two rows in order |
| FeedbackAnalytics.LoadAnalytics | components/feedback-analytics.tsx:27-37 | an absent log gives an empty table and feed; loading fails exactly when the log is unreadable |
| FeedbackAnalytics.Refresh | components/feedback-analytics.tsx:27-67 | reloading never writes the store and shows the stats and feed of the stored log; a log that is not an array throws, which leaves no dashboard; an absent log shows an empty one |
| FeedbackAnalytics.RefreshIdempotent | components/feedback-analytics.tsx:27-67 | after a successful load, loading again without a write in between shows the same thing |
| FeedbackAnalytics.Mount | components/feedback-analytics.tsx:23-37 | the mounted dashboard shows the stats and the feed of the stored log; the mount fails exactly when the log is not an array |
| FeedbackAnalytics.ClearAnalytics | components/feedback-analytics.tsx:69-74 | a confirmed clear deletes only the log and empties the view; a declined one changes nothing |
| FeedbackAnalytics.SatisfactionBand | components/feedback-analytics.tsx:76-81 | at least 80 is excellent, 60 to 80 good, 40 to 60 fair, below 40 poor |
| FeedbackAnalytics.BandMonotone | components/feedback-analytics.tsx:76-81 | a higher satisfaction never gets a lower band |
| PageFeedback.Submit | components/page-feedback.tsx:63-82 | the page's record holds the given vote or the current state, the trimmed comment and `submitted`; the state becomes submitted; the log and other keys are untouched |
| PageFeedback.HandleFeedback | components/page-feedback.tsx:41-61 | the vote appends exactly one event for this page, stamped with the vote's clock reading, to the log; without a comment box it also submits, stamped with a second reading; an unreadable log leaves the store untouched after the state change |
| PageFeedback.Reset | components/page-feedback.tsx:84-88 | back to idle with an empty comment; only the page's record is deleted |
| PageFeedback.OnRouteChange | components/page-feedback.tsx:18-28 | a completed route change resets state and comment and leaves the store alone |
| PageFeedback.LoadSaved | components/page-feedback.tsx:31-39 | a stored record marked submitted restores `submitted`; otherwise nothing changes |
| PageFeedback.Mount | components/page-feedback.tsx:13-39 | the widget starts idle with an empty comment, or submitted when the page has a submitted record |
| PageFeedback.Clip | components/page-feedback.tsx:152 | the comment is the input when it fits in 500 characters, and exactly its first 500 otherwise |
| PageFeedback.Step | components/page-feedback.tsx:18-165 | a disabled vote button, a hidden comment box and "Change feedback" outside `submitted` do nothing; typing keeps the clipped text; cancel goes back to idle with an empty comment; submit reaches `submitted`; only a pathname change moves the widget to another page |
| PageFeedback.StepKeepsCommentBound | components/page-feedback.tsx:143-152 | no event lets the comment exceed 500 characters |
| PageFeedback.StepLogAppendOnly | components/page-feedback.tsx:52-55 | the log only grows by at most one entry at the end; an unreadable log is never touched |
| PageFeedback.StepTouchesOwnKeysOnly | components/page-feedback.tsx:41-88 | no event writes any key but the log and the current page's record |
| PageFeedback.NoDirectSwitch | components/page-feedback.tsx:117-131 | a pending vote can never become the other vote in one step |
| PageFeedback.VotedOnlyFromIdleOrSame | components/page-feedback.tsx:119 | a vote is entered only from idle or from the same vote |
| PageFeedback.VoteThenSubmitRecordsVote | components/page-feedback.tsx:41-82 | voting and then submitting records the vote's name, the trimmed comment and one log event |
| PageFeedback.SubmitThenResetKeepsEvent | components/page-feedback.tsx:84-101 | changing an auto-submitted vote deletes the record but keeps its event in the log |
| PageFeedback.ReturnToSubmittedPage | components/page-feedback.tsx:18-39 | coming back to a page with submitted feedback shows submitted again when the load effect runs after the route-change reset, or with no reset |
| PageFeedback.RouteEventAfterLoadShowsIdle | components/page-feedback.tsx:18-39 | when the route-change reset arrives after the load effect, the page shows idle although its submitted record is still stored |
| ApiPlayground.ParseHeaderLine | components/api-playground.tsx:32-34 | a line gives a header exactly when it has a colon and a non-empty key; the name and the value are the trimmed text before and after the first colon |
| ApiPlayground.BlankLineNeverParses | components/api-playground.tsx:29-33 | a blank line never yields a header |
| ApiPlayground.ColonInValueSurvives | components/api-playground.tsx:32-34 | `name:value` parses back to the trimmed name and value, even when the value holds colons |
| ApiPlayground.Position | components/api-playground.tsx:34 | the index of a header name in the object, or -1 exactly when absent |
| ApiPlayground.Put | components/api-playground.tsx:34 | assigning a name overwrites its value in place or appends it, keeping names distinct |
| ApiPlayground.AsMapKeys | components/api-playground.tsx:34 | a name is in the header object exactly when some entry has it |
| ApiPlayground.AsMapOverwrite | components/api-playground.tsx:34 | overwriting a distinct-name entry is a map update |
| ApiPlayground.AsMapAppend | components/api-playground.tsx:34 | appending a header is a map update |
| ApiPlayground.AsMapPut | components/api-playground.tsx:34 | assigning into the header object is a map update |
| ApiPlayground.NonBlank | components/api-playground.tsx:29 | the filter keeps every non-blank line of the input and nothing else |
| ApiPlayground.NonBlankConcat | components/api-playground.tsx:29 | the filter works line by line: filtering a concatenation concatenates the filtered parts, and a single line is kept exactly when it is not blank, so the kept lines keep their order |
| ApiPlayground.Collect | components/api-playground.tsx:31-36 | the built object never repeats a name and, read as a map, is each name's last value |
| ApiPlayground.BlankFilterRedundant | components/api-playground.tsx:29-33 | filtering blank lines first gives the same object |
| ApiPlayground.ParseHeaders | components/api-playground.tsx:29-36 | the header object of a field never repeats a name and means the map from each name to its last value in the field's lines |
| ApiPlayground.CollectSnoc | components/api-playground.tsx:31-35 | a parsed line adds its header to the object built so far |
| ApiPlayground.LaterDuplicateOverwrites | components/api-playground.tsx:34 | a repeated name keeps its first position and takes the later value |
| ApiPlayground.FullUrl | components/api-playground.tsx:38 | the URL is the base URL followed by the endpoint |
| ApiPlayground.FlattenBody | components/api-playground.tsx:49 | the `-d` body keeps its length, every newline becomes a space, every other character stays where it was, and no newline is left |
| ApiPlayground.CurlCode | components/api-playground.tsx:42-49 | the sample opens with the request line and header flags; it stops there exactly for GET; otherwise it ends with the flattened body in single quotes |
| ApiPlayground.CurlGetIgnoresBody | components/api-playground.tsx:46-47 | the GET curl sample does not depend on the body |
| ApiPlayground.CurlShowsBody | components/api-playground.tsx:49 | any other curl sample carries the flattened body as its `-d` argument |
| ApiPlayground.CurlBodyRecoverable | components/api-playground.tsx:49 | two bodies give the same non-GET curl sample only when they flatten alike |
| ApiPlayground.PythonVerb | components/api-playground.tsx:67 | the Python call is named by the lower-cased method, never `get` for other methods |
| ApiPlayground.PythonCode | components/api-playground.tsx:60-67 | the sample starts with `import requests`; a GET call closes with `headers=headers` only, any other also passes `json=data`, and both end by printing the JSON response |
| ApiPlayground.PythonCallsLowerMethod | components/api-playground.tsx:64-67 | every Python sample calls `requests.<method>` on the full URL |
| ApiPlayground.PythonBody | components/api-playground.tsx:64-67 | a non-GET Python sample binds the body verbatim; a GET sample does not depend on it |
| ApiPlayground.BuildRequest | components/api-playground.tsx:79-96 | the request has the full URL and method, a body exactly for non-GET with a non-empty body, and headers meaning the field's map |
| SearchAutocomplete.FilterPages | components/search-autocomplete.tsx:31-37 | the result holds every page passing the filter and nothing else |
| SearchAutocomplete.FilterConcat | components/search-autocomplete.tsx:31-37 | the filter works page by page: filtering a concatenation concatenates the filtered parts, and a single page is kept exactly when it matches, so the result keeps list order |
| SearchAutocomplete.FilterNothing | components/search-autocomplete.tsx:31-37 | when no page passes, nothing is kept |
| SearchAutocomplete.MarkerNeedsAnX | components/search-autocomplete.tsx:35 | a path without an x can never contain `nonexistent-path` |
| SearchAutocomplete.PathsFreeOfX | components/search-autocomplete.tsx:11-18 | no documentation path contains an x |
| SearchAutocomplete.SearchAlwaysEmpty | components/search-autocomplete.tsx:28-44 | whatever the query, the search returns nothing |
| SearchAutocomplete.QueryEffect | components/search-autocomplete.tsx:28-44 | a blank query closes the dropdown with no results; any other opens it with the filtered pages |
| SearchAutocomplete.SetQuery | components/search-autocomplete.tsx:121 | typing stores the text and re-runs the effect only when the query changed |
| SearchAutocomplete.ResultClick | components/search-autocomplete.tsx:74-80 | choosing a result clears the query, closes the dropdown and resets the selection |
| SearchAutocomplete.KeyDown | components/search-autocomplete.tsx:57-72 | with the dropdown closed or empty nothing happens; the selection stays within range; Escape only closes; Enter on a result acts as a click |
| SearchAutocomplete.ArrowBounds | components/search-autocomplete.tsx:60-65 | Down stops at the last result and Up stops at "nothing selected" |
| SearchAutocomplete.ArrowsUndo | components/search-autocomplete.tsx:60-65 | away from the ends, Up undoes Down and Down undoes Up |
| SearchAutocomplete.Step | components/search-autocomplete.tsx:121-148 | clicking outside closes; focus reopens for a non-blank query; clear empties the query, the results and the dropdown |
| SearchAutocomplete.StepKeepsReachable | components/search-autocomplete.tsx:28-148 | every interaction keeps the box with no results and no selection, and open only for a non-blank query |
| SearchAutocomplete.RunKeepsReachable | components/search-autocomplete.tsx:22-148 | over any interactions from a reachable state, no result is ever listed or selected |
| TocSidebar.SkipSeparators | components/toc-sidebar.tsx:165 | what is kept is empty or opens with a character of `[a-z0-9]`, and a text opening with another character gets shorter |
| TocSidebar.SkipSuffix | components/toc-sidebar.tsx:165 | what `SkipSeparators` keeps is a suffix of the text and every dropped character lies outside `[a-z0-9]`: together, the longest such run at the front is skipped |
| TocSidebar.TakeWord | components/toc-sidebar.tsx:165 | takes the longest run of `[a-z0-9]` at the front |
| TocSidebar.Words | components/toc-sidebar.tsx:165 | the maximal `[a-z0-9]` runs of a text; none exactly when it has no such character |
| TocSidebar.CollapseSeparators | components/toc-sidebar.tsx:165 | replacing separator runs never lengthens the text and leaves only `[a-z0-9]` and dashes |
| TocSidebar.CollapseShape | components/toc-sidebar.tsx:165 | replacing each separator run by `-` gives the words joined by `-`, with a leading dash exactly when the text starts with a separator and a trailing dash exactly when it ends with separators after some word |
| TocSidebar.JoinWordsIsSlug | components/toc-sidebar.tsx:164-166 | non-empty words joined by `-` form a slug |
| TocSidebar.StripEdgeDashes | components/toc-sidebar.tsx:166 | at most one character goes at each end; a text without edge dashes is unchanged, and one with both loses exactly those two |
| TocSidebar.StripShape | components/toc-sidebar.tsx:166 | removing one edge dash at each end leaves the joined words |
| TocSidebar.Slugify | components/toc-sidebar.tsx:163-166 | the generated id is the lowered text's maximal `[a-z0-9]` runs joined by `-`, so it uses only `[a-z0-9-]`, has no dash at either end and no doubled dash |
| TocSidebar.SlugWords | components/toc-sidebar.tsx:165 | a slug is the join of its own words |
| TocSidebar.SlugifyFixpoint | components/toc-sidebar.tsx:163-166 | id generation leaves a text unchanged exactly when it is already a slug |
| TocSidebar.SlugifyIdempotent | components/toc-sidebar.tsx:163-166 | generating an id from an id changes nothing |
| TocSidebar.SlugifyIgnoresCase | components/toc-sidebar.tsx:164 | the id does not depend on letter case |
| TocSidebar.Level | components/toc-sidebar.tsx:157 | the level is the tag's digit, between 2 and 4 |
| TocSidebar.HeadingId | components/toc-sidebar.tsx:159-168 | an existing id is kept; otherwise the id is the slug of the heading text |
| TocSidebar.ExtractHeadings | components/toc-sidebar.tsx:150-174 | no headings outside the browser; otherwise one item per heading in page order, each heading's id set on the page |
| TocSidebar.ExtractAgain | components/toc-sidebar.tsx:150-174 | extracting again from the updated page changes neither the items nor the page |
| TocSidebar.FindIndex | components/toc-sidebar.tsx:139-141 | the first item with the id, or -1 exactly when none has it |
| TocSidebar.Progress | components/toc-sidebar.tsx:139-141 | the bar is between 0 and 100; for a non-empty list it is (i+1)/n·100 where i is the index of the first item whose id equals the active id; it is at 0 exactly when no item has the active id, and full exactly when the last item is the first match |
| TocSidebar.MountProgressOnEmptyId | components/toc-sidebar.tsx:139-141 | the active id starts empty (`useState<string>('')`) and matches a heading with an empty id (such as "???"), so the bar of two entries with such a heading first is at 50 before any click |
| TocSidebar.Indent | components/toc-sidebar.tsx:116 | the indent is a multiple of 12 pixels and non-negative for levels from 1 |
| TocSidebar.IndentSteps | components/toc-sidebar.tsx:116 | each level adds 12 pixels: 12, 24 and 36 for h2 to h4 |
| TocSidebar.HandleClick | components/toc-sidebar.tsx:53-72 | a click on a non-empty id present on the page activates it and sets the URL hash; on an absent id, or on the empty id (for which `getElementById('')` is null), nothing changes |
| TocSidebar.SymbolHeadingClickIgnored | components/toc-sidebar.tsx:56-69 | a heading such as "???" gets the empty id, and a click on its link changes nothing |
| TocSidebar.ToggleCollapse | components/toc-sidebar.tsx:74-76 | the toggle flips collapse and nothing else |
| TocSidebar.ToggleTwice | components/toc-sidebar.tsx:74-76 | toggling twice restores the state |
| TocSidebar.Render | components/toc-sidebar.tsx:78-141 | no sidebar for no headings; otherwise one entry per item with its indent, marked active exactly when its id is the active one |
| TocSidebar.ClickProgress | components/toc-sidebar.tsx:53-141 | clicking the k-th link, whose non-empty id occurs first there, fills the bar to (k+1)/n of its width; a click on an empty id changes nothing |
| TocSidebar.Step | components/toc-sidebar.tsx:19-76 | a section scrolling into view changes nothing; the toggle and link clicks act as their handlers |
| TocSidebar.ActiveOnlyFromClicks | components/toc-sidebar.tsx:19-72 | after any events, the active heading is the initial one or the non-empty id of some clicked link that is present on the page |

## Left out

- JSON parsing and stringifying. Stored values are the structures they parse to, so malformed JSON and non-array JSON both appear as a value that is not a log. A stored empty string is falsy, and both widgets read it as the empty log (`|| '[]'` at components/page-feedback.tsx:51, `if (!feedbackData)` at components/feedback-analytics.tsx:29); the model represents it by the absent key, which behaves the same.
- The load effect's JSON parse of the saved `feedback-<pathname>` record (components/page-feedback.tsx:33-34). A non-empty value that is not valid JSON is truthy, and `JSON.parse` then throws inside the effect; the model's stored values are already parsed structures, so this exception is not modelled.
- Storage writes never fail in the model. In the browser `setItem` can throw (a full quota); the vote handler and `handleSubmit` (components/page-feedback.tsx:55, :74) would then stop before their later state changes.
- ApiPlayground.Put: the header object is a plain object, so `Object.entries` lists integer-like header names first in ascending order, and a `__proto__` header name is silently dropped. `ApiPlayground.Put` and `ApiPlayground.ParseHeaders` keep every name in insertion order instead.
- `toLowerCase` and `trim` beyond their definitions here. Lowering covers ASCII letters only; for example, the Kelvin sign, which JavaScript lowers to `k`, is not modelled. Trimming covers the ECMAScript whitespace code points.
- `PageFeedback.Clip`: `maxLength` counts UTF-16 code units, the model counts code points. `maxLength` also limits what the user can insert rather than cutting the attempted value: the model takes the first 500 characters, which is what typing at the end or pasting into an empty field gives, but a paste into the middle of the text is cut differently.
- Timers, the `isSubmitting` flag and the async delay of the submission. Submission is one atomic step.
- The clock and the user agent are parameters. A vote and its automatic submission read the clock separately (`voteTime`, `submitTime`). `typeof window` is a boolean parameter.
- The JavaScript (`fetch`) sample of the API playground (components/api-playground.tsx:51-57). It is output text only and uses JSON stringifying.
- The simulated response of the API playground (components/api-playground.tsx:99-111). It depends on a timer and on JSON parsing of the body.
- The clipboard copy and the "copied" indicator, the router push, `scrollIntoView` and `highlightMatch`. These are presentation or browser effects.
- The section observer of the TOC. Its callback never changes state, so a section coming into view is an event that leaves the state as it is.
- `SearchAutocomplete.KeyDown`: Enter with a selection past the results would throw in the source; the model keeps the state unchanged instead. Such a selection cannot arise: see `SearchAutocomplete.RunKeepsReachable`.
- FeedbackAnalytics.Refresh: what React does with the error the mount effect throws (an error boundary, or unmounting the tree) is modelled only as "no dashboard" (`None`).
- `TocSidebar.Progress`: the percentage is an exact real, with no floating-point rounding.
- `FeedbackAnalytics.Satisfaction`: the percentage is an exact real, with no floating-point rounding, and the display's `toFixed(0)` is not modelled.
- The document query returns the headings in page order; the model takes that sequence as a parameter.
- The callout and steps components and the theme configuration are outside this model.
