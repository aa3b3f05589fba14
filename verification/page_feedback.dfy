/** The "Was this page helpful?" widget: a four-state machine over the
    current page, a comment field and the store.  Each vote appends an event to
    the analytics log; a submission writes the page's record; a reset deletes
    it.  Clock readings and the user-agent string are parameters. */
module PageFeedback {
  import opened Optional
  import opened Storage
  import Text

  /** The `maxLength` of the comment field. */
  const CommentLimit: nat := 500

  datatype Vote = Positive | Negative

  datatype FeedbackState = Idle | Voted(vote: Vote) | Submitted

  /** The widget: the router's pathname, its `feedbackState` and `comment`
      hooks, and the store. */
  datatype Widget = Widget(pathname: string, state: FeedbackState, comment: string, store: Store)

  /** The user's actions and the framework's notifications. */
  datatype Event =
    | PressVote(vote: Vote)          // the "Yes" or "No" button
    | TypeComment(text: string)      // the comment field's onChange
    | SubmitClick                    // "Submit" in the comment box
    | CancelClick                    // "Cancel" in the comment box
    | ChangeClick                    // "Change feedback" after submission
    | RouteChangeComplete            // the router's routeChangeComplete event
    | PathnameChanged(path: string)  // a new router pathname (re-runs the load effect)

  function VoteName(v: Vote): string
  {
    match v
    case Positive => "positive"
    case Negative => "negative"
  }

  /** The state as the string the component stores in `feedbackState`. */
  function StateName(s: FeedbackState): string
  {
    match s
    case Idle => "idle"
    case Voted(v) => VoteName(v)
    case Submitted => "submitted"
  }

  /** A vote button is enabled only in `idle` or when it is the vote already
      chosen; once submitted no button is shown at all. */
  predicate VoteEnabled(s: FeedbackState, v: Vote)
  {
    s == Idle || s == Voted(v)
  }

  /** The comment box (with Submit and Cancel) is shown only when enabled
      by the prop and a vote is pending. */
  predicate CommentBoxShown(w: Widget, showCommentBox: bool)
  {
    showCommentBox && w.state.Voted?
  }

  /** Every key other than `a` and `b` holds the same thing in both stores. */
  ghost predicate SameExcept(s: Store, t: Store, a: string, b: string)
  {
    forall k :: k != a && k != b ==> (k in s <==> k in t) && (k in s ==> s[k] == t[k])
  }

  /** The record `handleSubmit` writes for the current page. */
  function SubmissionFor(w: Widget, t: Option<Vote>, now: string): PageRecord
  {
    var kind := if t.Some? then VoteName(t.value) else StateName(w.state);
    PageRecord(w.pathname, kind, Text.Trim(w.comment), now, true)
  }

  /** `handleSubmit(type?)`: writes the page's record (the given vote, or the
      current state when none is given; the trimmed comment; `submitted`
      true) and ends in `submitted`.  The log and every other key are left
      alone. */
  function Submit(w: Widget, t: Option<Vote>, now: string): (r: Widget)
    ensures r.state == Submitted
    ensures r.pathname == w.pathname && r.comment == w.comment
    ensures RecordKey(w.pathname) in r.store
    ensures r.store[RecordKey(w.pathname)].RecordValue?
    ensures var rec := r.store[RecordKey(w.pathname)].record;
            && rec.pathname == w.pathname
            && rec.comment == Text.Trim(w.comment)
            && rec.submitted
            && (t.Some? ==> rec.kind == VoteName(t.value))
            && (t.None? ==> rec.kind == StateName(w.state))
    ensures SameExcept(w.store, r.store, RecordKey(w.pathname), RecordKey(w.pathname))
    ensures ReadLog(r.store) == ReadLog(w.store)
  {
    RecordKeyIsNotLogKey(w.pathname);
    var key := RecordKey(w.pathname);
    w.(store := w.store[key := RecordValue(SubmissionFor(w, t, now))], state := Submitted)
  }

  /** `handleFeedback(type)`: sets the state to the vote and appends one event
      for the current page to the end of the log.  Without a comment box it
      goes on to submit.  When the log key holds something that is not an
      array the append throws after the state was set: the store is untouched
      and there is no submission.  The event and the record each read the
      clock separately: `voteTime` and `submitTime`. */
  function HandleFeedback(w: Widget, v: Vote, showCommentBox: bool, voteTime: string, submitTime: string, agent: string): (r: Widget)
    ensures r.pathname == w.pathname && r.comment == w.comment
    ensures ReadLog(w.store).None? ==> r == w.(state := Voted(v))
    ensures ReadLog(w.store).Some? ==>
              ReadLog(r.store) == Some(ReadLog(w.store).value + [LogEntry(w.pathname, VoteName(v), voteTime, agent)])
    ensures ReadLog(w.store).Some? && showCommentBox ==>
              r.state == Voted(v) && SameExcept(w.store, r.store, LogKey, LogKey)
    ensures ReadLog(w.store).Some? && !showCommentBox ==>
              && r.state == Submitted
              && RecordKey(w.pathname) in r.store
              && r.store[RecordKey(w.pathname)] == RecordValue(PageRecord(w.pathname, VoteName(v), Text.Trim(w.comment), submitTime, true))
    ensures SameExcept(w.store, r.store, LogKey, RecordKey(w.pathname))
  {
    var w1 := w.(state := Voted(v));
    match ReadLog(w.store)
    case None => w1
    case Some(log) =>
      var w2 := w1.(store := w.store[LogKey := LogValue(log + [LogEntry(w.pathname, VoteName(v), voteTime, agent)])]);
      if showCommentBox then w2 else Submit(w2, Some(v), submitTime)
  }

  /** `handleReset`: back to `idle` with an empty comment, and the page's
      record deleted; the log and every other key stay as they were. */
  function Reset(w: Widget): (r: Widget)
    ensures r.state == Idle && r.comment == [] && r.pathname == w.pathname
    ensures RecordKey(w.pathname) !in r.store
    ensures SameExcept(w.store, r.store, RecordKey(w.pathname), RecordKey(w.pathname))
    ensures ReadLog(r.store) == ReadLog(w.store)
  {
    RecordKeyIsNotLogKey(w.pathname);
    w.(state := Idle, comment := [], store := w.store - {RecordKey(w.pathname)})
  }

  /** The `routeChangeComplete` handler: `idle` and an empty comment. */
  function OnRouteChange(w: Widget): (r: Widget)
    ensures r.state == Idle && r.comment == []
    ensures r.pathname == w.pathname && r.store == w.store
  {
    w.(state := Idle, comment := [])
  }

  /** Whether the store holds a record for the page whose `submitted` is set. */
  predicate HasSubmittedRecord(store: Store, pathname: string)
  {
    && RecordKey(pathname) in store
    && store[RecordKey(pathname)].RecordValue?
    && store[RecordKey(pathname)].record.submitted
  }

  /** The saved-feedback load effect: a stored record with `submitted` set
      restores `submitted`; anything else leaves the widget as it is. */
  function LoadSaved(w: Widget): (r: Widget)
    ensures HasSubmittedRecord(w.store, w.pathname) ==> r == w.(state := Submitted)
    ensures !HasSubmittedRecord(w.store, w.pathname) ==> r == w
  {
    var key := RecordKey(w.pathname);
    if key in w.store then
      match w.store[key]
      case RecordValue(rec) => if rec.submitted then w.(state := Submitted) else w
      case LogValue(_) => w
    else w
  }

  /** The widget on first render: idle, empty comment, then the load effect. */
  function Mount(pathname: string, store: Store): (w: Widget)
    ensures w.pathname == pathname && w.store == store && w.comment == []
    ensures w.state == (if HasSubmittedRecord(store, pathname) then Submitted else Idle)
  {
    LoadSaved(Widget(pathname, Idle, [], store))
  }

  /** The comment field keeps at most `CommentLimit` characters of the input. */
  function Clip(text: string): (c: string)
    ensures |c| <= CommentLimit && |c| <= |text|
    ensures c == text[..|c|]
    ensures |text| <= CommentLimit ==> c == text
    ensures |text| > CommentLimit ==> c == text[..CommentLimit]
  {
    if |text| <= CommentLimit then text else text[..CommentLimit]
  }

  /** One event.  Controls that are not on screen, or disabled, do nothing.
      `voteTime` is the clock reading a vote's log event takes and
      `submitTime` the one a submitted record takes. */
  function Step(w: Widget, e: Event, showCommentBox: bool, voteTime: string, submitTime: string, agent: string): (r: Widget)
    ensures e.PressVote? && !VoteEnabled(w.state, e.vote) ==> r == w
    ensures (e.TypeComment? || e.SubmitClick? || e.CancelClick?) && !CommentBoxShown(w, showCommentBox) ==> r == w
    ensures e.ChangeClick? && w.state != Submitted ==> r == w
    ensures e.TypeComment? && CommentBoxShown(w, showCommentBox) ==> r == w.(comment := Clip(e.text))
    ensures e.CancelClick? && CommentBoxShown(w, showCommentBox) ==> r.state == Idle && r.comment == []
    ensures e.SubmitClick? && CommentBoxShown(w, showCommentBox) ==> r.state == Submitted
    ensures r.pathname != w.pathname ==> e.PathnameChanged? && r.pathname == e.path
  {
    match e
    case PressVote(v) =>
      if VoteEnabled(w.state, v) then HandleFeedback(w, v, showCommentBox, voteTime, submitTime, agent) else w
    case TypeComment(text) =>
      if CommentBoxShown(w, showCommentBox) then w.(comment := Clip(text)) else w
    case SubmitClick =>
      if CommentBoxShown(w, showCommentBox) then Submit(w, None, submitTime) else w
    case CancelClick =>
      if CommentBoxShown(w, showCommentBox) then Reset(w) else w
    case ChangeClick =>
      if w.state == Submitted then Reset(w) else w
    case RouteChangeComplete =>
      OnRouteChange(w)
    case PathnameChanged(path) =>
      if path != w.pathname then LoadSaved(w.(pathname := path)) else w
  }

  // ---------------------------------------------------------------------------
  // Properties of every step

  /** The comment never grows past `CommentLimit` characters. */
  lemma StepKeepsCommentBound(w: Widget, e: Event, showCommentBox: bool, voteTime: string, submitTime: string, agent: string)
    requires |w.comment| <= CommentLimit
    ensures |Step(w, e, showCommentBox, voteTime, submitTime, agent).comment| <= CommentLimit
  {
  }

  /** The log only grows: whatever it held before is a prefix of what it holds
      after, at most one entry longer; a log the widget cannot read is never
      touched. */
  lemma StepLogAppendOnly(w: Widget, e: Event, showCommentBox: bool, voteTime: string, submitTime: string, agent: string)
    ensures var r := Step(w, e, showCommentBox, voteTime, submitTime, agent);
            match ReadLog(w.store)
            case None => LogKey in r.store && r.store[LogKey] == w.store[LogKey]
            case Some(before) =>
              && ReadLog(r.store).Some?
              && |before| <= |ReadLog(r.store).value| <= |before| + 1
              && before == ReadLog(r.store).value[..|before|]
  {
    var r := Step(w, e, showCommentBox, voteTime, submitTime, agent);
    match ReadLog(w.store)
    case None =>
      RecordKeyIsNotLogKey(w.pathname);
      assert SameExcept(w.store, r.store, RecordKey(w.pathname), RecordKey(w.pathname));
      assert LogKey != RecordKey(w.pathname);
    case Some(before) =>
  }

  /** The widget writes no key but the log and the current page's record. */
  lemma StepTouchesOwnKeysOnly(w: Widget, e: Event, showCommentBox: bool, voteTime: string, submitTime: string, agent: string)
    ensures SameExcept(w.store, Step(w, e, showCommentBox, voteTime, submitTime, agent).store, LogKey, RecordKey(w.pathname))
  {
  }

  /** A pending vote is never switched to the other vote: from `positive` the
      only vote state reachable in one step is `positive` again, and likewise
      for `negative`. */
  lemma NoDirectSwitch(w: Widget, e: Event, showCommentBox: bool, voteTime: string, submitTime: string, agent: string)
    requires w.state.Voted?
    ensures var r := Step(w, e, showCommentBox, voteTime, submitTime, agent);
            r.state.Voted? ==> r.state == w.state
  {
  }

  /** A vote can only be entered from `idle` or from the same vote. */
  lemma VotedOnlyFromIdleOrSame(w: Widget, e: Event, showCommentBox: bool, voteTime: string, submitTime: string, agent: string, v: Vote)
    requires Step(w, e, showCommentBox, voteTime, submitTime, agent).state == Voted(v)
    ensures w.state == Idle || w.state == Voted(v)
  {
  }

  // ---------------------------------------------------------------------------
  // Scenarios over several steps

  /** Voting and then submitting through the comment box stores the same kind
      as the automatic submission without a comment box: the vote's name. */
  lemma VoteThenSubmitRecordsVote(w: Widget, v: Vote, now: string, later: string, agent: string)
    requires VoteEnabled(w.state, v)
    requires ReadLog(w.store).Some?
    ensures var w1 := Step(w, PressVote(v), true, now, now, agent);
            var w2 := Step(w1, SubmitClick, true, later, later, agent);
            && w2.state == Submitted
            && RecordKey(w.pathname) in w2.store
            && w2.store[RecordKey(w.pathname)] == RecordValue(PageRecord(w.pathname, VoteName(v), Text.Trim(w.comment), later, true))
            && ReadLog(w2.store) == Some(ReadLog(w.store).value + [LogEntry(w.pathname, VoteName(v), now, agent)])
  {
  }

  /** Voting without a comment box and then asking to change the feedback
      deletes the page's record, while the vote's event stays in the log. */
  lemma SubmitThenResetKeepsEvent(w: Widget, v: Vote, now: string, later: string, agent: string)
    requires VoteEnabled(w.state, v)
    requires ReadLog(w.store).Some?
    ensures var w1 := Step(w, PressVote(v), false, now, later, agent);
            var w2 := Step(w1, ChangeClick, false, now, later, agent);
            && w1.state == Submitted
            && RecordKey(w.pathname) in w1.store
            && w1.store[RecordKey(w.pathname)] == RecordValue(PageRecord(w.pathname, VoteName(v), Text.Trim(w.comment), later, true))
            && w2.state == Idle
            && RecordKey(w.pathname) !in w2.store
            && ReadLog(w2.store) == Some(ReadLog(w.store).value + [LogEntry(w.pathname, VoteName(v), now, agent)])
  {
  }

  /** Coming back to a page whose feedback was submitted shows `submitted`
      again when the load effect runs after the `routeChangeComplete` reset
      (or without one). */
  lemma ReturnToSubmittedPage(w: Widget, path: string)
    requires path != w.pathname
    requires HasSubmittedRecord(w.store, path)
    ensures Step(w, PathnameChanged(path), true, "", "", "").state == Submitted
    ensures Step(OnRouteChange(w), PathnameChanged(path), true, "", "", "").state == Submitted
  {
  }

  /** In the other order the reset wins: when `routeChangeComplete` arrives
      after the load effect, the page shows `idle` although its submitted
      record is still stored. */
  lemma RouteEventAfterLoadShowsIdle(w: Widget, path: string)
    requires path != w.pathname
    requires HasSubmittedRecord(w.store, path)
    ensures var r := Step(Step(w, PathnameChanged(path), true, "", "", ""), RouteChangeComplete, true, "", "", "");
            r.state == Idle && HasSubmittedRecord(r.store, path)
  {
  }
}
