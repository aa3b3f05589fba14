/** The browser's key-value store as the two feedback widgets use it.  Stored
    JSON is modelled by the structured value it parses to: the analytics log
    (an array of vote events) or one page's feedback record (an object). */
module Storage {
  import opened Optional

  /** One element of the `page-feedback-analytics` array, as the vote buttons
      write it.  `kind` is the JSON `type` field; the aggregation only asks
      whether it is the string "positive". */
  datatype LogEntry = LogEntry(pathname: string, kind: string, timestamp: string, userAgent: string)

  /** The object stored under `feedback-<pathname>` when feedback is submitted. */
  datatype PageRecord = PageRecord(pathname: string, kind: string, comment: string, timestamp: string, submitted: bool)

  datatype Value = LogValue(entries: seq<LogEntry>) | RecordValue(record: PageRecord)

  type Store = map<string, Value>

  /** The key of the append-only vote log. */
  const LogKey: string := "page-feedback-analytics"

  /** The key of one page's submitted feedback. */
  function RecordKey(pathname: string): (k: string)
    ensures |k| == 9 + |pathname| && k[..9] == "feedback-" && k[9..] == pathname
  {
    "feedback-" + pathname
  }

  /** No page's record can land on the log key, and distinct pages never share
      a record key: writes to records leave the log alone. */
  lemma RecordKeyIsNotLogKey(pathname: string)
    ensures RecordKey(pathname) != LogKey
  {
    assert RecordKey(pathname)[0] == 'f' && LogKey[0] == 'p';
  }

  lemma RecordKeyInjective(p: string, q: string)
    requires RecordKey(p) == RecordKey(q)
    ensures p == q
  {
    assert p == RecordKey(p)[9..];
  }

  /** The log as `JSON.parse(getItem(LogKey) || '[]')` sees it when the result is
      used as an array: an absent key reads as the empty log, and a key holding
      a non-array value is `None` (the array methods would throw). */
  function ReadLog(store: Store): (r: Option<seq<LogEntry>>)
    ensures LogKey !in store ==> r == Some([])
    ensures LogKey in store ==> (r.Some? <==> store[LogKey].LogValue?)
    ensures r.Some? && LogKey in store ==> store[LogKey] == LogValue(r.value)
  {
    if LogKey !in store then Some([])
    else match store[LogKey]
      case LogValue(entries) => Some(entries)
      case RecordValue(_) => None
  }
}
