/** The feedback analytics dashboard: it reads the append-only vote log from
    the store and reduces it to per-page tallies sorted by vote count, a
    satisfaction percentage per page and a feed of the latest votes. */
module FeedbackAnalytics {
  import opened Optional
  import opened Storage

  /** The vote kind that counts as positive; every other kind counts as negative. */
  const PositiveKind: string := "positive"

  /** How many log entries the recent-activity feed shows. */
  const RecentLimit: nat := 10

  /** One entry of the `pageMap` the reduction builds: a page and its two counters. */
  datatype PageCount = PageCount(pathname: string, positive: nat, negative: nat)

  /** One row of the statistics table. */
  datatype PageStat = PageStat(pathname: string, positive: nat, negative: nat, total: nat, satisfaction: real)

  datatype Analytics = Analytics(stats: seq<PageStat>, recent: seq<LogEntry>)

  /** The dashboard's state: what it shows and the store it reads. */
  datatype Dashboard = Dashboard(view: Analytics, store: Store)

  datatype Band = Excellent | Good | Fair | Poor

  // ---------------------------------------------------------------------------
  // Reference counts over the log

  /** Number of entries for page `p` whose kind is "positive". */
  function CountPositive(log: seq<LogEntry>, p: string): nat
  {
    if |log| == 0 then 0
    else CountPositive(log[..|log| - 1], p)
         + (if log[|log| - 1].pathname == p && log[|log| - 1].kind == PositiveKind then 1 else 0)
  }

  /** Number of entries for page `p` of any other kind. */
  function CountNegative(log: seq<LogEntry>, p: string): nat
  {
    if |log| == 0 then 0
    else CountNegative(log[..|log| - 1], p)
         + (if log[|log| - 1].pathname == p && log[|log| - 1].kind != PositiveKind then 1 else 0)
  }

  /** Number of entries for page `p`. */
  function Occurrences(log: seq<LogEntry>, p: string): nat
  {
    if |log| == 0 then 0
    else Occurrences(log[..|log| - 1], p) + (if log[|log| - 1].pathname == p then 1 else 0)
  }

  /** Every entry for a page is counted exactly once, as positive or as negative. */
  lemma {:induction false} VotesPartition(log: seq<LogEntry>, p: string)
    ensures CountPositive(log, p) + CountNegative(log, p) == Occurrences(log, p)
  {
    if |log| > 0 {
      VotesPartition(log[..|log| - 1], p);
    }
  }

  function Pathnames(log: seq<LogEntry>): (ps: seq<string>)
    ensures |ps| == |log|
    ensures forall i :: 0 <= i < |log| ==> ps[i] == log[i].pathname
  {
    seq(|log|, i requires 0 <= i < |log| => log[i].pathname)
  }

  lemma {:induction false} AbsentPageCountsZero(log: seq<LogEntry>, p: string)
    requires p !in Pathnames(log)
    ensures CountPositive(log, p) == 0 && CountNegative(log, p) == 0
  {
    if |log| > 0 {
      assert Pathnames(log[..|log| - 1]) == Pathnames(log)[..|log| - 1];
      AbsentPageCountsZero(log[..|log| - 1], p);
    }
  }

  predicate Distinct(xs: seq<string>) {
    forall i, j :: 0 <= i < j < |xs| ==> xs[i] != xs[j]
  }

  /** Each value of `xs` once, in the order of its first appearance: the key
      order of a JavaScript `Map` filled from `xs`. */
  function FirstAppearances(xs: seq<string>): (r: seq<string>)
    ensures Distinct(r)
    ensures forall x :: x in r <==> x in xs
  {
    if |xs| == 0 then []
    else
      var r := FirstAppearances(xs[..|xs| - 1]);
      assert xs == xs[..|xs| - 1] + [xs[|xs| - 1]];
      if xs[|xs| - 1] in r then r else r + [xs[|xs| - 1]]
  }

  // ---------------------------------------------------------------------------
  // The reduction (`feedback.forEach` over `pageMap`)

  function PathsOf(t: seq<PageCount>): (ps: seq<string>)
    ensures |ps| == |t|
    ensures forall i :: 0 <= i < |t| ==> ps[i] == t[i].pathname
  {
    seq(|t|, i requires 0 <= i < |t| => t[i].pathname)
  }

  /** Position of page `p` in the tally, or -1. */
  function IndexOfPage(t: seq<PageCount>, p: string): (i: int)
    ensures -1 <= i < |t|
    ensures i >= 0 ==> t[i].pathname == p
    ensures i < 0 <==> p !in PathsOf(t)
    decreases |t|
  {
    if |t| == 0 then -1
    else if t[|t| - 1].pathname == p then |t| - 1
    else
      assert PathsOf(t) == PathsOf(t[..|t| - 1]) + [t[|t| - 1].pathname];
      IndexOfPage(t[..|t| - 1], p)
  }

  /** Counting one entry: "positive" bumps `positive`, anything else `negative`. */
  function Bump(c: PageCount, kind: string): PageCount
  {
    if kind == PositiveKind then c.(positive := c.positive + 1) else c.(negative := c.negative + 1)
  }

  /** One step of the `forEach`: create the page's counters on first sight,
      then bump them. */
  function AddEntry(t: seq<PageCount>, e: LogEntry): (r: seq<PageCount>)
    ensures |t| <= |r| <= |t| + 1 && |r| > 0
  {
    var i := IndexOfPage(t, e.pathname);
    if i < 0 then t + [Bump(PageCount(e.pathname, 0, 0), e.kind)]
    else t[i := Bump(t[i], e.kind)]
  }

  /** The whole `forEach`, as a left fold over the log. */
  function Tally(log: seq<LogEntry>): (t: seq<PageCount>)
    ensures |t| <= |log|
    ensures |log| > 0 ==> |t| > 0
  {
    if |log| == 0 then [] else AddEntry(Tally(log[..|log| - 1]), log[|log| - 1])
  }

  /** Adding an entry appends its page to the tally's pages when the page is
      new and leaves them alone otherwise. */
  lemma PathsAfterAdd(t: seq<PageCount>, e: LogEntry)
    ensures PathsOf(AddEntry(t, e))
            == if e.pathname in PathsOf(t) then PathsOf(t) else PathsOf(t) + [e.pathname]
  {
    var i := IndexOfPage(t, e.pathname);
    if i < 0 {
      assert PathsOf(t + [Bump(PageCount(e.pathname, 0, 0), e.kind)]) == PathsOf(t) + [e.pathname];
    } else {
      assert PathsOf(t[i := Bump(t[i], e.kind)]) == PathsOf(t);
    }
  }

  /** The tally has one entry per distinct page of the log, in the order in
      which the pages first appear. */
  lemma {:induction false} TallyPages(log: seq<LogEntry>)
    ensures PathsOf(Tally(log)) == FirstAppearances(Pathnames(log))
  {
    if |log| > 0 {
      var prefix := log[..|log| - 1];
      TallyPages(prefix);
      assert Pathnames(log)[..|log| - 1] == Pathnames(prefix);
      PathsAfterAdd(Tally(prefix), log[|log| - 1]);
    }
  }

  /** Each page's counters are exactly its positive and negative entries in the log. */
  lemma {:induction false} TallyCounts(log: seq<LogEntry>)
    ensures var t := Tally(log);
            forall i :: 0 <= i < |t| ==>
              t[i].positive == CountPositive(log, t[i].pathname)
              && t[i].negative == CountNegative(log, t[i].pathname)
  {
    if |log| > 0 {
      var prefix := log[..|log| - 1];
      var e := log[|log| - 1];
      var t := Tally(prefix);
      var t' := Tally(log);
      TallyCounts(prefix);
      TallyPages(prefix);
      assert Distinct(PathsOf(t));
      var k := IndexOfPage(t, e.pathname);
      if k < 0 {
        assert e.pathname !in Pathnames(prefix);
        AbsentPageCountsZero(prefix, e.pathname);
      }
      forall i | 0 <= i < |t'|
        ensures t'[i].positive == CountPositive(log, t'[i].pathname)
        ensures t'[i].negative == CountNegative(log, t'[i].pathname)
      {
        var p := t'[i].pathname;
        CountsSnoc(log, p);
        if k < 0 {
          if i < |t| {
            assert t'[i] == t[i];
            assert PathsOf(t)[i] == p;
          }
        } else if i != k {
          assert t'[i] == t[i];
          assert PathsOf(t)[i] != PathsOf(t)[k];
        }
      }
    }
  }

  lemma CountsSnoc(log: seq<LogEntry>, p: string)
    requires |log| > 0
    ensures var e := log[|log| - 1];
            && CountPositive(log, p) == CountPositive(log[..|log| - 1], p) + (if e.pathname == p && e.kind == PositiveKind then 1 else 0)
            && CountNegative(log, p) == CountNegative(log[..|log| - 1], p) + (if e.pathname == p && e.kind != PositiveKind then 1 else 0)
  {
  }

  function SumCounts(t: seq<PageCount>): nat
  {
    if |t| == 0 then 0 else SumCounts(t[..|t| - 1]) + t[|t| - 1].positive + t[|t| - 1].negative
  }

  lemma {:induction false} SumCountsUpdate(t: seq<PageCount>, k: nat, c: PageCount)
    requires k < |t|
    ensures SumCounts(t[k := c]) + t[k].positive + t[k].negative == SumCounts(t) + c.positive + c.negative
    decreases |t|
  {
    if k < |t| - 1 {
      assert t[k := c][..|t| - 1] == t[..|t| - 1][k := c];
      SumCountsUpdate(t[..|t| - 1], k, c);
    } else {
      assert t[k := c][..|t| - 1] == t[..|t| - 1];
    }
  }

  /** Every log entry is counted once: the counters add up to the log length. */
  lemma {:induction false} TallySum(log: seq<LogEntry>)
    ensures SumCounts(Tally(log)) == |log|
  {
    if |log| > 0 {
      var prefix := log[..|log| - 1];
      TallySum(prefix);
      SumAfterAdd(Tally(prefix), log[|log| - 1]);
    }
  }

  /** Adding an entry adds exactly one to the counters. */
  lemma SumAfterAdd(t: seq<PageCount>, e: LogEntry)
    ensures SumCounts(AddEntry(t, e)) == SumCounts(t) + 1
  {
    var i := IndexOfPage(t, e.pathname);
    if i < 0 {
      var t' := t + [Bump(PageCount(e.pathname, 0, 0), e.kind)];
      assert t'[..|t|] == t;
    } else {
      SumCountsUpdate(t, i, Bump(t[i], e.kind));
    }
  }

  // ---------------------------------------------------------------------------
  // Rows of the table

  /** A part divided by a positive whole is at most one. */
  lemma FractionAtMostOne(part: real, whole: real)
    requires 0.0 <= part <= whole && whole > 0.0
    ensures 0.0 <= part / whole <= 1.0
  {
    var q := part / whole;
    assert (1.0 - q) * whole == whole - part;
  }

  /** `positive / total * 100`, or 0 for a page without votes. */
  function Satisfaction(positive: nat, total: nat): (r: real)
    requires positive <= total
    ensures 0.0 <= r <= 100.0
    ensures total == 0 ==> r == 0.0
    ensures total > 0 ==> r * (total as real) == (positive as real) * 100.0
  {
    if total > 0 then
      var q := (positive as real) / (total as real);
      assert q * (total as real) == positive as real;
      FractionAtMostOne(positive as real, total as real);
      q * 100.0
    else 0.0
  }

  function ToStat(c: PageCount): PageStat
  {
    var total := c.positive + c.negative;
    PageStat(c.pathname, c.positive, c.negative, total, Satisfaction(c.positive, total))
  }

  /** The table rows before sorting, in `pageMap` insertion order. */
  function UnsortedStats(log: seq<LogEntry>): (s: seq<PageStat>)
    ensures |s| == |Tally(log)|
    ensures forall i :: 0 <= i < |s| ==> s[i] == ToStat(Tally(log)[i])
  {
    var t := Tally(log);
    seq(|t|, i requires 0 <= i < |t| => ToStat(t[i]))
  }

  // ---------------------------------------------------------------------------
  // The stable sort by descending total (`sort((a, b) => b.total - a.total)`)

  predicate NonIncreasing(s: seq<PageStat>) {
    forall i, j :: 0 <= i < j < |s| ==> s[i].total >= s[j].total
  }

  /** The rows with total `n`, in their order in `s`. */
  function WithTotal(s: seq<PageStat>, n: nat): seq<PageStat>
  {
    if |s| == 0 then []
    else WithTotal(s[..|s| - 1], n) + (if s[|s| - 1].total == n then [s[|s| - 1]] else [])
  }

  function SumTotals(s: seq<PageStat>): nat
  {
    if |s| == 0 then 0 else SumTotals(s[..|s| - 1]) + s[|s| - 1].total
  }

  predicate UniquePages(s: seq<PageStat>) {
    forall i, j :: 0 <= i < j < |s| ==> s[i].pathname != s[j].pathname
  }

  /** Places `x` after every row whose total is at least `x.total`: the row
      goes to the end of its group of equal totals. */
  function InsertByTotal(s: seq<PageStat>, x: PageStat): (r: seq<PageStat>)
    requires NonIncreasing(s)
    ensures NonIncreasing(r)
    ensures multiset(r) == multiset(s) + multiset{x}
    decreases |s|
  {
    if |s| == 0 then [x]
    else
      var last := s[|s| - 1];
      var init := s[..|s| - 1];
      assert s == init + [last];
      if last.total >= x.total then s + [x]
      else
        var r' := InsertByTotal(init, x);
        InsertKeepsLastBehind(init, x, last, r');
        r' + [last]
  }

  /** In the third case of `InsertByTotal`, every row of `r'` (a row of `init`
      or `x`) has a total at least that of `last`. */
  lemma InsertKeepsLastBehind(init: seq<PageStat>, x: PageStat, last: PageStat, r': seq<PageStat>)
    requires NonIncreasing(init + [last])
    requires last.total < x.total
    requires NonIncreasing(r')
    requires multiset(r') == multiset(init) + multiset{x}
    ensures NonIncreasing(r' + [last])
  {
    var s := init + [last];
    forall i | 0 <= i < |r'|
      ensures r'[i].total >= last.total
    {
      assert r'[i] in multiset(r');
      if r'[i] != x {
        assert r'[i] in multiset(init);
        var j :| 0 <= j < |init| && init[j] == r'[i];
        assert s[j] == init[j] && s[|s| - 1] == last;
      }
    }
  }

  lemma WithTotalSnoc(s: seq<PageStat>, y: PageStat, n: nat)
    ensures WithTotal(s + [y], n) == WithTotal(s, n) + (if y.total == n then [y] else [])
  {
    assert (s + [y])[..|s|] == s;
  }

  /** Inserting adds `x` at the end of its group of equal totals and leaves
      every other group as it was. */
  lemma {:induction false} InsertGroups(s: seq<PageStat>, x: PageStat, n: nat)
    requires NonIncreasing(s)
    ensures WithTotal(InsertByTotal(s, x), n) == WithTotal(s, n) + (if x.total == n then [x] else [])
    decreases |s|
  {
    if |s| == 0 {
      WithTotalSnoc([], x, n);
      assert [] + [x] == [x];
    } else {
      var last := s[|s| - 1];
      var init := s[..|s| - 1];
      var xs := if x.total == n then [x] else [];
      var ls := if last.total == n then [last] else [];
      if last.total >= x.total {
        WithTotalSnoc(s, x, n);
      } else {
        var r' := InsertByTotal(init, x);
        calc {
          WithTotal(InsertByTotal(s, x), n);
          WithTotal(r' + [last], n);
          { WithTotalSnoc(r', last, n); }
          WithTotal(r', n) + ls;
          { InsertGroups(init, x, n); }
          WithTotal(init, n) + xs + ls;
          { InsertGroupsSwap(WithTotal(init, n), x, last, n); }
          WithTotal(init, n) + ls + xs;
          { assert s == init + [last]; WithTotalSnoc(init, last, n); }
          WithTotal(s, n) + xs;
        }
      }
    }
  }

  lemma InsertGroupsSwap(w: seq<PageStat>, x: PageStat, last: PageStat, n: nat)
    requires last.total < x.total
    ensures w + (if x.total == n then [x] else []) + (if last.total == n then [last] else [])
            == w + (if last.total == n then [last] else []) + (if x.total == n then [x] else [])
  {
  }

  lemma {:induction false} InsertSum(s: seq<PageStat>, x: PageStat)
    requires NonIncreasing(s)
    ensures SumTotals(InsertByTotal(s, x)) == SumTotals(s) + x.total
    decreases |s|
  {
    if |s| > 0 {
      var last := s[|s| - 1];
      var init := s[..|s| - 1];
      assert s == init + [last];
      var r := InsertByTotal(s, x);
      if last.total >= x.total {
        assert r[..|s|] == s;
      } else {
        var r' := InsertByTotal(init, x);
        assert r[..|r'|] == r';
        InsertSum(init, x);
      }
    }
  }

  /** Inserting a row for a page not yet in `s` keeps one row per page. */
  lemma {:induction false} InsertUnique(s: seq<PageStat>, x: PageStat)
    requires NonIncreasing(s)
    requires UniquePages(s)
    requires forall i :: 0 <= i < |s| ==> s[i].pathname != x.pathname
    ensures UniquePages(InsertByTotal(s, x))
    decreases |s|
  {
    if |s| > 0 {
      var last := s[|s| - 1];
      var init := s[..|s| - 1];
      assert s == init + [last];
      if last.total < x.total {
        var r' := InsertByTotal(init, x);
        assert UniquePages(r') by {
          assert forall i :: 0 <= i < |init| ==> init[i] == s[i];
          InsertUnique(init, x);
        }
        assert forall i :: 0 <= i < |r'| ==> r'[i].pathname != last.pathname by {
          assert forall k :: 0 <= k < |init| ==> init[k].pathname != last.pathname by {
            assert forall k :: 0 <= k < |init| ==> init[k] == s[k];
          }
          AvoidsAfterInsert(r', init, x, last.pathname);
        }
        assert InsertByTotal(s, x) == r' + [last];
      }
    }
  }

  /** A page missing from `s` and other than `x`'s is missing from the
      insertion result. */
  lemma AvoidsAfterInsert(r: seq<PageStat>, s: seq<PageStat>, x: PageStat, p: string)
    requires multiset(r) == multiset(s) + multiset{x}
    requires forall k :: 0 <= k < |s| ==> s[k].pathname != p
    requires x.pathname != p
    ensures forall i :: 0 <= i < |r| ==> r[i].pathname != p
  {
    forall i | 0 <= i < |r|
      ensures r[i].pathname != p
    {
      MultisetIndex(r, s, x, i);
    }
  }

  /** A row of an insertion result is `x` or a row of `s`. */
  lemma MultisetIndex(r: seq<PageStat>, s: seq<PageStat>, x: PageStat, i: int)
    requires multiset(r) == multiset(s) + multiset{x}
    requires 0 <= i < |r|
    ensures r[i] == x || exists k :: 0 <= k < |s| && s[k] == r[i]
  {
    assert r[i] in multiset(r);
  }

  /** Insertion sort built from `InsertByTotal`: the rows come out in
      non-increasing total, as a permutation of the input. */
  function SortByTotal(q: seq<PageStat>): (r: seq<PageStat>)
    ensures NonIncreasing(r)
    ensures multiset(r) == multiset(q)
  {
    if |q| == 0 then []
    else
      var init := q[..|q| - 1];
      assert q == init + [q[|q| - 1]];
      InsertByTotal(SortByTotal(init), q[|q| - 1])
  }

  /** The sort is stable: the rows with any one total come out in their input order. */
  lemma {:induction false} SortStable(q: seq<PageStat>, n: nat)
    ensures WithTotal(SortByTotal(q), n) == WithTotal(q, n)
  {
    if |q| > 0 {
      var init := q[..|q| - 1];
      SortStable(init, n);
      InsertGroups(SortByTotal(init), q[|q| - 1], n);
    }
  }

  lemma {:induction false} SortSum(q: seq<PageStat>)
    ensures SumTotals(SortByTotal(q)) == SumTotals(q)
  {
    if |q| > 0 {
      var init := q[..|q| - 1];
      SortSum(init);
      InsertSum(SortByTotal(init), q[|q| - 1]);
    }
  }

  lemma {:induction false} SortUnique(q: seq<PageStat>)
    requires UniquePages(q)
    ensures UniquePages(SortByTotal(q))
  {
    if |q| > 0 {
      var init := q[..|q| - 1];
      var x := q[|q| - 1];
      assert q == init + [x];
      SortUnique(init);
      var s := SortByTotal(init);
      forall i | 0 <= i < |s|
        ensures s[i].pathname != x.pathname
      {
        assert s[i] in multiset(s);
        var j :| 0 <= j < |init| && init[j] == s[i];
        assert q[j] == init[j];
      }
      InsertUnique(s, x);
    }
  }

  /** The statistics table `loadAnalytics` computes from a log: one row per
      distinct page, most voted first, the totals adding up to the log length
      (`StatsCorrect` ties each row to the log). */
  function Stats(log: seq<LogEntry>): (st: seq<PageStat>)
    ensures NonIncreasing(st)
    ensures |st| == |FirstAppearances(Pathnames(log))|
    ensures SumTotals(st) == |log|
  {
    StatsShape(log);
    SortByTotal(UnsortedStats(log))
  }

  lemma StatsShape(log: seq<LogEntry>)
    ensures var st := SortByTotal(UnsortedStats(log));
            |st| == |FirstAppearances(Pathnames(log))| && SumTotals(st) == |log|
  {
    var t := Tally(log);
    var u := UnsortedStats(log);
    TallyPages(log);
    assert |t| == |PathsOf(t)|;
    TallySum(log);
    UnsortedSum(t);
    assert u == seq(|t|, i requires 0 <= i < |t| => ToStat(t[i]));
    SortSum(u);
    assert |multiset(SortByTotal(u))| == |multiset(u)|;
  }

  /** The feed: the last `RecentLimit` entries, newest first (`slice(-10).reverse()`). */
  function Recent(log: seq<LogEntry>): (r: seq<LogEntry>)
    ensures |r| == if |log| < RecentLimit then |log| else RecentLimit
    ensures forall i :: 0 <= i < |r| ==> r[i] == log[|log| - 1 - i]
  {
    var tail := if |log| > RecentLimit then log[|log| - RecentLimit..] else log;
    seq(|tail|, i requires 0 <= i < |tail| => tail[|tail| - 1 - i])
  }

  /** Appending a vote puts it at the head of the feed and shifts the rest down. */
  lemma RecentAfterAppend(log: seq<LogEntry>, e: LogEntry)
    ensures Recent(log + [e])[0] == e
    ensures Recent(log + [e])[1..] == Recent(log)[..|Recent(log + [e])| - 1]
  {
    var r := Recent(log + [e]);
    assert r[0] == (log + [e])[|log|];
    forall i | 1 <= i < |r|
      ensures r[i] == Recent(log)[i - 1]
    {
      assert r[i] == (log + [e])[|log| - i];
    }
  }

  // ---------------------------------------------------------------------------
  // The table's promises, all inputs

  /** `stats` has one row per page of the log and no other, its counters are
      the page's positive and other entries, `total` is their sum, the
      satisfaction is the positive share in percent, rows run from the most
      voted page down, and pages with equal totals keep the order of their
      first vote.  The totals add up to the log length. */
  lemma StatsCorrect(log: seq<LogEntry>)
    ensures var st := Stats(log);
            && NonIncreasing(st)
            && UniquePages(st)
            && (forall i :: 0 <= i < |st| ==> st[i].pathname in Pathnames(log))
            && (forall p :: p in Pathnames(log) ==> exists i :: 0 <= i < |st| && st[i].pathname == p)
            && (forall i :: 0 <= i < |st| ==> RowMatchesLog(st[i], log))
            && SumTotals(st) == |log|
  {
    var u := UnsortedStats(log);
    var st := Stats(log);
    UnsortedFacts(log);
    SortUnique(u);
    SortSum(u);
    forall i | 0 <= i < |st|
      ensures st[i].pathname in Pathnames(log) && RowMatchesLog(st[i], log)
    {
      assert st[i] in multiset(st);
      var j :| 0 <= j < |u| && u[j] == st[i];
    }
    forall p | p in Pathnames(log)
      ensures exists i :: 0 <= i < |st| && st[i].pathname == p
    {
      var j :| 0 <= j < |u| && u[j].pathname == p;
      assert u[j] in multiset(st);
      var i :| 0 <= i < |st| && st[i] == u[j];
    }
  }

  /** A row agrees with the log: its counters are the page's positive and
      other entries, `total` is their sum and the number of the page's
      entries, and the satisfaction is the positive share in percent. */
  ghost predicate RowMatchesLog(row: PageStat, log: seq<LogEntry>) {
    && row.positive == CountPositive(log, row.pathname)
    && row.negative == CountNegative(log, row.pathname)
    && row.total == row.positive + row.negative
    && row.total == Occurrences(log, row.pathname)
    && 0.0 <= row.satisfaction <= 100.0
    && row.satisfaction * (row.total as real) == (row.positive as real) * 100.0
  }

  /** The unsorted rows: one per page of the log, each matching the log, and
      their totals add up to the log length. */
  lemma UnsortedFacts(log: seq<LogEntry>)
    ensures var u := UnsortedStats(log);
            && UniquePages(u)
            && (forall j :: 0 <= j < |u| ==> u[j].pathname in Pathnames(log) && RowMatchesLog(u[j], log))
            && (forall p :: p in Pathnames(log) ==> exists j :: 0 <= j < |u| && u[j].pathname == p)
            && SumTotals(u) == |log|
  {
    UnsortedPages(log);
    UnsortedRows(log);
    TallySum(log);
    UnsortedSum(Tally(log));
    var t := Tally(log);
    assert UnsortedStats(log) == seq(|t|, i requires 0 <= i < |t| => ToStat(t[i]));
  }

  lemma UnsortedPages(log: seq<LogEntry>)
    ensures var u := UnsortedStats(log);
            && UniquePages(u)
            && (forall p :: p in Pathnames(log) ==> exists j :: 0 <= j < |u| && u[j].pathname == p)
  {
    var t := Tally(log);
    var u := UnsortedStats(log);
    TallyPages(log);
    forall i, j | 0 <= i < j < |u|
      ensures u[i].pathname != u[j].pathname
    {
      assert u[i].pathname == PathsOf(t)[i] && u[j].pathname == PathsOf(t)[j];
    }
    forall p | p in Pathnames(log)
      ensures exists j :: 0 <= j < |u| && u[j].pathname == p
    {
      assert p in PathsOf(t);
      var j :| 0 <= j < |t| && PathsOf(t)[j] == p;
      assert u[j].pathname == p;
    }
  }

  lemma UnsortedRows(log: seq<LogEntry>)
    ensures var u := UnsortedStats(log);
            forall j :: 0 <= j < |u| ==> u[j].pathname in Pathnames(log) && RowMatchesLog(u[j], log)
  {
    var t := Tally(log);
    var u := UnsortedStats(log);
    TallyPages(log);
    TallyCounts(log);
    forall j | 0 <= j < |u|
      ensures u[j].pathname in Pathnames(log) && RowMatchesLog(u[j], log)
    {
      var c := t[j];
      assert c.pathname == PathsOf(t)[j];
      assert c.pathname in FirstAppearances(Pathnames(log));
      RowOfCount(log, c);
    }
  }

  lemma RowOfCount(log: seq<LogEntry>, c: PageCount)
    requires c.positive == CountPositive(log, c.pathname) && c.negative == CountNegative(log, c.pathname)
    ensures RowMatchesLog(ToStat(c), log)
  {
    VotesPartition(log, c.pathname);
  }

  lemma {:induction false} UnsortedSum(t: seq<PageCount>)
    ensures SumTotals(seq(|t|, i requires 0 <= i < |t| => ToStat(t[i]))) == SumCounts(t)
  {
    if |t| > 0 {
      var u := seq(|t|, i requires 0 <= i < |t| => ToStat(t[i]));
      var init := t[..|t| - 1];
      assert u[..|t| - 1] == seq(|init|, i requires 0 <= i < |init| => ToStat(init[i]));
      UnsortedSum(init);
    }
  }

  /** Ties keep the order in which their pages first received a vote. */
  lemma StatsTiesKeepFirstVoteOrder(log: seq<LogEntry>, n: nat)
    ensures |UnsortedStats(log)| == |FirstAppearances(Pathnames(log))|
    ensures forall i :: 0 <= i < |UnsortedStats(log)| ==>
              UnsortedStats(log)[i].pathname == FirstAppearances(Pathnames(log))[i]
    ensures WithTotal(Stats(log), n) == WithTotal(UnsortedStats(log), n)
  {
    TallyPages(log);
    SortStable(UnsortedStats(log), n);
  }

  /** The log of the worked example below. */
  function ExampleLog(): seq<LogEntry> {
    [LogEntry("/a", "positive", "", ""), LogEntry("/a", "positive", "", ""),
     LogEntry("/a", "negative", "", ""), LogEntry("/b", "positive", "", "")]
  }

  /** One step of the fold, and what it does to a page already counted or
      a new one. */
  lemma AddEntryAt(t: seq<PageCount>, e: LogEntry, i: int)
    requires i == IndexOfPage(t, e.pathname)
    ensures i < 0 ==> AddEntry(t, e) == t + [Bump(PageCount(e.pathname, 0, 0), e.kind)]
    ensures i >= 0 ==> AddEntry(t, e) == t[i := Bump(t[i], e.kind)]
  {
  }

  /** The tally of the example's first entry, then of its first two and
      first three, all on "/a". */
  lemma ExampleTallyOne()
    ensures Tally([LogEntry("/a", "positive", "", "")]) == [PageCount("/a", 1, 0)]
  {
    var e1 := LogEntry("/a", "positive", "", "");
    assert [e1][..0] == [];
    AddEntryAt([], e1, -1);
  }

  lemma ExampleTallyTwo()
    ensures var e1 := LogEntry("/a", "positive", "", "");
            Tally([e1, e1]) == [PageCount("/a", 2, 0)]
  {
    var e1 := LogEntry("/a", "positive", "", "");
    assert [e1, e1][..1] == [e1];
    ExampleTallyOne();
    AddEntryAt([PageCount("/a", 1, 0)], e1, 0);
  }

  lemma ExampleTallyOfA()
    ensures var e1 := LogEntry("/a", "positive", "", "");
            var e3 := LogEntry("/a", "negative", "", "");
            Tally([e1, e1, e3]) == [PageCount("/a", 2, 1)]
  {
    var e1 := LogEntry("/a", "positive", "", "");
    var e3 := LogEntry("/a", "negative", "", "");
    assert [e1, e1, e3][..2] == [e1, e1];
    ExampleTallyTwo();
    AddEntryAt([PageCount("/a", 2, 0)], e3, 0);
  }

  lemma ExampleTally()
    ensures Tally(ExampleLog()) == [PageCount("/a", 2, 1), PageCount("/b", 1, 0)]
  {
    var e1 := LogEntry("/a", "positive", "", "");
    var e3 := LogEntry("/a", "negative", "", "");
    var e4 := LogEntry("/b", "positive", "", "");
    var log := ExampleLog();
    assert log[..3] == [e1, e1, e3] && log[3] == e4;
    ExampleTallyOfA();
    assert Tally(log) == [PageCount("/a", 2, 1), PageCount("/b", 1, 0)] by {
      assert "/b" != "/a";
      assert IndexOfPage([PageCount("/a", 2, 1)], "/b") == -1;
      AddEntryAt([PageCount("/a", 2, 1)], e4, -1);
    }
  }

  lemma ExampleRows()
    ensures ToStat(PageCount("/a", 2, 1)) == PageStat("/a", 2, 1, 3, 200.0 / 3.0)
    ensures ToStat(PageCount("/b", 1, 0)) == PageStat("/b", 1, 0, 1, 100.0)
  {
    var r := Satisfaction(2, 3);
    assert r * 3.0 == 200.0;
  }

  /** A worked example: three votes for "/a" (two positive) and one positive
      vote for "/b" give "/a" first with 2/1/3 and a satisfaction of 200/3
      percent, then "/b" with 1/0/1 and 100 percent. */
  lemma StatsExample()
    ensures Stats(ExampleLog()) == [PageStat("/a", 2, 1, 3, 200.0 / 3.0), PageStat("/b", 1, 0, 1, 100.0)]
  {
    var a := PageStat("/a", 2, 1, 3, 200.0 / 3.0);
    var b := PageStat("/b", 1, 0, 1, 100.0);
    var u := UnsortedStats(ExampleLog());
    assert u == [a, b] by {
      ExampleTally();
      ExampleRows();
    }
    assert SortByTotal([a, b]) == [a, b] by {
      assert [a, b][..1] == [a];
      assert SortByTotal([a]) == [a] by {
        assert [a][..0] == [];
      }
    }
  }

  // ---------------------------------------------------------------------------
  // Loading and clearing

  /** `loadAnalytics`: an absent log key gives an empty table and feed; a key
      holding something that is not an array makes the handler throw (`None`). */
  function LoadAnalytics(store: Store): (r: Option<Analytics>)
    ensures LogKey !in store ==> r == Some(Analytics([], []))
    ensures r.Some? <==> ReadLog(store).Some?
    ensures r.Some? ==> r.value == Analytics(Stats(ReadLog(store).value), Recent(ReadLog(store).value))
  {
    match ReadLog(store)
    case None => None
    case Some(log) =>
      assert |Tally(log)| == 0 ==> UnsortedStats(log) == [];
      Some(Analytics(Stats(log), Recent(log)))
  }

  /** Re-running `loadAnalytics` over the dashboard's store.  A log that is
      not an array makes the effect throw, which takes the dashboard down:
      there is no dashboard afterwards (`None`). */
  function Refresh(d: Dashboard): (r: Option<Dashboard>)
    ensures r.None? <==> ReadLog(d.store).None?
    ensures r.Some? ==> r.value.store == d.store
                        && r.value.view == Analytics(Stats(ReadLog(d.store).value), Recent(ReadLog(d.store).value))
    ensures LogKey !in d.store ==> r == Some(d.(view := Analytics([], [])))
  {
    match LoadAnalytics(d.store)
    case Some(a) => Some(d.(view := a))
    case None => None
  }

  /** Loading twice with no write in between shows the same thing. */
  lemma RefreshIdempotent(d: Dashboard)
    requires Refresh(d).Some?
    ensures Refresh(Refresh(d).value) == Refresh(d)
  {
  }

  /** The mount effect: the dashboard starts empty and loads once; an
      unreadable log leaves no dashboard. */
  function Mount(store: Store): (d: Option<Dashboard>)
    ensures d.Some? <==> ReadLog(store).Some?
    ensures d.Some? ==> d.value.store == store
                        && d.value.view == Analytics(Stats(ReadLog(store).value), Recent(ReadLog(store).value))
  {
    Refresh(Dashboard(Analytics([], []), store))
  }

  /** `clearAnalytics` with the answer of the confirmation prompt: a granted
      confirmation removes the log key, leaves every other key alone and shows
      an empty dashboard, since loading from a store without the log cannot
      fail; a declined one changes nothing. */
  function ClearAnalytics(d: Dashboard, confirmed: bool): (r: Dashboard)
    ensures confirmed ==> LogKey !in r.store && r.view == Analytics([], [])
    ensures confirmed ==> forall k :: k != LogKey ==> (k in r.store <==> k in d.store) && (k in d.store ==> r.store[k] == d.store[k])
    ensures !confirmed ==> r == d
  {
    if confirmed then
      var reloaded := Refresh(d.(store := d.store - {LogKey}));
      assert reloaded.Some?;
      reloaded.value
    else d
  }

  // ---------------------------------------------------------------------------
  // Presentation band

  /** `getSatisfactionColor`: at least 80 is excellent, at least 60 good, at
      least 40 fair, anything lower poor. */
  function SatisfactionBand(satisfaction: real): (b: Band)
    ensures b == Excellent <==> satisfaction >= 80.0
    ensures b == Good <==> 60.0 <= satisfaction < 80.0
    ensures b == Fair <==> 40.0 <= satisfaction < 60.0
    ensures b == Poor <==> satisfaction < 40.0
  {
    if satisfaction >= 80.0 then Excellent
    else if satisfaction >= 60.0 then Good
    else if satisfaction >= 40.0 then Fair
    else Poor
  }

  function BandRank(b: Band): nat
  {
    match b
    case Poor => 0
    case Fair => 1
    case Good => 2
    case Excellent => 3
  }

  /** A higher satisfaction never lands in a lower band. */
  lemma BandMonotone(s1: real, s2: real)
    requires s1 <= s2
    ensures BandRank(SatisfactionBand(s1)) <= BandRank(SatisfactionBand(s2))
  {
  }
}
