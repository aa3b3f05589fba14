/** The table-of-contents sidebar: heading extraction with generated ids, the
    active entry set by clicking a link, collapse, and the reading-progress
    bar.  Section visibility reports reach the component but never change
    its state. */
module TocSidebar {
  import opened Optional
  import opened Text
  import Seqs

  /** Characters the slug keeps: lower-case ASCII letters and digits. */
  predicate IsSlugChar(c: char) {
    (0x61 <= c as int <= 0x7A) || (0x30 <= c as int <= 0x39)
  }

  predicate AllSlugChars(s: string) {
    forall i :: 0 <= i < |s| ==> IsSlugChar(s[i])
  }

  predicate NoSlugChars(s: string) {
    forall i :: 0 <= i < |s| ==> !IsSlugChar(s[i])
  }

  /** `s` without its leading run of characters outside `[a-z0-9]`. */
  function SkipSeparators(s: string): (r: string)
    ensures |r| <= |s|
    ensures r == [] || IsSlugChar(r[0])
    ensures |s| > 0 && !IsSlugChar(s[0]) ==> |r| < |s|
    decreases |s|
  {
    if |s| > 0 && !IsSlugChar(s[0]) then SkipSeparators(s[1..]) else s
  }

  /** What `SkipSeparators` keeps is a suffix of the text, and everything it
      drops lies outside `[a-z0-9]`. */
  lemma {:induction false} SkipSuffix(s: string)
    ensures var r := SkipSeparators(s);
            && r == s[|s| - |r|..]
            && forall i :: 0 <= i < |s| - |r| ==> !IsSlugChar(s[i])
    decreases |s|
  {
    if |s| > 0 && !IsSlugChar(s[0]) {
      SkipSuffix(s[1..]);
      assert forall i :: 1 <= i < |s| ==> s[i] == s[1..][i - 1];
    }
  }

  /** The leading run of characters in `[a-z0-9]`. */
  function TakeWord(s: string): (w: string)
    ensures |w| <= |s| && w == s[..|w|]
    ensures AllSlugChars(w)
    ensures |w| == |s| || !IsSlugChar(s[|w|])
    ensures |s| > 0 && IsSlugChar(s[0]) ==> |w| > 0
    decreases |s|
  {
    if |s| > 0 && IsSlugChar(s[0]) then [s[0]] + TakeWord(s[1..]) else []
  }

  /** `replace(/[^a-z0-9]+/g, '-')`: every maximal run of characters outside
      `[a-z0-9]` becomes a single dash. */
  function CollapseSeparators(s: string): (r: string)
    ensures |r| <= |s|
    ensures forall i :: 0 <= i < |r| ==> IsSlugChar(r[i]) || r[i] == '-'
    decreases |s|
  {
    if |s| == 0 then []
    else if IsSlugChar(s[0]) then [s[0]] + CollapseSeparators(s[1..])
    else
      "-" + CollapseSeparators(SkipSeparators(s))
  }

  /** `replace(/(^-|-$)/g, '')`: a dash at the start and a dash at the end
      are removed. */
  function StripEdgeDashes(s: string): (r: string)
    ensures |r| <= |s| <= |r| + 2
    ensures |s| == 0 || (s[0] != '-' && s[|s| - 1] != '-') ==> r == s
    ensures |s| >= 2 && s[0] == '-' && s[|s| - 1] == '-' ==> r == s[1..|s| - 1]
  {
    var u := if |s| > 0 && s[0] == '-' then s[1..] else s;
    if |u| > 0 && u[|u| - 1] == '-' then u[..|u| - 1] else u
  }

  /** The id generated for a heading without one: lower-case the text,
      collapse runs of other characters into dashes, strip edge dashes.  The
      result is the lowered text's maximal runs of `[a-z0-9]` joined by single
      dashes, and so a slug. */
  function Slugify(text: string): (r: string)
    ensures r == Join(Words(Lower(text)), "-")
    ensures IsSlug(r)
  {
    CollapseShape(Lower(text));
    StripShape(Lower(text));
    JoinWordsIsSlug(Words(Lower(text)));
    StripEdgeDashes(CollapseSeparators(Lower(text)))
  }

  /** A non-empty run of `[a-z0-9]`. */
  predicate IsWord(w: string) {
    |w| > 0 && AllSlugChars(w)
  }

  predicate AllWords(ws: seq<string>) {
    forall k :: 0 <= k < |ws| ==> IsWord(ws[k])
  }

  lemma AllWordsCons(w: string, ws: seq<string>)
    requires IsWord(w) && AllWords(ws)
    ensures AllWords([w] + ws)
  {
    assert forall k :: 0 < k < |[w] + ws| ==> ([w] + ws)[k] == ws[k - 1];
  }

  /** The reference reading of a text: its maximal runs of `[a-z0-9]`, in
      order. */
  function Words(s: string): (ws: seq<string>)
    ensures AllWords(ws)
    ensures |ws| == 0 <==> |SkipSeparators(s)| == 0
    decreases |s|
  {
    var t := SkipSeparators(s);
    if |t| == 0 then []
    else
      var w := TakeWord(t);
      var rest := Words(t[|w|..]);
      AllWordsCons(w, rest);
      [w] + rest
  }

  /** A well-formed slug: letters, digits and single dashes between them. */
  predicate IsSlug(s: string) {
    && (forall i :: 0 <= i < |s| ==> IsSlugChar(s[i]) || s[i] == '-')
    && (|s| > 0 ==> s[0] != '-' && s[|s| - 1] != '-')
    && (forall i, j :: 0 <= i < |s| && 0 <= j < |s| && j == i + 1 ==> s[i] != '-' || s[j] != '-')
  }

  lemma {:induction false} CollapseWord(w: string, rest: string)
    requires AllSlugChars(w)
    ensures CollapseSeparators(w + rest) == w + CollapseSeparators(rest)
    decreases |w|
  {
    if |w| > 0 {
      var x := w + rest;
      ConsSplit(w, rest);
      CollapseWord(w[1..], rest);
      calc {
        CollapseSeparators(x);
        [w[0]] + CollapseSeparators(x[1..]);
        [w[0]] + (w[1..] + CollapseSeparators(rest));
        { ConsSplit(w, CollapseSeparators(rest)); }
        w + CollapseSeparators(rest);
      }
    } else {
      ConsSplit(w, rest);
    }
  }

  lemma ConsSplit(w: string, rest: string)
    ensures |w| > 0 ==> (w + rest)[0] == w[0] && (w + rest)[1..] == w[1..] + rest
    ensures |w| > 0 ==> [w[0]] + (w[1..] + rest) == w + rest
    ensures |w| == 0 ==> w + rest == rest
  {
  }

  lemma WordsSkip(s: string)
    ensures Words(s) == Words(SkipSeparators(s))
  {
    var t := SkipSeparators(s);
    assert SkipSeparators(t) == t;
  }

  lemma WordsEmpty(s: string)
    requires |Words(s)| == 0
    ensures NoSlugChars(s)
  {
    SkipSuffix(s);
  }

  /** A dash when `b` holds, nothing otherwise. */
  function DashIf(b: bool): string {
    if b then "-" else ""
  }

  /** A dash stands for the run of other characters that starts the text. */
  function Lead(s: string): string {
    DashIf(|s| > 0 && !IsSlugChar(s[0]))
  }

  /** A dash stands for the run of other characters that ends the text,
      unless the text has no word at all (then `Lead` already stands for it). */
  function Trail(s: string): string {
    DashIf(|s| > 0 && |Words(s)| > 0 && !IsSlugChar(s[|s| - 1]))
  }

  lemma Reassoc(a: string, b: string, c: string, d: string)
    ensures a + (b + c + d) == a + b + c + d
    ensures b == [] ==> a + (b + c + d) == a + c + d
  {
  }

  lemma JoinCons(w: string, ws: seq<string>, sep: string)
    requires |ws| > 0
    ensures Join([w] + ws, sep) == w + sep + Join(ws, sep)
  {
    assert ([w] + ws)[1..] == ws;
  }

  predicate CollapseShaped(s: string) {
    CollapseSeparators(s) == Lead(s) + Join(Words(s), "-") + Trail(s)
  }

  lemma Unframe(x: string, y: string)
    ensures [] + x + [] == x
    ensures [] + x + y == x + y
    ensures x + ([] + [] + []) == x
  {
  }

  /** Dropping the leading separators keeps the closing dash. */
  lemma SkipKeepsTrail(s: string)
    requires |SkipSeparators(s)| > 0
    ensures Trail(s) == Trail(SkipSeparators(s))
  {
    var t := SkipSeparators(s);
    WordsSkip(s);
    var n := |s| - |t|;
    SkipSuffix(s);
    assert t == s[n..];
    assert t[|t| - 1] == s[n..][|t| - 1] == s[|s| - 1];
    assert (|Words(s)| > 0 && !IsSlugChar(s[|s| - 1])) == (|Words(t)| > 0 && !IsSlugChar(t[|t| - 1]));
  }

  /** The step of `CollapseShape` for a text starting with a separator run. */
  lemma ShapeAfterSeparators(s: string)
    requires |s| > 0 && !IsSlugChar(s[0])
    requires CollapseShaped(SkipSeparators(s))
    ensures CollapseShaped(s)
  {
    var t := SkipSeparators(s);
    WordsSkip(s);
    assert CollapseSeparators(s) == "-" + CollapseSeparators(t);
    if |t| == 0 {
      assert Trail(s) == "";
      calc {
        CollapseSeparators(s);
        "-" + [];
        { Unframe("-", []); }
        Lead(s) + [] + Trail(s);
      }
    } else {
      SkipKeepsTrail(s);
      calc {
        CollapseSeparators(s);
        "-" + (Lead(t) + Join(Words(t), "-") + Trail(t));
        { Reassoc("-", Lead(t), Join(Words(t), "-"), Trail(t)); }
        Lead(s) + Join(Words(s), "-") + Trail(s);
      }
    }
  }

  /** A text starting with a word: the word, then the rest. */
  lemma WordSplit(s: string)
    requires |s| > 0 && IsSlugChar(s[0])
    ensures var w := TakeWord(s);
            var rest := s[|w|..];
            && CollapseSeparators(s) == w + CollapseSeparators(rest)
            && Words(s) == [w] + Words(rest)
            && Lead(s) == ""
            && (|rest| == 0 ==> Words(rest) == [] && Trail(s) == "")
            && (|rest| > 0 ==> Lead(rest) == "-" && rest[|rest| - 1] == s[|s| - 1])
  {
    CollapseAtWord(s);
    WordsAtWord(s);
    EdgesAtWord(s);
  }

  /** Collapsing a text that opens with a word keeps the word. */
  lemma CollapseAtWord(s: string)
    requires |s| > 0 && IsSlugChar(s[0])
    ensures CollapseSeparators(s) == TakeWord(s) + CollapseSeparators(s[|TakeWord(s)|..])
  {
    var w := TakeWord(s);
    Seqs.SplitAt(s, |w|);
    CollapseWord(w, s[|w|..]);
  }

  /** A text that opens with a word has no leading dash; what follows the
      word, if anything, opens with one and ends where the text ends. */
  lemma EdgesAtWord(s: string)
    requires |s| > 0 && IsSlugChar(s[0])
    ensures var w := TakeWord(s);
            var rest := s[|w|..];
            && Lead(s) == ""
            && (|rest| == 0 ==> Words(rest) == [] && Trail(s) == "")
            && (|rest| > 0 ==> Lead(rest) == "-" && rest[|rest| - 1] == s[|s| - 1])
  {
    var w := TakeWord(s);
    var rest := s[|w|..];
    if |rest| == 0 {
      assert s[|s| - 1] == w[|w| - 1];
    } else {
      assert rest[0] == s[|w|];
    }
  }

  /** A separator followed by a word character is skipped alone. */
  lemma SkipOneDash(s: string)
    requires |s| > 1 && !IsSlugChar(s[0]) && IsSlugChar(s[1])
    ensures SkipSeparators(s) == s[1..]
  {
    assert SkipSeparators(s[1..]) == s[1..];
  }

  /** The words of a text that starts with a word: that word, then the words
      of what follows it. */
  lemma WordsAtWord(s: string)
    requires |s| > 0 && IsSlugChar(s[0])
    ensures Words(s) == [TakeWord(s)] + Words(s[|TakeWord(s)|..])
  {
    assert SkipSeparators(s) == s;
  }

  /** The step of `CollapseShape` for a text starting with a word. */
  lemma ShapeAfterWord(s: string)
    requires |s| > 0 && IsSlugChar(s[0])
    requires var w := TakeWord(s); |w| < |s| ==> CollapseShaped(s[|w|..])
    ensures CollapseShaped(s)
  {
    var w := TakeWord(s);
    var rest := s[|w|..];
    WordSplit(s);
    if |rest| == 0 {
      assert CollapseSeparators(rest) == [];
      assert Words(s) == [w];
      ShapeOneWord(s, w);
    } else if |Words(rest)| == 0 {
      ShapeWordThenSeparators(s, w, rest);
    } else {
      ShapeWordThenWords(s, w, rest);
    }
  }

  lemma ShapeWordThenSeparators(s: string, w: string, rest: string)
    requires |s| > 0
    requires |rest| > 0 && |Words(rest)| == 0 && CollapseShaped(rest)
    requires CollapseSeparators(s) == w + CollapseSeparators(rest)
    requires Words(s) == [w] + Words(rest) && Lead(s) == "" && Lead(rest) == "-"
    requires rest[|rest| - 1] == s[|s| - 1]
    ensures CollapseShaped(s)
  {
    WordsEmpty(rest);
    assert Words(rest) == [];
    assert Trail(s) == "-";
    assert Trail(rest) == "";
    calc {
      CollapseSeparators(s);
      w + ("-" + [] + []);
      { Unframe("-", []); }
      w + "-";
      { Unframe(w, "-"); }
      Lead(s) + Join([w], "-") + Trail(s);
    }
  }

  lemma ShapeWordThenWords(s: string, w: string, rest: string)
    requires |s| > 0
    requires |rest| > 0 && |Words(rest)| > 0 && CollapseShaped(rest)
    requires CollapseSeparators(s) == w + CollapseSeparators(rest)
    requires Words(s) == [w] + Words(rest) && Lead(s) == "" && Lead(rest) == "-"
    requires rest[|rest| - 1] == s[|s| - 1]
    ensures CollapseShaped(s)
  {
    var jr := Join(Words(rest), "-");
    var tr := Trail(rest);
    assert Join(Words(s), "-") == w + "-" + jr by {
      JoinCons(w, Words(rest), "-");
    }
    assert CollapseSeparators(rest) == "-" + jr + tr;
    FrameAfterWord(CollapseSeparators(s), CollapseSeparators(rest), w, Join(Words(s), "-"), jr, tr);
    TrailAfterWord(s, w, rest);
  }

  /** A text and its tail after the first word end alike. */
  lemma TrailAfterWord(s: string, w: string, rest: string)
    requires |s| > 0 && |rest| > 0 && |Words(rest)| > 0
    requires Words(s) == [w] + Words(rest) && rest[|rest| - 1] == s[|s| - 1]
    ensures Trail(s) == Trail(rest)
  {
  }

  /** A text that is one word collapses to that word. */
  lemma ShapeOneWord(s: string, w: string)
    requires CollapseSeparators(s) == w + [] && Words(s) == [w] && Lead(s) == "" && Trail(s) == ""
    ensures CollapseShaped(s)
  {
    Unframe(w, []);
  }

  /** The concatenation step of `ShapeWordThenWords`: a word in front of a
      dash-led collapse is the word joined to the rest's words. */
  lemma FrameAfterWord(c: string, cr: string, w: string, j: string, jr: string, tr: string)
    requires c == w + cr && cr == "-" + jr + tr && j == w + "-" + jr
    ensures c == "" + j + tr
  {
    Reassoc(w, "-", jr, tr);
    Unframe(j, tr);
  }

  /** Collapsing gives the words joined by single dashes, with one more dash
      for separators at either end. */
  lemma {:induction false} CollapseShape(s: string)
    ensures CollapseSeparators(s) == Lead(s) + Join(Words(s), "-") + Trail(s)
    decreases |s|
  {
    if |s| == 0 {
      assert |Words(s)| == 0;
    } else if !IsSlugChar(s[0]) {
      CollapseShape(SkipSeparators(s));
      ShapeAfterSeparators(s);
    } else {
      var w := TakeWord(s);
      if |w| < |s| {
        CollapseShape(s[|w|..]);
      }
      ShapeAfterWord(s);
    }
  }

  /** Joining non-empty words of `[a-z0-9]` with dashes gives a slug that
      starts and ends with a word character. */
  lemma {:induction false} JoinWordsIsSlug(ws: seq<string>)
    requires AllWords(ws)
    ensures var j := Join(ws, "-");
            && IsSlug(j)
            && (|ws| > 0 <==> |j| > 0)
            && (|j| > 0 ==> IsSlugChar(j[0]) && IsSlugChar(j[|j| - 1]))
    decreases |ws|
  {
    if |ws| > 1 {
      var w := ws[0];
      var j' := Join(ws[1..], "-");
      JoinWordsIsSlug(ws[1..]);
      var j := w + "-" + j';
      assert Join(ws, "-") == j;
      forall i | 0 <= i < |j|
        ensures IsSlugChar(j[i]) || j[i] == '-'
      {
        if i > |w| {
          assert j[i] == j'[i - |w| - 1];
        }
      }
      forall i, k | 0 <= i && k == i + 1 && k < |j|
        ensures j[i] != '-' || j[k] != '-'
      {
        if i > |w| {
          assert j[i] == j'[i - |w| - 1];
          assert j[i + 1] == j'[i - |w|];
        }
      }
    }
  }

  /** Stripping one dash from each end of a framed slug gives the slug back. */
  lemma StripFrame(j: string, lead: bool, trail: bool)
    requires j == [] ==> !trail
    requires |j| > 0 ==> j[0] != '-' && j[|j| - 1] != '-'
    ensures StripEdgeDashes(DashIf(lead) + j + DashIf(trail)) == j
  {
    var x := DashIf(lead) + j + DashIf(trail);
    var u := j + DashIf(trail);
    if lead {
      assert x == ['-'] + u;
      assert x[1..] == u;
    } else {
      assert x == u;
    }
    if trail {
      assert u[|u| - 1] == '-';
      assert u[..|u| - 1] == j;
    } else {
      assert u == j;
    }
  }

  /** Stripping the edge dashes leaves exactly the joined words. */
  lemma StripShape(s: string)
    ensures StripEdgeDashes(Lead(s) + Join(Words(s), "-") + Trail(s)) == Join(Words(s), "-")
  {
    var j := Join(Words(s), "-");
    JoinWordsIsSlug(Words(s));
    StripFrame(j, |s| > 0 && !IsSlugChar(s[0]), |s| > 0 && |Words(s)| > 0 && !IsSlugChar(s[|s| - 1]));
  }

  /** A slug is its words joined back by dashes. */
  lemma {:induction false} SlugWords(s: string)
    requires IsSlug(s)
    ensures Join(Words(s), "-") == s
    ensures |s| > 0 ==> |Words(s)| > 0
    decreases |s|
  {
    if |s| > 0 {
      var w := TakeWord(s);
      assert IsSlugChar(s[0]) by {
        assert s[0] == '-' || IsSlugChar(s[0]);
      }
      if |w| < |s| {
        var s2 := s[|w| + 1..];
        assert && s[|w|] == '-' && |w| + 1 < |s| && IsSlugChar(s[|w| + 1])
               && Join(Words(s2), "-") == s2 && |Words(s2)| > 0 by {
          SlugRest(s, w);
          SlugWords(s2);
        }
      }
      SlugWordsStep(s);
    } else {
      assert Words(s) == [];
    }
  }

  /** The step of `SlugWords`: a text opening with a word, followed either by
      nothing or by a dash and a text that its words rejoin, is rejoined by
      its own words. */
  lemma SlugWordsStep(s: string)
    requires |s| > 0 && IsSlugChar(s[0])
    requires var w := TakeWord(s);
             |w| < |s| ==> && s[|w|] == '-' && |w| + 1 < |s| && IsSlugChar(s[|w| + 1])
                           && Join(Words(s[|w| + 1..]), "-") == s[|w| + 1..]
                           && |Words(s[|w| + 1..])| > 0
    ensures Join(Words(s), "-") == s
    ensures |Words(s)| > 0
  {
    if |TakeWord(s)| == |s| {
      SlugWordsLastWord(s);
    } else {
      SlugWordsMoreWords(s);
    }
  }

  /** A text that is one word is rejoined by its words. */
  lemma SlugWordsLastWord(s: string)
    requires |s| > 0 && IsSlugChar(s[0]) && |TakeWord(s)| == |s|
    ensures Join(Words(s), "-") == s && |Words(s)| > 0
  {
    var w := TakeWord(s);
    var rest := s[|w|..];
    assert Words(s) == [w] by {
      WordsAtWord(s);
      assert Words(rest) == [];
    }
    assert s == w;
  }

  /** A word, a dash and a text rejoined by its words is rejoined by its
      words. */
  lemma SlugWordsMoreWords(s: string)
    requires |s| > 0 && IsSlugChar(s[0])
    requires var w := TakeWord(s);
             && |w| < |s| && s[|w|] == '-' && |w| + 1 < |s| && IsSlugChar(s[|w| + 1])
             && Join(Words(s[|w| + 1..]), "-") == s[|w| + 1..]
             && |Words(s[|w| + 1..])| > 0
    ensures Join(Words(s), "-") == s && |Words(s)| > 0
  {
    var w := TakeWord(s);
    WordsThroughDash(s);
    JoinAtDash(s, |w|, Words(s), Words(s[|w| + 1..]));
  }

  /** The words of a word, a dash and a text opening with a word: that word,
      then the words after the dash. */
  lemma WordsThroughDash(s: string)
    requires |s| > 0 && IsSlugChar(s[0])
    requires var w := TakeWord(s);
             && |w| + 1 < |s| && s[|w|] == '-' && IsSlugChar(s[|w| + 1])
    ensures Words(s) == [TakeWord(s)] + Words(s[|TakeWord(s)| + 1..])
  {
    var w := TakeWord(s);
    var rest := s[|w|..];
    assert Words(s) == [w] + Words(rest) by {
      WordsAtWord(s);
    }
    assert Words(rest) == Words(s[|w| + 1..]) by {
      assert rest[1..] == s[|w| + 1..];
      SkipOneDash(rest);
      WordsSkip(rest);
    }
  }

  /** Cutting a text at a dash and putting the dash back gives the text. */
  lemma DashRejoin(s: string, k: nat)
    requires k < |s| && s[k] == '-'
    ensures s[..k] + "-" + s[k + 1..] == s
  {
    var rest := s[k..];
    assert rest[1..] == s[k + 1..];
    DashSplit(s[..k], rest);
    Seqs.SplitAt(s, k);
  }

  /** A list whose head is the text before a dash and whose tail rejoins the
      text after it rejoins the whole text. */
  lemma JoinAtDash(s: string, k: nat, x: seq<string>, ws: seq<string>)
    requires k < |s| && s[k] == '-'
    requires x == [s[..k]] + ws && |ws| > 0 && Join(ws, "-") == s[k + 1..]
    ensures Join(x, "-") == s && |x| > 0
  {
    JoinCons(s[..k], ws, "-");
    DashRejoin(s, k);
  }

  lemma DashSplit(w: string, rest: string)
    requires |rest| > 0 && rest[0] == '-'
    ensures w + "-" + rest[1..] == w + rest
  {
    assert rest == [rest[0]] + rest[1..];
  }

  /** In a slug, what follows the first word, if anything, is a dash and
      another slug. */
  lemma SlugRest(s: string, w: string)
    requires IsSlug(s) && |s| > 0 && IsSlugChar(s[0]) && w == TakeWord(s) && |w| < |s|
    ensures s[|w|] == '-' && |w| + 1 < |s| && IsSlugChar(s[|w| + 1]) && IsSlug(s[|w| + 1..])
  {
    assert IsSlugChar(s[|w|]) || s[|w|] == '-';
    assert s[|s| - 1] != '-';
    SlugSuffix(s, |w| + 1);
  }

  /** The text after a dash of a slug is a slug that opens with a word
      character. */
  lemma SlugSuffix(s: string, k: nat)
    requires IsSlug(s) && 0 < k < |s| && s[k - 1] == '-'
    ensures IsSlugChar(s[k]) && IsSlug(s[k..])
  {
    assert s[k - 1] != '-' || s[k] != '-';
    assert s[k] == '-' || IsSlugChar(s[k]);
    var t := s[k..];
    forall i, j | 0 <= i < |t| && 0 <= j < |t| && j == i + 1
      ensures t[i] != '-' || t[j] != '-'
    {
      assert t[i] == s[k + i] && t[j] == s[k + j];
    }
  }

  /** A text is its own generated id exactly when it is already a slug. */
  lemma SlugifyFixpoint(s: string)
    ensures Slugify(s) == s <==> IsSlug(s)
  {
    if IsSlug(s) {
      LowerIdentity(s);
      SlugWords(s);
    }
  }

  /** Generating an id from a generated id changes nothing. */
  lemma SlugifyIdempotent(text: string)
    ensures Slugify(Slugify(text)) == Slugify(text)
  {
    SlugifyFixpoint(Slugify(text));
  }

  /** Upper-case ASCII letters give the same id as their lower-case forms. */
  lemma SlugifyIgnoresCase(text: string)
    ensures Slugify(Lower(text)) == Slugify(text)
  {
    LowerIdentity(Lower(text));
  }

  datatype HeadingTag = H2 | H3 | H4

  function TagName(t: HeadingTag): string {
    match t
    case H2 => "H2"
    case H3 => "H3"
    case H4 => "H4"
  }

  /** `parseInt(tagName.charAt(1))`: the digit after the `H`; writing the
      level back after an `H` gives the tag name again. */
  function Level(t: HeadingTag): (l: int)
    ensures 2 <= l <= 4
    ensures TagName(t) == "H" + [('0' as int + l) as char]
  {
    TagName(t)[1] as int - '0' as int
  }

  /** A heading element of the page: its tag, its `id` attribute (empty when
      absent) and its text content. */
  datatype HeadingElement = HeadingElement(tag: HeadingTag, id: string, text: string)

  datatype TocItem = TocItem(id: string, text: string, level: int)

  /** The id a heading ends up with: its own, or one generated from its text. */
  function HeadingId(e: HeadingElement): (id: string)
    ensures e.id != [] ==> id == e.id
    ensures e.id == [] ==> IsSlug(id) && id == Join(Words(Lower(e.text)), "-")
  {
    if e.id != [] then e.id else Slugify(e.text)
  }

  datatype Extraction = Extraction(items: seq<TocItem>, elements: seq<HeadingElement>)

  /** `extractHeadings`: outside a browser nothing; otherwise one item per
      matched heading, in document order, and every heading without an id
      is given the generated one. */
  function ExtractHeadings(inBrowser: bool, elements: seq<HeadingElement>): (r: Extraction)
    ensures !inBrowser ==> r == Extraction([], elements)
    ensures inBrowser ==> |r.items| == |elements| && |r.elements| == |elements|
    ensures inBrowser ==> forall k :: 0 <= k < |elements| ==>
              && r.items[k] == TocItem(HeadingId(elements[k]), elements[k].text, Level(elements[k].tag))
              && r.elements[k] == elements[k].(id := r.items[k].id)
  {
    if !inBrowser then Extraction([], elements)
    else
      Extraction(
        seq(|elements|, k requires 0 <= k < |elements| =>
          TocItem(HeadingId(elements[k]), elements[k].text, Level(elements[k].tag))),
        seq(|elements|, k requires 0 <= k < |elements| => elements[k].(id := HeadingId(elements[k]))))
  }

  /** Extraction is stable: running it again on the page it left behind
      changes neither the items nor the page. */
  lemma ExtractAgain(elements: seq<HeadingElement>)
    ensures var once := ExtractHeadings(true, elements);
            ExtractHeadings(true, once.elements) == once
  {
    var once := ExtractHeadings(true, elements);
    var twice := ExtractHeadings(true, once.elements);
    forall k | 0 <= k < |elements|
      ensures twice.items[k] == once.items[k] && twice.elements[k] == once.elements[k]
    {
      var e := elements[k];
      if e.id == [] && HeadingId(e) == [] {
        SlugifyFixpoint([]);
        assert Lower([]) == [];
      }
    }
  }

  /** Index of the first item whose id is `id`, or -1. */
  function FindIndex(items: seq<TocItem>, id: string): (i: int)
    ensures -1 <= i < |items|
    ensures i >= 0 ==> items[i].id == id && forall k :: 0 <= k < i ==> items[k].id != id
    ensures i < 0 <==> forall k :: 0 <= k < |items| ==> items[k].id != id
    decreases |items|
  {
    if |items| == 0 then -1
    else if items[0].id == id then 0
    else
      var j := FindIndex(items[1..], id);
      if j < 0 then -1 else j + 1
  }

  /** `a` out of `n` as a percentage lies in `[0, 100]`, and is at an end of
      that range exactly when `a` is. */
  lemma Percent(a: int, n: int)
    requires 0 <= a <= n && n > 0
    ensures var p := (a as real / n as real) * 100.0;
            && 0.0 <= p <= 100.0
            && (p == 0.0 <==> a == 0)
            && (p == 100.0 <==> a == n)
  {
    var q := a as real / n as real;
    assert q * n as real == a as real;
    assert q <= 1.0 by {
      if q > 1.0 {
        assert q * n as real > n as real;
      }
    }
    assert q == 1.0 <==> a == n;
  }

  /** The width of the progress bar, in percent: the position of the active
      entry over the number of entries. */
  function Progress(items: seq<TocItem>, activeId: string): (p: real)
    ensures 0.0 <= p <= 100.0
    ensures p == 0.0 <==> forall k :: 0 <= k < |items| ==> items[k].id != activeId
    ensures |items| > 0 ==> (p == 100.0 <==> FindIndex(items, activeId) == |items| - 1)
    ensures |items| > 0 ==> p == ((FindIndex(items, activeId) + 1) as real / |items| as real) * 100.0
  {
    if |items| > 0 then
      var i := FindIndex(items, activeId);
      Percent(i + 1, |items|);
      ((i + 1) as real / |items| as real) * 100.0
    else 0.0
  }

  /** At mount the active id is empty, and it matches a heading whose
      generated id is empty: with such a heading first of two, the bar starts
      half full. */
  lemma MountProgressOnEmptyId()
    ensures Progress([TocItem("", "???", 2), TocItem("a", "A", 2)], "") == 50.0
  {
    assert FindIndex([TocItem("", "???", 2), TocItem("a", "A", 2)], "") == 0;
  }

  /** Left padding of an entry, in pixels. */
  function Indent(level: int): (px: int)
    ensures px % 12 == 0
    ensures level >= 1 ==> px >= 0
  {
    (level - 1) * 12
  }

  /** Deeper headings are indented further, by twelve pixels a level. */
  lemma IndentSteps(level: int)
    ensures Indent(level + 1) == Indent(level) + 12
    ensures Indent(2) == 12 && Indent(3) == 24 && Indent(4) == 36
  {
  }

  datatype TocState = TocState(activeId: string, isCollapsed: bool, hash: string)

  /** `document.getElementById(id)` finds an element: the page has an element
      with that id, and the id is not empty (the empty id never matches). */
  predicate Found(id: string, pageIds: set<string>) {
    id != "" && id in pageIds
  }

  /** Clicking the link of `id`: when `getElementById` finds the element the
      location hash becomes `#id` and the entry becomes active; otherwise
      (an id absent from the page, or the empty id generated for a heading
      with no letter or digit) nothing changes. */
  function HandleClick(s: TocState, id: string, pageIds: set<string>): (r: TocState)
    ensures id != "" && id in pageIds ==> r.activeId == id && r.hash == "#" + id && r.isCollapsed == s.isCollapsed
    ensures id == "" || id !in pageIds ==> r == s
  {
    if Found(id, pageIds) then s.(activeId := id, hash := "#" + id) else s
  }

  /** A heading with no letter or digit, such as "???", is given the empty
      id, and clicking its link changes nothing even when the empty id is
      among the page's ids: `getElementById('')` finds no element. */
  lemma SymbolHeadingClickIgnored(s: TocState, pageIds: set<string>)
    ensures HeadingId(HeadingElement(H2, "", "???")) == ""
    ensures HandleClick(s, HeadingId(HeadingElement(H2, "", "???")), pageIds) == s
  {
    var t := "???";
    LowerIdentity(t);
    assert forall i :: 0 <= i < |t| ==> !IsSlugChar(t[i]);
    assert |SkipSeparators(t)| == 0;
  }

  function ToggleCollapse(s: TocState): (r: TocState)
    ensures r.isCollapsed != s.isCollapsed
    ensures r.activeId == s.activeId && r.hash == s.hash
  {
    s.(isCollapsed := !s.isCollapsed)
  }

  lemma ToggleTwice(s: TocState)
    ensures ToggleCollapse(ToggleCollapse(s)) == s
  {
  }

  datatype RenderedItem = RenderedItem(id: string, text: string, indent: int, active: bool)

  datatype View = View(collapsed: bool, entries: seq<RenderedItem>, progress: real)

  /** The rendered sidebar: nothing for an empty heading list; otherwise one
      entry per heading, active exactly when its id is the active id. */
  function Render(items: seq<TocItem>, s: TocState): (v: Option<View>)
    ensures v.None? <==> |items| == 0
    ensures v.Some? ==> && v.value.collapsed == s.isCollapsed
                        && |v.value.entries| == |items|
                        && v.value.progress == Progress(items, s.activeId)
    ensures v.Some? ==> forall k :: 0 <= k < |items| ==>
              && v.value.entries[k].id == items[k].id
              && v.value.entries[k].indent == Indent(items[k].level)
              && (v.value.entries[k].active <==> items[k].id == s.activeId)
  {
    if |items| == 0 then None
    else
      Some(View(s.isCollapsed,
        seq(|items|, k requires 0 <= k < |items| =>
          RenderedItem(items[k].id, items[k].text, Indent(items[k].level), items[k].id == s.activeId)),
        Progress(items, s.activeId)))
  }

  /** Clicking the link of the `k`-th entry, when its id is first used there,
      fills the bar to `(k + 1) / n` of its width. */
  lemma ClickProgress(items: seq<TocItem>, k: nat, s: TocState, pageIds: set<string>)
    requires k < |items| && items[k].id in pageIds
    requires forall j :: 0 <= j < k ==> items[j].id != items[k].id
    ensures items[k].id != "" ==> Progress(items, HandleClick(s, items[k].id, pageIds).activeId)
                                  == ((k + 1) as real / |items| as real) * 100.0
    ensures items[k].id == "" ==> HandleClick(s, items[k].id, pageIds) == s
  {
    assert FindIndex(items, items[k].id) == k;
  }

  datatype Event = ClickLink(id: string) | ToggleButton | SectionInView(id: string)

  /** One event.  A section scrolling into view is only logged. */
  function Step(s: TocState, e: Event, pageIds: set<string>): (r: TocState)
    ensures e.SectionInView? ==> r == s
    ensures e.ToggleButton? ==> r == ToggleCollapse(s)
    ensures e.ClickLink? ==> r == HandleClick(s, e.id, pageIds)
  {
    match e
    case ClickLink(id) => HandleClick(s, id, pageIds)
    case ToggleButton => ToggleCollapse(s)
    case SectionInView(_) => s
  }

  function Run(s: TocState, events: seq<Event>, pageIds: set<string>): TocState
    decreases |events|
  {
    if |events| == 0 then s else Run(Step(s, events[0], pageIds), events[1..], pageIds)
  }

  /** The active entry only ever changes through a click: after any events,
      it is the one before or the id of a clicked link present on the page. */
  lemma {:induction false} ActiveOnlyFromClicks(s: TocState, events: seq<Event>, pageIds: set<string>)
    ensures var a := Run(s, events, pageIds).activeId;
            a == s.activeId || exists k :: 0 <= k < |events| && events[k] == ClickLink(a) && a in pageIds && a != ""
    decreases |events|
  {
    if |events| > 0 {
      var s1 := Step(s, events[0], pageIds);
      ActiveOnlyFromClicks(s1, events[1..], pageIds);
      var a := Run(s, events, pageIds).activeId;
      if a != s.activeId {
        if a == s1.activeId {
          assert events[0] == ClickLink(a);
        } else {
          var k :| 0 <= k < |events[1..]| && events[1..][k] == ClickLink(a) && a in pageIds && a != "";
          assert events[k + 1] == ClickLink(a);
        }
      }
    }
  }
}
