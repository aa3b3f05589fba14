/** String operations the widgets borrow from JavaScript: `trim`, `split` and
    `join` on one separator character, `includes`, `replace` of one character
    by another, and `toLowerCase` restricted to ASCII letters.  Strings are
    sequences of Unicode scalar values. */
module Text {

  /** WhiteSpace and LineTerminator of ECMA-262 as inclusive code-point
      ranges: tab to carriage return, space, no-break space, ogham space mark,
      the spaces U+2000 to U+200A, line and paragraph separator, narrow
      no-break space, medium mathematical space, ideographic space, and the
      byte order mark. */
  const WhitespaceRanges: seq<(int, int)> := [
    (0x09, 0x0D), (0x20, 0x20), (0xA0, 0xA0), (0x1680, 0x1680), (0x2000, 0x200A),
    (0x2028, 0x2029), (0x202F, 0x202F), (0x205F, 0x205F), (0x3000, 0x3000), (0xFEFF, 0xFEFF)
  ]

  /** Code point `n` lies in one of the ranges from index `k` on. */
  predicate InWhitespaceRanges(n: int, k: nat)
    decreases |WhitespaceRanges| - k
  {
    k < |WhitespaceRanges|
    && (WhitespaceRanges[k].0 <= n <= WhitespaceRanges[k].1 || InWhitespaceRanges(n, k + 1))
  }

  /** What `String.prototype.trim` removes from either end. */
  predicate IsJsWhitespace(c: char) {
    InWhitespaceRanges(c as int, 0)
  }

  predicate AllWhitespace(s: string) {
    forall k :: 0 <= k < |s| ==> IsJsWhitespace(s[k])
  }

  /** Every character of `s` at an index in `[lo, hi)` is whitespace. */
  predicate WhitespaceBetween(s: string, lo: int, hi: int) {
    forall k :: lo <= k < hi && 0 <= k < |s| ==> IsJsWhitespace(s[k])
  }

  /** `s` with its leading whitespace removed: a suffix of `s`. */
  function TrimStart(s: string): (r: string)
    ensures |r| <= |s| && r == s[|s| - |r|..]
    ensures WhitespaceBetween(s, 0, |s| - |r|)
    ensures r == [] || !IsJsWhitespace(r[0])
    decreases |s|
  {
    if |s| > 0 && IsJsWhitespace(s[0]) then TrimStart(s[1..]) else s
  }

  /** `s` with its trailing whitespace removed: a prefix of `s`. */
  function TrimEnd(s: string): (r: string)
    ensures |r| <= |s| && r == s[..|r|]
    ensures WhitespaceBetween(s, |r|, |s|)
    ensures r == [] || !IsJsWhitespace(r[|r| - 1])
    decreases |s|
  {
    if |s| > 0 && IsJsWhitespace(s[|s| - 1]) then TrimEnd(s[..|s| - 1]) else s
  }

  /** JavaScript's `s.trim()`: a prefix of what is left after dropping the
      leading whitespace, neither starting nor ending with whitespace;
      `TrimTail` says that only whitespace follows it. */
  function Trim(s: string): (r: string)
    ensures |r| <= |TrimStart(s)| <= |s|
    ensures r == TrimStart(s)[..|r|]
    ensures r == [] || (!IsJsWhitespace(r[0]) && !IsJsWhitespace(r[|r| - 1]))
  {
    TrimHead(s);
    TrimEnd(TrimStart(s))
  }

  lemma TrimHead(s: string)
    ensures var r := TrimEnd(TrimStart(s));
            r == [] || !IsJsWhitespace(r[0])
  {
    var t := TrimStart(s);
    var r := TrimEnd(t);
    if r != [] {
      assert r[0] == t[0];
    }
  }

  /** Everything after the trimmed slice is whitespace. */
  lemma TrimTail(s: string)
    ensures var i := |s| - |TrimStart(s)|;
            WhitespaceBetween(s, i + |Trim(s)|, |s|)
  {
    var t := TrimStart(s);
    var i := |s| - |t|;
    assert t == s[i..];
    assert Trim(s) == TrimEnd(t);
    assert forall k :: i <= k < |s| ==> t[k - i] == s[k];
  }

  /** A text trims to nothing exactly when it is all whitespace. */
  lemma TrimBlank(s: string)
    ensures Trim(s) == [] <==> AllWhitespace(s)
  {
    var t := TrimStart(s);
    var i := |s| - |t|;
    assert t == s[i..];
  }

  lemma {:induction false} TrimIdempotent(s: string)
    ensures Trim(Trim(s)) == Trim(s)
  {
    var r := Trim(s);
    if r != [] {
      assert TrimStart(r) == r;
      assert TrimEnd(r) == r;
    }
  }

  /** Index of the first occurrence of `c` in `s`, or -1. */
  function IndexOf(s: string, c: char): (i: int)
    ensures -1 <= i < |s|
    ensures i >= 0 ==> s[i] == c && c !in s[..i]
    ensures i < 0 <==> c !in s
    decreases |s|
  {
    if |s| == 0 then -1
    else if s[0] == c then 0
    else
      var j := IndexOf(s[1..], c);
      if j < 0 then -1
      else
        assert s[..j + 1] == [s[0]] + s[1..][..j];
        j + 1
  }

  /** JavaScript's `parts.join(sep)`. */
  function Join(parts: seq<string>, sep: string): string
    decreases |parts|
  {
    if |parts| == 0 then []
    else if |parts| == 1 then parts[0]
    else parts[0] + sep + Join(parts[1..], sep)
  }

  /** JavaScript's `s.split(sep)` for a one-character separator: there is
      always at least one part, no part holds the separator, and joining the
      parts back with the separator gives `s`. */
  function Split(s: string, sep: char): (parts: seq<string>)
    ensures |parts| >= 1
    ensures forall k :: 0 <= k < |parts| ==> sep !in parts[k]
    ensures Join(parts, [sep]) == s
    decreases |s|
  {
    var i := IndexOf(s, sep);
    if i < 0 then [s]
    else
      var rest := Split(s[i + 1..], sep);
      assert s == s[..i] + [sep] + s[i + 1..];
      [s[..i]] + rest
  }

  /** The other half of the round trip: splitting a join gives the parts back. */
  lemma {:induction false} SplitJoin(parts: seq<string>, sep: char)
    requires |parts| >= 1
    requires forall k :: 0 <= k < |parts| ==> sep !in parts[k]
    ensures Split(Join(parts, [sep]), sep) == parts
    decreases |parts|
  {
    if |parts| > 1 {
      var s := Join(parts, [sep]);
      var p := parts[0];
      assert s == p + [sep] + Join(parts[1..], [sep]);
      assert s[..|p|] == p;
      assert s[|p|] == sep;
      assert IndexOf(s, sep) == |p|;
      assert s[|p| + 1..] == Join(parts[1..], [sep]);
      SplitJoin(parts[1..], sep);
    } else {
      assert sep !in parts[0];
    }
  }

  /** Splitting separates the text before the first separator from everything
      after it, and the later parts rejoin to exactly that remainder. */
  lemma SplitFirst(s: string, sep: char)
    ensures var i := IndexOf(s, sep);
            var parts := Split(s, sep);
            && (i < 0 <==> |parts| == 1)
            && (i < 0 ==> parts[0] == s)
            && (i >= 0 ==> parts[0] == s[..i] && Join(parts[1..], [sep]) == s[i + 1..])
  {
  }

  /** JavaScript's `s.includes(t)`: `t` occurs as a contiguous slice of `s`. */
  predicate Contains(s: string, t: string)
    decreases |s|
  {
    |t| <= |s| && (s[..|t|] == t || (|s| > 0 && Contains(s[1..], t)))
  }

  lemma {:induction false} ContainsMiddle(a: string, t: string, b: string)
    ensures Contains(a + t + b, t)
    decreases |a|
  {
    var s := a + t + b;
    if |a| == 0 {
      assert s[..|t|] == t;
    } else {
      assert s[1..] == a[1..] + t + b;
      ContainsMiddle(a[1..], t, b);
    }
  }

  /** An occurrence survives text added after it. */
  lemma {:induction false} ContainsAppend(s: string, t: string, u: string)
    requires Contains(s, t)
    ensures Contains(s + u, t)
    decreases |s|
  {
    if s[..|t|] == t {
      assert (s + u)[..|t|] == t;
    } else {
      assert (s + u)[1..] == s[1..] + u;
      ContainsAppend(s[1..], t, u);
    }
  }

  /** An occurrence survives text added before it. */
  lemma {:induction false} ContainsPrepend(a: string, s: string, t: string)
    requires Contains(s, t)
    ensures Contains(a + s, t)
    decreases |a|
  {
    if |a| > 0 {
      assert (a + s)[1..] == a[1..] + s;
      ContainsPrepend(a[1..], s, t);
      assert |t| <= |a[1..] + s| < |a + s|;
    } else {
      assert a + s == s;
    }
  }

  /** Every character of an occurring slice is a character of the text. */
  lemma {:induction false} ContainsChar(s: string, t: string, c: char)
    requires Contains(s, t)
    requires c in t
    ensures c in s
    decreases |s|
  {
    if s[..|t|] == t {
      var k :| 0 <= k < |t| && t[k] == c;
      assert s[k] == c;
    } else {
      ContainsChar(s[1..], t, c);
    }
  }

  /** `s.replace(/from/g, to)` for single characters. */
  function ReplaceChar(s: string, from: char, to: char): (r: string)
    ensures |r| == |s|
    ensures forall k :: 0 <= k < |s| && s[k] != from ==> r[k] == s[k]
    ensures forall k :: 0 <= k < |s| && s[k] == from ==> r[k] == to
    ensures from != to ==> from !in r
  {
    seq(|s|, k requires 0 <= k < |s| => if s[k] == from then to else s[k])
  }

  predicate IsAsciiUpper(c: char) { 'A' <= c <= 'Z' }

  function LowerChar(c: char): (d: char)
    ensures !IsAsciiUpper(d)
    ensures IsAsciiUpper(c) ==> d as int == c as int + 32
    ensures !IsAsciiUpper(c) ==> d == c
  {
    if IsAsciiUpper(c) then (c as int + 32) as char else c
  }

  /** `s.toLowerCase()` on the ASCII letters; every other character is kept. */
  function Lower(s: string): (r: string)
    ensures |r| == |s|
    ensures forall k :: 0 <= k < |s| ==> r[k] == LowerChar(s[k])
    ensures forall k :: 0 <= k < |r| ==> !IsAsciiUpper(r[k])
  {
    seq(|s|, k requires 0 <= k < |s| => LowerChar(s[k]))
  }

  lemma LowerIdentity(s: string)
    requires forall k :: 0 <= k < |s| ==> !IsAsciiUpper(s[k])
    ensures Lower(s) == s
  {
  }

  /** A character of a lower-cased text comes from the same character or from
      its upper-case form. */
  lemma LowerChars(s: string, c: char)
    requires c in Lower(s)
    ensures c in s || (('a' <= c <= 'z') && (c as int - 32) as char in s)
  {
    var k :| 0 <= k < |s| && Lower(s)[k] == c;
  }
}
