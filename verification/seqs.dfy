/** `Array.prototype.filter` and the facts about splitting and regrouping
    sequences its proofs use, stated for any element type so that proofs
    over sequences of strings do not have to compare the strings themselves. */
module Seqs {

  /** Dropping the last element of `a + b` drops the last element of `b`. */
  lemma SnocConcat<T>(a: seq<T>, b: seq<T>)
    requires |b| > 0
    ensures (a + b)[..|a + b| - 1] == a + b[..|b| - 1]
    ensures (a + b)[|a + b| - 1] == b[|b| - 1]
  {
  }

  /** A non-empty sequence is its front followed by its last element. */
  lemma Snoc<T>(xs: seq<T>)
    requires |xs| > 0
    ensures xs == xs[..|xs| - 1] + [xs[|xs| - 1]]
  {
  }

  /** The front and the last element of `a + [x]`. */
  lemma SnocParts<T>(a: seq<T>, x: T)
    ensures (a + [x])[..|a|] == a && (a + [x])[|a|] == x
  {
  }

  lemma Assoc<T>(p: seq<T>, q: seq<T>, r: seq<T>)
    ensures (p + q) + r == p + (q + r)
  {
  }

  /** Cutting a sequence anywhere and gluing the two pieces gives it back. */
  lemma SplitAt<T>(s: seq<T>, k: nat)
    requires k <= |s|
    ensures s[..k] + s[k..] == s
  {
  }

  /** A concatenation starts with its first part and ends with its last. */
  lemma Framed<T>(a: seq<T>, b: seq<T>, c: seq<T>)
    ensures a <= a + b + c
    ensures |c| <= |a + b + c| && (a + b + c)[|a + b + c| - |c|..] == c
  {
  }

  /** `xs.filter(p)`: every kept element passes `p` and comes from `xs`, and
      every element of `xs` that passes is kept; `FilterConcat` and
      `FilterSingle` say that the kept elements stay in order. */
  function Filter<T>(xs: seq<T>, p: T -> bool): (r: seq<T>)
    ensures |r| <= |xs|
    ensures forall j :: 0 <= j < |r| ==> p(r[j]) && r[j] in xs
    ensures forall k :: 0 <= k < |xs| && p(xs[k]) ==> xs[k] in r
    decreases |xs|
  {
    if |xs| == 0 then []
    else
      var init := xs[..|xs| - 1];
      var rest := Filter(init, p);
      var x := xs[|xs| - 1];
      var r := if p(x) then rest + [x] else rest;
      FilterStep(xs, rest, r, p);
      r
  }

  /** One step of `Filter`: if `rest` filters all of `xs` but its last
      element, then `rest`, plus that element when it passes, filters `xs`. */
  lemma FilterStep<T>(xs: seq<T>, rest: seq<T>, r: seq<T>, p: T -> bool)
    requires |xs| > 0
    requires forall j :: 0 <= j < |rest| ==> p(rest[j]) && rest[j] in xs[..|xs| - 1]
    requires forall k :: 0 <= k < |xs| - 1 && p(xs[k]) ==> xs[k] in rest
    requires r == if p(xs[|xs| - 1]) then rest + [xs[|xs| - 1]] else rest
    ensures forall j :: 0 <= j < |r| ==> p(r[j]) && r[j] in xs
    ensures forall k :: 0 <= k < |xs| && p(xs[k]) ==> xs[k] in r
  {
    var init := xs[..|xs| - 1];
    forall j | 0 <= j < |rest| ensures rest[j] in xs {
      assert rest[j] in init;
      var i :| 0 <= i < |init| && init[i] == rest[j];
      assert xs[i] == rest[j];
    }
    forall k | 0 <= k < |xs| - 1 && p(xs[k]) ensures xs[k] in r {
      assert xs[k] == init[k];
    }
  }

  /** Filtering a concatenation concatenates the filtered parts. */
  lemma {:induction false} FilterConcat<T>(a: seq<T>, b: seq<T>, p: T -> bool)
    ensures Filter(a + b, p) == Filter(a, p) + Filter(b, p)
    decreases |b|
  {
    if |b| == 0 {
      assert a + b == a;
    } else {
      var b' := b[..|b| - 1];
      var x := b[|b| - 1];
      var keep: seq<T> := if p(x) then [x] else [];
      FilterConcat(a, b', p);
      SnocConcat(a, b);
      calc {
        Filter(a + b, p);
        Filter(a + b', p) + keep;
        (Filter(a, p) + Filter(b', p)) + keep;
        { Assoc(Filter(a, p), Filter(b', p), keep); }
        Filter(a, p) + (Filter(b', p) + keep);
        { assert b[..|b| - 1] == b'; }
        Filter(a, p) + Filter(b, p);
      }
    }
  }

  /** When nothing passes, nothing is kept. */
  lemma {:induction false} FilterNone<T>(xs: seq<T>, p: T -> bool)
    requires forall k :: 0 <= k < |xs| ==> !p(xs[k])
    ensures Filter(xs, p) == []
    decreases |xs|
  {
    if |xs| > 0 {
      FilterNone(xs[..|xs| - 1], p);
    }
  }

  /** A single element is kept exactly when it passes. */
  lemma FilterSingle<T>(x: T, p: T -> bool)
    ensures Filter([x], p) == if p(x) then [x] else []
  {
    assert [x][..0] == [];
  }
}
