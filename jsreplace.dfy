/**
 * `String.prototype.replace` with a global regular expression, as the
 * JavaScript engine runs it: the expression is tried at each position from
 * left to right; a match is replaced and the scan resumes where the match
 * ended; text where nothing matches is copied.  The expression is seen only
 * through its matches, so one engine serves every replacement of the model.
 */
module JsReplace {
  import opened Util

  /** A match: where it ends and what replaces it. */
  datatype Match = Match(end: nat, replacement: string)

  /** A regular expression seen through its matches: at each position, no match or where it ends and what replaces it. */
  type Matcher = (string, nat) -> Option<Match>

  /** Every match in `s` is non-empty and ends inside `s`. */
  predicate Advances(f: Matcher, s: string)
  {
    forall i: nat :: i <= |s| && f(s, i).Some? ==> i < f(s, i).value.end <= |s|
  }

  /** The replacement of every match from position `p` on. */
  function Scan(f: Matcher, s: string, p: nat): string
    requires p <= |s| && Advances(f, s)
    decreases |s| - p
  {
    if p == |s| then []
    else
      match f(s, p)
      case Some(m) => m.replacement + Scan(f, s, m.end)
      case None => [s[p]] + Scan(f, s, p + 1)
  }

  /** Where nothing matches, the text is kept. */
  lemma {:induction false} ScanKeeps(f: Matcher, s: string, p: nat)
    requires p <= |s| && Advances(f, s)
    requires forall i: nat :: p <= i < |s| ==> f(s, i).None?
    ensures Scan(f, s, p) == s[p..]
    decreases |s| - p
  {
    if p < |s| {
      ScanKeeps(f, s, p + 1);
      assert s[p..] == [s[p]] + s[p + 1..];
    }
  }

  /** A replacement draws its characters from the text it replaces. */
  predicate FromMatched(r: Option<Match>, s: string, p: nat)
    requires p <= |s|
  {
    r.Some? && p <= r.value.end <= |s| ==> forall c :: c in r.value.replacement ==> c in s[p..r.value.end]
  }

  /** If every replacement draws its characters from what it replaces, the result holds only characters of the text. */
  lemma {:induction false} ScanChars(f: Matcher, s: string, p: nat)
    requires p <= |s| && Advances(f, s)
    requires forall i: nat :: p <= i < |s| ==> FromMatched(f(s, i), s, i)
    ensures forall c :: c in Scan(f, s, p) ==> c in s[p..]
    decreases |s| - p
  {
    if p < |s| {
      var e := if f(s, p).Some? then f(s, p).value.end else p + 1;
      var emitted := if f(s, p).Some? then f(s, p).value.replacement else [s[p]];
      ScanChars(f, s, e);
      assert Scan(f, s, p) == emitted + Scan(f, s, e);
      assert FromMatched(f(s, p), s, p);
      assert s[p..] == s[p..e] + s[e..];
      forall c | c in Scan(f, s, p) ensures c in s[p..] {
        if c in emitted {
          assert c in s[p..e];
        } else {
          assert c in s[e..];
        }
      }
    }
  }

  /** A match found in a suffix, seen from a text with `n` more characters in front. */
  function Shifted(r: Option<Match>, n: nat): Option<Match>
  {
    match r
    case None => None
    case Some(m) => Some(Match(m.end + n, m.replacement))
  }

  /** Where the matches of a text from `n` on are those of its suffix `b`, so is the replacement. */
  lemma {:induction false} ScanShift(f: Matcher, s: string, b: string, n: nat, i: nat)
    requires n <= |s| && s[n..] == b && i <= |b| && Advances(f, s) && Advances(f, b)
    requires forall j: nat :: i <= j < |b| ==> f(s, n + j) == Shifted(f(b, j), n)
    ensures Scan(f, s, n + i) == Scan(f, b, i)
    decreases |b| - i
  {
    if i < |b| {
      var p := n + i;
      assert s[p] == b[i];
      assert f(s, p) == Shifted(f(b, i), n);
      match f(b, i)
      case None =>
        ScanShift(f, s, b, n, i + 1);
        assert Scan(f, s, p) == [s[p]] + Scan(f, s, p + 1);
      case Some(m) =>
        ScanShift(f, s, b, n, m.end);
        assert Scan(f, s, p) == m.replacement + Scan(f, s, n + m.end);
    }
  }

  /**
   * A first match up to `e`, no match at `e`, and matches from `e + 1` on as
   * in the suffix `b`: the replacement, the character at `e`, and `b`
   * replaced on its own.
   */
  lemma {:induction false} ScanFirstThenRest(f: Matcher, s: string, e: nat, x: string, b: string)
    requires e < |s| && s[e + 1..] == b && Advances(f, s) && Advances(f, b)
    requires f(s, 0) == Some(Match(e, x)) && f(s, e).None?
    requires forall j: nat :: j < |b| ==> f(s, e + 1 + j) == Shifted(f(b, j), e + 1)
    ensures Scan(f, s, 0) == x + [s[e]] + Scan(f, b, 0)
  {
    assert Scan(f, s, 0) == x + Scan(f, s, e);
    assert Scan(f, s, e) == [s[e]] + Scan(f, s, e + 1);
    ScanShift(f, s, b, e + 1, 0);
  }

  /**
   * How the scan of `a + [t] + b` treats position `j` of `a`: as the scan
   * of `a` alone does, with a match that stays inside `a`; or, at the end
   * of `a`, with no match; or with a match spanning `t` that ends as the
   * first match of `b` does, where nothing of `a` from `j` on matches.
   */
  predicate SplitAgrees(f: Matcher, a: string, t: char, b: string, j: nat)
    requires j <= |a| && Advances(f, a)
  {
    var s := a + [t] + b;
    || (j < |a| && f(s, j) == f(a, j) && (f(a, j).Some? ==> f(a, j).value.end <= |a|))
    || (j == |a| && f(s, j).None?)
    || (Scan(f, a, j) == a[j..] && f(b, 0).Some?
        && f(s, j) == Some(Match(|a| + 1 + f(b, 0).value.end, a[j..] + [t] + f(b, 0).value.replacement)))
  }

  /** If every position of `a` agrees and `b` is scanned as on its own, the scan splits at `t`. */
  lemma {:induction false} ScanSplit(f: Matcher, a: string, t: char, b: string, p: nat)
    requires p <= |a| && Advances(f, a) && Advances(f, b) && Advances(f, a + [t] + b)
    requires forall j: nat :: j < |b| ==> f(a + [t] + b, |a| + 1 + j) == Shifted(f(b, j), |a| + 1)
    requires forall j: nat :: p <= j <= |a| ==> SplitAgrees(f, a, t, b, j)
    ensures Scan(f, a + [t] + b, p) == Scan(f, a, p) + [t] + Scan(f, b, 0)
    decreases |a| - p, 1
  {
    var s := a + [t] + b;
    assert SplitAgrees(f, a, t, b, p);
    if p < |a| && f(s, p) == f(a, p) && (f(a, p).Some? ==> f(a, p).value.end <= |a|) {
      ScanSplitInside(f, a, t, b, p);
    } else if p == |a| && f(s, p).None? {
      ScanSplitEnd(f, a, t, b);
    } else {
      var m := f(b, 0).value;
      assert s[|a| + 1..] == b;
      ScanShift(f, s, b, |a| + 1, m.end);
      ScanSplitSpan(f, a, t, b, p);
    }
  }

  /** A position of `a` where the scan of the whole text matches as the scan of `a` does. */
  lemma {:induction false} ScanSplitInside(f: Matcher, a: string, t: char, b: string, p: nat)
    requires p < |a| && Advances(f, a) && Advances(f, b) && Advances(f, a + [t] + b)
    requires forall j: nat :: j < |b| ==> f(a + [t] + b, |a| + 1 + j) == Shifted(f(b, j), |a| + 1)
    requires forall j: nat :: p <= j <= |a| ==> SplitAgrees(f, a, t, b, j)
    requires f(a + [t] + b, p) == f(a, p) && (f(a, p).Some? ==> f(a, p).value.end <= |a|)
    ensures Scan(f, a + [t] + b, p) == Scan(f, a, p) + [t] + Scan(f, b, 0)
    decreases |a| - p, 0
  {
    var s := a + [t] + b;
    match f(a, p)
    case None =>
      assert s[p] == a[p];
      ScanSplit(f, a, t, b, p + 1);
      assert Scan(f, s, p) == [s[p]] + Scan(f, s, p + 1);
      assert Scan(f, a, p) == [a[p]] + Scan(f, a, p + 1);
    case Some(m) =>
      ScanSplit(f, a, t, b, m.end);
      assert Scan(f, s, p) == m.replacement + Scan(f, s, m.end);
      assert Scan(f, a, p) == m.replacement + Scan(f, a, m.end);
  }

  /** The end of `a`, where nothing matches: `t` is copied and `b` follows. */
  lemma {:induction false} ScanSplitEnd(f: Matcher, a: string, t: char, b: string)
    requires Advances(f, a) && Advances(f, b) && Advances(f, a + [t] + b)
    requires forall j: nat :: j < |b| ==> f(a + [t] + b, |a| + 1 + j) == Shifted(f(b, j), |a| + 1)
    requires f(a + [t] + b, |a|).None?
    ensures Scan(f, a + [t] + b, |a|) == Scan(f, a, |a|) + [t] + Scan(f, b, 0)
  {
    var s := a + [t] + b;
    var n := |a| + 1;
    assert s[n..] == b;
    ScanShift(f, s, b, n, 0);
    assert s[|a|] == t;
    assert Scan(f, s, |a|) == [t] + Scan(f, s, n);
  }

  /** A match spanning `t` that ends as the first match of `b` does, after a stretch of `a` where nothing matches. */
  lemma {:induction false} ScanSplitSpan(f: Matcher, a: string, t: char, b: string, p: nat)
    requires p <= |a| && Advances(f, a) && Advances(f, b) && Advances(f, a + [t] + b)
    requires Scan(f, a, p) == a[p..] && f(b, 0).Some?
    requires f(a + [t] + b, p) == Some(Match(|a| + 1 + f(b, 0).value.end, a[p..] + [t] + f(b, 0).value.replacement))
    requires Scan(f, a + [t] + b, |a| + 1 + f(b, 0).value.end) == Scan(f, b, f(b, 0).value.end)
    ensures Scan(f, a + [t] + b, p) == Scan(f, a, p) + [t] + Scan(f, b, 0)
  {
    var s := a + [t] + b;
    var m := f(b, 0).value;
    var x := a[p..] + [t];
    var ms := Match(|a| + 1 + m.end, x + m.replacement);
    assert Scan(f, s, p) == ms.replacement + Scan(f, s, ms.end);
    var rest := Scan(f, b, m.end);
    assert Scan(f, b, 0) == m.replacement + rest;
    assert (x + m.replacement) + rest == x + (m.replacement + rest);
  }

}
