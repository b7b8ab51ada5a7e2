/**
 * The markdown text helpers of src/utils/markdownUtils.ts: wrapping a
 * selection, toggling a line prefix, the first-heading title and the word
 * count.  Regular expressions are modelled with JavaScript's own semantics:
 * `\s` includes the line terminators and, under the `m` flag, `^` and `$`
 * match next to any line terminator.
 */
module Markdown {
  import opened Util

  // ---------------------------------------------------------------------
  // wrapSelection
  // ---------------------------------------------------------------------

  /** A position in `String.prototype.slice`: negative counts from the end, then clamped to the string. */
  function SliceIndex(len: nat, i: int): (r: nat)
    ensures r <= len
    ensures 0 <= i <= len ==> r == i
  {
    if i < 0 then (if len + i < 0 then 0 else len + i) else if i > len then len else i
  }

  /** `s.slice(start, end)`. */
  function JsSlice(s: string, start: int, end: int): (r: string)
    ensures 0 <= start <= end <= |s| ==> r == s[start..end]
    ensures |r| <= |s|
  {
    var a := SliceIndex(|s|, start);
    var b := SliceIndex(|s|, end);
    if a < b then s[a..b] else ""
  }

  datatype Selection = Selection(from: int, to: int)

  datatype Wrapped = Wrapped(content: string, newSelection: Selection)

  predicate InRange(content: string, sel: Selection)
  {
    0 <= sel.from <= sel.to <= |content|
  }

  function WrapSelection(content: string, selection: Selection, wrapper: string): (r: Wrapped)
    ensures r.newSelection == Selection(selection.from + |wrapper|, selection.to + |wrapper|)
    ensures InRange(content, selection) ==>
              |r.content| == |content| + 2 * |wrapper|
              && InRange(r.content, r.newSelection)
              && r.content[r.newSelection.from..r.newSelection.to] == content[selection.from..selection.to]
  {
    var before := JsSlice(content, 0, selection.from);
    var selected := JsSlice(content, selection.from, selection.to);
    var after := JsSlice(content, selection.to, |content|);
    Wrapped(before + wrapper + selected + wrapper + after,
            Selection(selection.from + |wrapper|, selection.to + |wrapper|))
  }

  /** In `a + w + m + w + b`, with `a` ending at `from` and `m` at `to`, both copies of `w` sit at their offsets. */
  lemma WrappedPieces(a: string, w: string, m: string, b: string, from: nat, to: nat)
    requires from == |a| && to == |a| + |m|
    ensures var x := a + w + m + w + b;
            && x[from..from + |w|] == w
            && x[to + |w|..to + 2 * |w|] == w
            && x[..from] + x[from + |w|..to + |w|] + x[to + 2 * |w|..] == a + m + b
  {
    var x := a + w + m + w + b;
    assert x == a + (w + (m + (w + b)));
    assert x[..from] == a;
    assert x[from + |w|..to + |w|] == m;
    assert x[to + 2 * |w|..] == b;
  }

  /** The wrapper sits on both sides of the new selection; cutting both copies out gives the text back. */
  lemma UnwrapSelection(content: string, selection: Selection, wrapper: string)
    requires InRange(content, selection)
    ensures var r := WrapSelection(content, selection, wrapper);
            var from := selection.from;
            var to := selection.to;
            && r.content[from..from + |wrapper|] == wrapper
            && r.content[to + |wrapper|..to + 2 * |wrapper|] == wrapper
            && r.content[..from] + r.content[from + |wrapper|..to + |wrapper|] + r.content[to + 2 * |wrapper|..] == content
  {
    var from, to := selection.from, selection.to;
    WrapContent(content, selection, wrapper);
    WrappedPieces(content[..from], wrapper, content[from..to], content[to..], from, to);
    ThreeSlices(content, from, to);
  }

  lemma WrapContent(content: string, selection: Selection, wrapper: string)
    requires InRange(content, selection)
    ensures WrapSelection(content, selection, wrapper).content
            == content[..selection.from] + wrapper + content[selection.from..selection.to] + wrapper + content[selection.to..]
  {
  }

  lemma ThreeSlices(s: string, i: nat, j: nat)
    requires i <= j <= |s|
    ensures s[..i] + s[i..j] + s[j..] == s
  {
    assert s[..i] + s[i..j] == s[..j];
    assert s[..j] + s[j..] == s;
  }

  /** The bold example: `hello` of `hello world` becomes `**hello**`, selected at 2..7. */
  lemma WrapBoldExample()
    ensures WrapSelection("hello world", Selection(0, 5), "**") == Wrapped("**hello** world", Selection(2, 7))
  {
    assert JsSlice("hello world", 0, 0) == "";
    assert JsSlice("hello world", 0, 5) == "hello";
    assert JsSlice("hello world", 5, 11) == " world";
  }

  // ---------------------------------------------------------------------
  // prependLine
  // ---------------------------------------------------------------------

  /** The offset of line `i`: the lengths of the lines before it, each with its newline. */
  function Offset(lines: seq<string>, i: nat): nat
    requires i <= |lines|
  {
    if i == 0 then 0 else Offset(lines, i - 1) + |lines[i - 1]| + 1
  }

  /** Line `i` reaches `position`: the loop's exit test. */
  predicate Reaches(lines: seq<string>, i: nat, position: int)
    requires i < |lines|
  {
    Offset(lines, i) + |lines[i]| >= position
  }

  /** The first line at or after `i` that reaches `position`, if any. */
  function FindLine(lines: seq<string>, position: int, i: nat): (r: Option<nat>)
    requires i <= |lines|
    ensures r.Some? ==> i <= r.value < |lines| && Reaches(lines, r.value, position)
                        && forall k :: i <= k < r.value ==> !Reaches(lines, k, position)
    ensures r.None? ==> forall k :: i <= k < |lines| ==> !Reaches(lines, k, position)
    decreases |lines| - i
  {
    if i == |lines| then None
    else if Reaches(lines, i, position) then Some(i)
    else FindLine(lines, position, i + 1)
  }

  datatype Prepended = Prepended(content: string, newPosition: int)

  /** The line `prependLine` edits: the first that reaches `position`, or line 0 when none does. */
  function ChosenLine(lines: seq<string>, position: int): (idx: nat)
    requires |lines| >= 1
    ensures idx < |lines|
  {
    var found := FindLine(lines, position, 0);
    if found.Some? then found.value else 0
  }

  /** `charCount` when the loop ends: the chosen line's offset, or the whole count when no line was chosen. */
  function CharCount(lines: seq<string>, position: int): nat
    requires |lines| >= 1
  {
    var found := FindLine(lines, position, 0);
    if found.Some? then Offset(lines, found.value) else Offset(lines, |lines|)
  }

  /** The result of `prependLine`: the chosen line loses the prefix when it has it and gains it otherwise. */
  function Toggle(content: string, position: int, prefix: string): (r: Prepended)
  {
    var lines := Split(content, '\n');
    var idx := ChosenLine(lines, position);
    if StartsWith(lines[idx], prefix) then
      Prepended(Join(lines[idx := lines[idx][|prefix|..]], '\n'), Max(position - |prefix|, CharCount(lines, position)))
    else
      Prepended(Join(lines[idx := prefix + lines[idx]], '\n'), position + |prefix|)
  }

  function Max(a: int, b: int): int
  {
    if a >= b then a else b
  }

  method PrependLine(content: string, position: int, prefix: string) returns (r: Prepended)
    ensures r == Toggle(content, position, prefix)
  {
    var lines := Split(content, '\n');
    var charCount := 0;
    var lineIndex := 0;
    var i := 0;
    while i < |lines|
      invariant 0 <= i <= |lines| && charCount == Offset(lines, i) && lineIndex == 0
      invariant FindLine(lines, position, 0) == FindLine(lines, position, i)
    {
      if charCount + |lines[i]| >= position {
        lineIndex := i;
        break;
      }
      charCount := charCount + |lines[i]| + 1;
      i := i + 1;
    }
    assert lineIndex == ChosenLine(lines, position) && charCount == CharCount(lines, position);
    if StartsWith(lines[lineIndex], prefix) {
      lines := lines[lineIndex := lines[lineIndex][|prefix|..]];
      return Prepended(Join(lines, '\n'), Max(position - |prefix|, charCount));
    }
    lines := lines[lineIndex := prefix + lines[lineIndex]];
    r := Prepended(Join(lines, '\n'), position + |prefix|);
  }

  /** The offsets of `[p0] + rest` are those of `rest` moved past `p0` and its newline. */
  lemma {:induction false} OffsetCons(p0: string, rest: seq<string>, i: nat)
    requires i <= |rest|
    ensures Offset([p0] + rest, i + 1) == |p0| + 1 + Offset(rest, i)
    decreases i
  {
    if i > 0 {
      OffsetCons(p0, rest, i - 1);
      assert ([p0] + rest)[i] == rest[i - 1];
    }
  }

  /** The joined text is one character shorter than the offset past the last line. */
  lemma {:induction false} JoinLength(parts: seq<string>)
    requires |parts| >= 1
    ensures |Join(parts, '\n')| + 1 == Offset(parts, |parts|)
    decreases |parts|
  {
    if |parts| > 1 {
      JoinLength(parts[1..]);
      OffsetCons(parts[0], parts[1..], |parts| - 1);
      assert [parts[0]] + parts[1..] == parts;
    }
  }

  /** Line `i` of the joined text starts at `Offset(parts, i)`, right after a newline unless it is the first. */
  lemma {:induction false} LineAt(parts: seq<string>, i: nat)
    requires i < |parts|
    ensures var j := Join(parts, '\n');
            var o := Offset(parts, i);
            && o + |parts[i]| <= |j|
            && j[o..o + |parts[i]|] == parts[i]
            && (i > 0 ==> j[o - 1] == '\n')
    decreases |parts|
  {
    var j := Join(parts, '\n');
    if i == 0 {
      if |parts| > 1 {
        assert j == parts[0] + ['\n'] + Join(parts[1..], '\n');
      }
    } else {
      var rest := Join(parts[1..], '\n');
      assert j == parts[0] + ['\n'] + rest;
      LineAt(parts[1..], i - 1);
      OffsetCons(parts[0], parts[1..], i - 1);
      assert [parts[0]] + parts[1..] == parts;
      var o := Offset(parts[1..], i - 1);
      assert Offset(parts, i) == |parts[0]| + 1 + o;
      assert j[|parts[0]| + 1..] == rest;
    }
  }

  /** The lines after the edit: the same number, all but the chosen one unchanged, the chosen one toggled. */
  lemma ToggledLines(content: string, position: int, prefix: string)
    requires '\n' !in prefix
    ensures var lines := Split(content, '\n');
            var idx := ChosenLine(lines, position);
            var out := Split(Toggle(content, position, prefix).content, '\n');
            && |out| == |lines|
            && (forall k :: 0 <= k < |lines| && k != idx ==> out[k] == lines[k])
            && out[idx] == if StartsWith(lines[idx], prefix) then lines[idx][|prefix|..] else prefix + lines[idx]
  {
    var lines := Split(content, '\n');
    var idx := ChosenLine(lines, position);
    var line := if StartsWith(lines[idx], prefix) then lines[idx][|prefix|..] else prefix + lines[idx];
    assert '\n' !in line by {
      if StartsWith(lines[idx], prefix) {
        assert forall c :: c in line ==> c in lines[idx];
      }
    }
    SplitJoin(lines[idx := line], '\n');
  }

  /**
   * When some line reaches the position (always so for a position inside the
   * text), the chosen line is the first one that does, and the removal branch
   * clamps the new position at that line's start.
   */
  lemma ChosenLineStart(content: string, position: int)
    requires position <= |content|
    ensures var lines := Split(content, '\n');
            var idx := ChosenLine(lines, position);
            var start := CharCount(lines, position);
            && Reaches(lines, idx, position)
            && (forall k :: 0 <= k < idx ==> !Reaches(lines, k, position))
            && start == Offset(lines, idx)
            && start + |lines[idx]| <= |content| && content[start..start + |lines[idx]|] == lines[idx]
            && (start == 0 || content[start - 1] == '\n')
  {
    var lines := Split(content, '\n');
    ChosenReaches(content, position);
    JoinSplit(content, '\n');
    var idx := ChosenLine(lines, position);
    LineAt(lines, idx);
  }

  /** Offsets depend only on the lines before. */
  lemma {:induction false} OffsetSamePrefix(a: seq<string>, b: seq<string>, i: nat)
    requires i <= |a| && i <= |b| && a[..i] == b[..i]
    ensures Offset(a, i) == Offset(b, i)
    decreases i
  {
    if i > 0 {
      assert a[..i - 1] == a[..i][..i - 1] && b[..i - 1] == b[..i][..i - 1];
      assert a[i - 1] == a[..i][i - 1] && b[i - 1] == b[..i][i - 1];
      OffsetSamePrefix(a, b, i - 1);
    }
  }

  /** Lengthening the chosen line keeps it the first one that reaches the position. */
  lemma ChosenAfterGrowth(lines: seq<string>, idx: nat, position: int, longer: string)
    requires idx < |lines| && |longer| >= |lines[idx]|
    requires Reaches(lines, idx, position) && forall k :: 0 <= k < idx ==> !Reaches(lines, k, position)
    ensures ChosenLine(lines[idx := longer], position) == idx
  {
    var lines2 := lines[idx := longer];
    forall k | 0 <= k < idx
      ensures !Reaches(lines2, k, position)
    {
      assert lines2[..k] == lines[..k];
      OffsetSamePrefix(lines2, lines, k);
      assert lines2[k] == lines[k] && !Reaches(lines, k, position);
    }
    assert lines2[..idx] == lines[..idx];
    OffsetSamePrefix(lines2, lines, idx);
    assert Reaches(lines2, idx, position);
  }

  /** Toggling a text whose chosen line carries the prefix removes it from that line. */
  lemma ToggleOff(content: string, position: int, prefix: string, lines: seq<string>, idx: nat)
    requires lines == Split(content, '\n') && idx == ChosenLine(lines, position) && StartsWith(lines[idx], prefix)
    ensures Toggle(content, position, prefix).content == Join(lines[idx := lines[idx][|prefix|..]], '\n')
  {
  }

  /** The chosen line of a text of at most `|content|` characters reaches the position, and no earlier line does. */
  lemma ChosenReaches(content: string, position: int)
    requires position <= |content|
    ensures var lines := Split(content, '\n');
            var idx := ChosenLine(lines, position);
            Reaches(lines, idx, position) && forall k :: 0 <= k < idx ==> !Reaches(lines, k, position)
  {
    var lines := Split(content, '\n');
    JoinSplit(content, '\n');
    JoinLength(lines);
    var last := |lines| - 1;
    assert Offset(lines, |lines|) == Offset(lines, last) + |lines[last]| + 1;
    assert Reaches(lines, last, position);
    var found := FindLine(lines, position, 0);
    assert found.Some?;
    assert ChosenLine(lines, position) == found.value;
  }

  /** Toggling a text whose chosen line lacks the prefix adds it to that line. */
  lemma ToggleOn(content: string, position: int, prefix: string, lines: seq<string>, idx: nat)
    requires lines == Split(content, '\n') && idx == ChosenLine(lines, position) && !StartsWith(lines[idx], prefix)
    ensures Toggle(content, position, prefix).content == Join(lines[idx := prefix + lines[idx]], '\n')
  {
  }

  /** Adding the prefix and toggling again at the same position gives the original text back. */
  lemma ToggleTwice(content: string, position: int, prefix: string)
    requires position <= |content| && '\n' !in prefix
    requires var lines := Split(content, '\n'); !StartsWith(lines[ChosenLine(lines, position)], prefix)
    ensures Toggle(Toggle(content, position, prefix).content, position, prefix).content == content
  {
    var lines := Split(content, '\n');
    var idx := ChosenLine(lines, position);
    ChosenReaches(content, position);
    var added := prefix + lines[idx];
    var lines2 := lines[idx := added];
    ToggleOn(content, position, prefix, lines, idx);
    var c2 := Toggle(content, position, prefix).content;
    assert c2 == Join(lines2, '\n');
    SplitJoin(lines2, '\n');
    ChosenAfterGrowth(lines, idx, position, added);
    assert lines2[idx][|prefix|..] == lines[idx];
    ToggleOff(c2, position, prefix, lines2, idx);
    assert lines2[idx := lines[idx]] == lines;
    JoinSplit(content, '\n');
  }

  /** The multi-line example: position 7 of `line1\nline2\nline3` is on the second line. */
  lemma PrependSecondLineExample(content: string)
    requires content == "line1\nline2\nline3"
    ensures Toggle(content, 7, "## ").content == "line1\n## line2\nline3"
  {
    SecondLineToggled(content);
    JoinThreeLines("line1", "## line2", "line3");
  }

  lemma SecondLineToggled(content: string)
    requires content == "line1\nline2\nline3"
    ensures Toggle(content, 7, "## ").content == Join(["line1", "## line2", "line3"], '\n')
  {
    var lines := ["line1", "line2", "line3"];
    JoinThreeLines("line1", "line2", "line3");
    assert Join(lines, '\n') == content;
    SplitJoin(lines, '\n');
    assert !Reaches(lines, 0, 7) && Reaches(lines, 1, 7);
    assert ChosenLine(lines, 7) == 1;
    assert lines[1][0] == 'l' && !StartsWith(lines[1], "## ");
    ToggleOn(content, 7, "## ", lines, 1);
    var added := "## " + lines[1];
    assert added == "## line2";
    assert lines[1 := added] == ["line1", "## line2", "line3"];
  }

  lemma JoinThreeLines(a: string, b: string, c: string)
    ensures Join([a, b, c], '\n') == a + "\n" + b + "\n" + c
  {
    assert [b, c][1..] == [c];
    assert Join([b, c], '\n') == b + "\n" + c;
    assert [a, b, c][1..] == [b, c];
  }

  /** The toggle-off example: `# hello` loses its heading marker. */
  lemma PrependToggleOffExample()
    ensures Toggle("# hello", 2, "# ").content == "hello"
  {
    SplitNoSep("# hello", '\n');
    assert Reaches(["# hello"], 0, 2);
  }

  // ---------------------------------------------------------------------
  // extractTitle: the first match of /^#\s+(.+)$/m
  // ---------------------------------------------------------------------

  const Untitled := "Untitled"

  /** `^` under the `m` flag: the start of the text or just after a line terminator. */
  predicate LineStartAt(s: string, p: nat)
    requires p <= |s|
  {
    p == 0 || s[p - 1] in JsLineTerminators
  }

  /** The end of the line through `m`: the first line terminator at or after `m`, or the end of the text. */
  function LineEnd(s: string, m: nat): (e: nat)
    requires m <= |s|
    ensures m <= e <= |s|
    ensures forall k :: m <= k < e ==> s[k] !in JsLineTerminators
    ensures e < |s| ==> s[e] in JsLineTerminators
    decreases |s| - m
  {
    if m < |s| && s[m] !in JsLineTerminators then LineEnd(s, m + 1) else m
  }

  /**
   * Where the greedy `\s+` after the `#` at `q - 1` gives way to `.+`: the
   * last position in `(q, m]` at which a non-terminator character stands.
   */
  function Backoff(s: string, q: nat, m: nat): (r: Option<nat>)
    requires m <= |s|
    ensures r.Some? ==> q < r.value <= m && r.value < |s| && s[r.value] !in JsLineTerminators
    ensures r.Some? ==> forall k :: r.value < k <= m && k < |s| ==> s[k] in JsLineTerminators
    ensures r.None? ==> forall k :: q < k <= m && k < |s| ==> s[k] in JsLineTerminators
    decreases m
  {
    if m <= q then None
    else if m < |s| && s[m] !in JsLineTerminators then Some(m)
    else Backoff(s, q, m - 1)
  }

  /** The capture group of a match of the heading pattern at `p`, if it matches there. */
  function HeadingAt(s: string, p: nat): Option<string>
    requires p <= |s|
  {
    if LineStartAt(s, p) && p < |s| && s[p] == '#' then
      match Backoff(s, p + 1, SkipStart(s, JsSpace, p + 1))
      case None => None
      case Some(m) => Some(s[m..LineEnd(s, m)])
    else None
  }

  /**
   * The pattern matches at `p` exactly when `p` starts a line with `#`,
   * followed by at least one white-space character (line breaks included)
   * and then a character that is not a line terminator.
   */
  ghost predicate HeadingMatch(s: string, p: nat)
    requires p <= |s|
  {
    LineStartAt(s, p) && p < |s| && s[p] == '#'
    && exists m :: p + 1 < m < |s| && s[m] !in JsLineTerminators && forall k :: p + 1 <= k < m ==> s[k] in JsSpace
  }

  lemma HeadingAtMatches(s: string, p: nat)
    requires p <= |s|
    ensures HeadingAt(s, p).Some? <==> HeadingMatch(s, p)
  {
    if HeadingAt(s, p).Some? {
      HeadingAtSound(s, p);
    }
    if HeadingMatch(s, p) {
      HeadingAtComplete(s, p);
    }
  }

  lemma HeadingAtSound(s: string, p: nat)
    requires p <= |s| && HeadingAt(s, p).Some?
    ensures HeadingMatch(s, p)
  {
    var e := SkipStart(s, JsSpace, p + 1);
    SkipStartSpec(s, JsSpace, p + 1);
    var m := Backoff(s, p + 1, e).value;
    assert forall k :: p + 1 <= k < m ==> s[k] in JsSpace;
  }

  lemma HeadingAtComplete(s: string, p: nat)
    requires p <= |s| && HeadingMatch(s, p)
    ensures HeadingAt(s, p).Some?
  {
    var e := SkipStart(s, JsSpace, p + 1);
    SkipStartSpec(s, JsSpace, p + 1);
    var m :| p + 1 < m < |s| && s[m] !in JsLineTerminators && forall k :: p + 1 <= k < m ==> s[k] in JsSpace;
    assert m <= e;
  }

  /** The capture of the first match at or after `p`. */
  function FirstHeading(s: string, p: nat): (r: Option<string>)
    requires p <= |s|
    ensures r.Some? ==> exists q :: p <= q <= |s| && HeadingAt(s, q) == r
    ensures r.None? ==> forall q :: p <= q <= |s| ==> HeadingAt(s, q).None?
    decreases |s| - p
  {
    if HeadingAt(s, p).Some? then HeadingAt(s, p)
    else if p == |s| then None
    else FirstHeading(s, p + 1)
  }

  /** A capture holds no line terminator, so neither does the trimmed title. */
  lemma CaptureOneLine(s: string, p: nat)
    requires p <= |s| && HeadingAt(s, p).Some?
    ensures forall c :: c in HeadingAt(s, p).value ==> c !in JsLineTerminators
  {
    var m := Backoff(s, p + 1, SkipStart(s, JsSpace, p + 1)).value;
    var cap := s[m..LineEnd(s, m)];
    forall c | c in cap ensures c !in JsLineTerminators {
      var k :| 0 <= k < |cap| && cap[k] == c;
      assert s[m + k] == c;
    }
  }

  /** The title: the trimmed capture of the first match, or "Untitled" when the pattern matches nowhere. */
  function ExtractTitle(content: string): (r: string)
    ensures FirstHeading(content, 0).None? ==> r == Untitled
    ensures FirstHeading(content, 0).Some? ==> r == Trim(FirstHeading(content, 0).value, JsSpace)
  {
    match FirstHeading(content, 0)
    case None => Untitled
    case Some(cap) => Trim(cap, JsSpace)
  }

  /** A title found in the text holds no line terminator and has no white space at either end. */
  lemma TitleShape(content: string)
    requires FirstHeading(content, 0).Some?
    ensures var r := ExtractTitle(content);
            (forall c :: c in r ==> c !in JsLineTerminators) && (r == [] || (r[0] !in JsSpace && r[|r| - 1] !in JsSpace))
  {
    var cap := FirstHeading(content, 0).value;
    var q :| 0 <= q <= |content| && HeadingAt(content, q) == Some(cap);
    CaptureOneLine(content, q);
    TrimSpec(cap, JsSpace);
    assert ExtractTitle(content) == Trim(cap, JsSpace);
  }

  /** `##` never opens a match: the character after the `#` must be white space. */
  lemma DoubleHashNoMatch(s: string, p: nat)
    requires p + 1 < |s| && s[p] == '#' && s[p + 1] == '#'
    ensures HeadingAt(s, p).None?
  {
  }

  /** Without a `#` anywhere the title is "Untitled". */
  lemma NoHashUntitled(s: string)
    requires '#' !in s
    ensures ExtractTitle(s) == Untitled
  {
    forall q | 0 <= q <= |s| ensures HeadingAt(s, q).None? {
      if q < |s| {
        assert s[q] in s;
      }
    }
  }

  /** `LineEnd` is the only position with its two properties. */
  lemma {:induction false} LineEndAt(s: string, m: nat, e: nat)
    requires m <= e <= |s|
    requires forall k :: m <= k < e ==> s[k] !in JsLineTerminators
    requires e < |s| ==> s[e] in JsLineTerminators
    ensures LineEnd(s, m) == e
    decreases e - m
  {
    if m < e {
      LineEndAt(s, m + 1, e);
    }
  }

  /** A text opening with `# ` and a one-line heading without surrounding white space has that heading as title. */
  lemma FirstLineHeading(line: string, rest: string)
    requires line != [] && line[0] !in JsSpace && line[|line| - 1] !in JsSpace
    requires forall k :: 0 <= k < |line| ==> line[k] !in JsLineTerminators
    requires rest == [] || rest[0] in JsLineTerminators
    ensures ExtractTitle("# " + line + rest) == line
  {
    var s := "# " + line + rest;
    assert s[1] == ' ' && s[2] == line[0];
    assert SkipStart(s, JsSpace, 2) == 2;
    assert SkipStart(s, JsSpace, 1) == 2;
    assert Backoff(s, 1, 2) == Some(2);
    assert forall k :: 2 <= k < 2 + |line| ==> s[k] == line[k - 2];
    assert 2 + |line| < |s| ==> s[2 + |line|] == rest[0];
    LineEndAt(s, 2, 2 + |line|);
    assert s[2..2 + |line|] == line;
    assert HeadingAt(s, 0) == Some(line);
    TrimUnchanged(line, JsSpace);
  }

  /** The heading example: `# My Title` over a blank line and a paragraph. */
  lemma TitleExample(line: string, rest: string)
    requires line == "My Title" && rest == "\n\nContent here"
    ensures ExtractTitle("# " + line + rest) == "My Title"
  {
    FirstLineHeading(line, rest);
  }

  /** Only the first of two headings counts. */
  lemma FirstOfTwoHeadingsExample(line: string, rest: string)
    requires line == "First" && rest == "\n# Second"
    ensures ExtractTitle("# " + line + rest) == "First"
  {
    FirstLineHeading(line, rest);
  }

  /** Text without a heading is "Untitled". */
  lemma NoHeadingExample(s: string)
    requires s == "Just some text"
    ensures ExtractTitle(s) == Untitled
  {
    assert forall k :: 0 <= k < |s| ==> s[k] != '#';
    NoHashUntitled(s);
  }

  /** `\s` matches a line break, so a lone `#` takes the next line as its title. */
  lemma HeadingAcrossLineBreak(s: string)
    requires s == "#\nHello"
    ensures ExtractTitle(s) == "Hello"
  {
    assert s[1] in JsSpace && s[2] !in JsSpace;
    assert SkipStart(s, JsSpace, 1) == 2;
    assert Backoff(s, 1, 2) == Some(2);
    assert LineEnd(s, 7) == 7;
    assert LineEnd(s, 2) == 7;
    assert s[2..7] == "Hello";
    assert HeadingAt(s, 0) == Some("Hello");
    var title := "Hello";
    assert title[0] == 'H' && title[|title| - 1] == 'o';
    assert 'H' !in JsSpace && 'o' !in JsSpace;
    TrimUnchanged(title, JsSpace);
  }

  /** A `#` followed only by spaces matches with a blank capture, so the title is empty rather than "Untitled". */
  lemma BlankHeadingTitle(s: string)
    requires s == "#  "
    ensures ExtractTitle(s) == ""
  {
    assert s[0] == '#' && s[1] == ' ' && s[2] == ' ';
    assert SkipStart(s, JsSpace, 3) == 3;
    assert SkipStart(s, JsSpace, 1) == 3;
    assert Backoff(s, 1, 2) == Some(2);
    assert Backoff(s, 1, 3) == Some(2);
    assert LineEnd(s, 3) == 3;
    assert LineEnd(s, 2) == 3;
    assert s[2..3] == " ";
    assert HeadingAt(s, 0) == Some(" ");
    TrimSpec(" ", JsSpace);
  }

  // ---------------------------------------------------------------------------
  // countWords
  // ---------------------------------------------------------------------------

  /** The characters the word count removes before counting: `# * _ ` [ ] ( )`. */
  const MarkdownSyntax: set<char> := {'#', '*', '_', '`', '[', ']', '(', ')'}

  /** Every markdown syntax character removed, the others kept in order. */
  function StripSyntax(s: string): (r: string)
    ensures |r| <= |s|
  {
    if s == [] then []
    else if s[0] in MarkdownSyntax then StripSyntax(s[1..])
    else [s[0]] + StripSyntax(s[1..])
  }

  /** Stripping keeps exactly the characters that are not markdown syntax. */
  lemma {:induction false} StripSyntaxChars(s: string)
    ensures forall c :: c in StripSyntax(s) <==> c in s && c !in MarkdownSyntax
    decreases |s|
  {
    if s != [] {
      StripSyntaxChars(s[1..]);
      assert s == [s[0]] + s[1..];
    }
  }

  /** The text after its leading run of white space. */
  function DropSpace(s: string): (r: string)
    ensures |r| <= |s|
    ensures s != [] && s[0] in JsSpace ==> |r| < |s|
    ensures r == [] || r[0] !in JsSpace
  {
    SkipStartSpec(s, JsSpace, 0);
    s[SkipStart(s, JsSpace, 0)..]
  }

  /** The only white space is single spaces: no other white-space character and no two in a row. */
  predicate SingleSpaced(r: string)
  {
    && (forall k :: 0 <= k < |r| && r[k] in JsSpace ==> r[k] == ' ')
    && (forall k :: 0 <= k < |r| - 1 ==> r[k] !in JsSpace || r[k + 1] !in JsSpace)
  }

  /** `replace(/\s+/g, ' ')`: every maximal run of white space becomes one space. */
  function CollapseSpace(s: string): (r: string)
    ensures r == [] <==> s == []
    ensures r != [] ==> (r[0] in JsSpace <==> s[0] in JsSpace)
    ensures SingleSpaced(r)
    decreases |s|
  {
    if s == [] then []
    else if s[0] in JsSpace then [' '] + CollapseSpace(DropSpace(s))
    else [s[0]] + CollapseSpace(s[1..])
  }

  /** The word count: the number of pieces of the trimmed, collapsed text split at spaces, or 0 when it is empty. */
  function CountWords(content: string): nat
  {
    var t := Trim(CollapseSpace(StripSyntax(content)), JsSpace);
    if t == [] then 0 else |Split(t, ' ')|
  }

  /**
   * The reference count of words: the positions where a character outside
   * white space follows white space or the start of the text.
   * `afterSpace` says whether the position before `s` counts as white space.
   */
  function WordStarts(s: string, afterSpace: bool): nat
  {
    if s == [] then 0
    else (if afterSpace && s[0] !in JsSpace then 1 else 0) + WordStarts(s[1..], s[0] in JsSpace)
  }

  /** The number of maximal runs of characters outside white space. */
  function WordCount(s: string): nat
  {
    WordStarts(s, true)
  }

  function Occurrences(s: string, c: char): nat
  {
    if s == [] then 0 else (if s[0] == c then 1 else 0) + Occurrences(s[1..], c)
  }

  lemma {:induction false} SplitLength(s: string, sep: char)
    ensures |Split(s, sep)| == 1 + Occurrences(s, sep)
    decreases |s|
  {
    if s != [] {
      SplitLength(s[1..], sep);
    }
  }

  lemma {:induction false} WordStartsAppend(x: string, y: string, b: bool)
    ensures WordStarts(x + y, b) == WordStarts(x, b) + WordStarts(y, if x == [] then b else x[|x| - 1] in JsSpace)
    decreases |x|
  {
    if x != [] {
      assert (x + y)[1..] == x[1..] + y;
      WordStartsAppend(x[1..], y, x[0] in JsSpace);
    } else {
      assert x + y == y;
    }
  }

  lemma {:induction false} AllSpaceNoStarts(s: string, b: bool)
    requires forall k :: 0 <= k < |s| ==> s[k] in JsSpace
    ensures WordStarts(s, b) == 0
    decreases |s|
  {
    if s != [] {
      AllSpaceNoStarts(s[1..], true);
    }
  }

  /** A run of white space counts no word and leaves the next character after white space. */
  lemma DropSpaceStarts(s: string, b: bool)
    requires s != [] && s[0] in JsSpace
    ensures WordStarts(s, b) == WordStarts(DropSpace(s), true)
  {
    var j := SkipStart(s, JsSpace, 0);
    SkipStartSpec(s, JsSpace, 0);
    assert s == s[..j] + s[j..];
    AllSpaceNoStarts(s[..j], b);
    WordStartsAppend(s[..j], s[j..], b);
  }

  /** Collapsing white space keeps every word start. */
  lemma {:induction false} CollapseStarts(s: string, b: bool)
    ensures WordStarts(CollapseSpace(s), b) == WordStarts(s, b)
    decreases |s|
  {
    if s != [] {
      if s[0] in JsSpace {
        var d := DropSpace(s);
        CollapseStarts(d, true);
        DropSpaceStarts(s, b);
        assert ([' '] + CollapseSpace(d))[1..] == CollapseSpace(d);
      } else {
        CollapseStarts(s[1..], false);
        assert ([s[0]] + CollapseSpace(s[1..]))[1..] == CollapseSpace(s[1..]);
      }
    }
  }

  /** Leading white space counts no word. */
  lemma LeadingSpaceStarts(s: string, a: nat)
    requires a <= |s|
    requires forall k :: 0 <= k < a ==> s[k] in JsSpace
    ensures WordStarts(s, true) == WordStarts(s[a..], true)
  {
    assert s == s[..a] + s[a..];
    AllSpaceNoStarts(s[..a], true);
    WordStartsAppend(s[..a], s[a..], true);
  }

  /** Trailing white space counts no word. */
  lemma TrailingSpaceStarts(s: string, a: nat, b: nat)
    requires a <= b <= |s|
    requires forall k :: b <= k < |s| ==> s[k] in JsSpace
    ensures WordStarts(s[a..], true) == WordStarts(s[a..b], true)
  {
    assert s[a..] == s[a..b] + s[b..];
    WordStartsAppend(s[a..b], s[b..], true);
    AllSpaceNoStarts(s[b..], if a == b then true else s[b - 1] in JsSpace);
  }

  /** Trimming white space from both ends keeps every word start. */
  lemma TrimStarts(s: string)
    ensures WordStarts(Trim(s, JsSpace), true) == WordStarts(s, true)
  {
    var a := SkipStart(s, JsSpace, 0);
    var b := SkipEnd(s, JsSpace, |s|);
    SkipStartSpec(s, JsSpace, 0);
    SkipEndSpec(s, JsSpace, |s|);
    if a < b {
      LeadingSpaceStarts(s, a);
      TrailingSpaceStarts(s, a, b);
    } else {
      AllSpaceNoStarts(s, true);
    }
  }

  /**
   * In a text whose only white space is single spaces between words, the
   * words are one more than the spaces.
   */
  lemma {:induction false} NormalStarts(t: string, b: bool)
    requires t != [] && t[0] !in JsSpace && t[|t| - 1] !in JsSpace
    requires SingleSpaced(t)
    ensures WordStarts(t, b) == (if b then 1 else 0) + Occurrences(t, ' ')
    decreases |t|
  {
    var u := t[1..];
    if u != [] {
      if u[0] in JsSpace {
        assert t[1] in JsSpace;
        assert u[0] == ' ';
        assert SingleSpaced(u[1..]);
        NormalStarts(u[1..], true);
      } else {
        assert SingleSpaced(u);
        NormalStarts(u, false);
      }
    }
  }

  /** Trimming a single-spaced text leaves it single-spaced, with a word at each end. */
  lemma TrimSingleSpaced(c: string)
    requires SingleSpaced(c)
    ensures var t := Trim(c, JsSpace);
            t == [] || (t[0] !in JsSpace && t[|t| - 1] !in JsSpace && SingleSpaced(t))
  {
    TrimSpec(c, JsSpace);
    var a := SkipStart(c, JsSpace, 0);
    var b := SkipEnd(c, JsSpace, |c|);
    if a < b {
      var t := c[a..b];
      assert forall k :: 0 <= k < |t| ==> t[k] == c[a + k];
    }
  }

  /** The word count is the number of maximal runs of non-white-space characters once markdown syntax is removed. */
  lemma CountWordsSpec(content: string)
    ensures CountWords(content) == WordCount(StripSyntax(content))
  {
    var u := StripSyntax(content);
    var c := CollapseSpace(u);
    var t := Trim(c, JsSpace);
    CollapseStarts(u, true);
    TrimStarts(c);
    if t != [] {
      TrimSingleSpaced(c);
      NormalStarts(t, true);
      SplitLength(t, ' ');
    }
  }

  lemma {:induction false} StripAppend(x: string, y: string)
    ensures StripSyntax(x + y) == StripSyntax(x) + StripSyntax(y)
    decreases |x|
  {
    if x == [] {
      assert x + y == y;
    } else {
      assert (x + y)[1..] == x[1..] + y;
      StripAppend(x[1..], y);
    }
  }

  lemma {:induction false} StripPlain(w: string)
    requires forall k :: 0 <= k < |w| ==> w[k] !in MarkdownSyntax
    ensures StripSyntax(w) == w
    decreases |w|
  {
    if w != [] {
      StripPlain(w[1..]);
      assert [w[0]] + w[1..] == w;
    }
  }

  lemma {:induction false} StripMarks(m: string)
    requires forall k :: 0 <= k < |m| ==> m[k] in MarkdownSyntax
    ensures StripSyntax(m) == []
    decreases |m|
  {
    if m != [] {
      StripMarks(m[1..]);
    }
  }

  /** A word, then white space, then the rest: one word more than the rest counts after white space. */
  lemma WordThenSpace(w: string, sp: string, rest: string, b: bool)
    requires w != [] && forall k :: 0 <= k < |w| ==> w[k] !in JsSpace
    requires sp != [] && forall k :: 0 <= k < |sp| ==> sp[k] in JsSpace
    ensures WordStarts(w + sp + rest, b) == (if b then 1 else 0) + WordStarts(rest, true)
  {
    assert w + sp + rest == w + (sp + rest);
    WordStartsAppend(w, sp + rest, b);
    WordStartsAppend(sp, rest, false);
    AllSpaceNoStarts(sp, false);
    OneWord(w, b);
  }

  lemma {:induction false} OneWord(w: string, b: bool)
    requires w != [] && forall k :: 0 <= k < |w| ==> w[k] !in JsSpace
    ensures WordStarts(w, b) == (if b then 1 else 0)
    decreases |w|
  {
    if |w| > 1 {
      OneWord(w[1..], false);
    }
  }

  /** Two words separated by any run of white space count as two, however long the run. */
  lemma TwoWords(w1: string, sp: string, w2: string)
    requires w1 != [] && forall k :: 0 <= k < |w1| ==> w1[k] !in JsSpace && w1[k] !in MarkdownSyntax
    requires sp != [] && forall k :: 0 <= k < |sp| ==> sp[k] in JsSpace && sp[k] !in MarkdownSyntax
    requires w2 != [] && forall k :: 0 <= k < |w2| ==> w2[k] !in JsSpace && w2[k] !in MarkdownSyntax
    ensures CountWords(w1 + sp + w2) == 2
  {
    var s := w1 + sp + w2;
    CountWordsSpec(s);
    StripAppend(w1 + sp, w2);
    StripAppend(w1, sp);
    StripPlain(w1);
    StripPlain(sp);
    StripPlain(w2);
    WordThenSpace(w1, sp, w2, true);
    OneWord(w2, true);
  }

  lemma CountTwoWordsExample(w1: string, sp: string, w2: string)
    requires w1 == "hello" && sp == " " && w2 == "world"
    ensures CountWords(w1 + sp + w2) == 2
  {
    TwoWords(w1, sp, w2);
  }

  lemma MultipleSpacesExample(w1: string, sp: string, w2: string)
    requires w1 == "hello" && sp == "    " && w2 == "world"
    ensures CountWords(w1 + sp + w2) == 2
  {
    TwoWords(w1, sp, w2);
  }

  lemma EmptyCountExample()
    ensures CountWords("") == 0
  {
  }

  /** A plain word: no white space and no markdown syntax. */
  predicate PlainWord(w: string)
  {
    w != [] && forall k :: 0 <= k < |w| ==> w[k] !in JsSpace && w[k] !in MarkdownSyntax
  }

  /** White space then a word after any text: one word more. */
  lemma SpaceThenWord(rest: string, sp: string, w: string, b: bool)
    requires w != [] && forall k :: 0 <= k < |w| ==> w[k] !in JsSpace
    requires sp != [] && forall k :: 0 <= k < |sp| ==> sp[k] in JsSpace
    ensures WordStarts(rest + sp + w, b) == WordStarts(rest, b) + 1
  {
    WordStartsAppend(rest + sp, w, b);
    WordStartsAppend(rest, sp, b);
    AllSpaceNoStarts(sp, if rest == [] then b else rest[|rest| - 1] in JsSpace);
    OneWord(w, true);
  }

  lemma StripThree(m1: string, b: string, m2: string, i: string, m3: string, c: string, m4: string)
    requires StripSyntax(b) == b && StripSyntax(i) == i && StripSyntax(c) == c
    requires StripSyntax(m1) == [] && StripSyntax(m2) == " " && StripSyntax(m3) == " " && StripSyntax(m4) == []
    ensures StripSyntax(m1 + b + m2 + i + m3 + c + m4) == b + " " + i + " " + c
  {
    var s1 := m1 + b;
    StripAppend(m1, b);
    assert StripSyntax(s1) == b;
    var s2 := s1 + m2;
    StripAppend(s1, m2);
    var s3 := s2 + i;
    StripAppend(s2, i);
    var s4 := s3 + m3;
    StripAppend(s3, m3);
    var s5 := s4 + c;
    StripAppend(s4, c);
    StripAppend(s5, m4);
  }

  lemma ThreeWords(b: string, i: string, c: string)
    requires PlainWord(b) && PlainWord(i) && PlainWord(c)
    ensures WordCount(b + " " + i + " " + c) == 3
  {
    SpaceThenWord(b + " " + i, " ", c, true);
    SpaceThenWord(b, " ", i, true);
    OneWord(b, true);
  }

  /** Three plain words, wrapped in marks that strip to nothing or to one space between them, count as three. */
  lemma ThreeMarkedWords(m1: string, b: string, m2: string, i: string, m3: string, c: string, m4: string)
    requires PlainWord(b) && PlainWord(i) && PlainWord(c)
    requires StripSyntax(m1) == [] && StripSyntax(m2) == " " && StripSyntax(m3) == " " && StripSyntax(m4) == []
    ensures CountWords(m1 + b + m2 + i + m3 + c + m4) == 3
  {
    StripPlain(b);
    StripPlain(i);
    StripPlain(c);
    StripThree(m1, b, m2, i, m3, c, m4);
    CountWordsSpec(m1 + b + m2 + i + m3 + c + m4);
    ThreeWords(b, i, c);
  }

  /** Marks around a single space strip to that space. */
  lemma MarksAroundSpace(x: string, sp: string, y: string)
    requires forall k :: 0 <= k < |x| ==> x[k] in MarkdownSyntax
    requires forall k :: 0 <= k < |y| ==> y[k] in MarkdownSyntax
    requires sp == " "
    ensures StripSyntax(x + sp + y) == " "
  {
    StripAppend(x + sp, y);
    StripAppend(x, sp);
    StripMarks(x);
    StripMarks(y);
  }

  /** Lower-case ASCII letters are neither white space nor markdown syntax. */
  lemma LowerCaseWord(w: string)
    requires w != [] && forall k :: 0 <= k < |w| ==> 'a' <= w[k] <= 'z'
    ensures PlainWord(w)
  {
  }

  lemma PlainWordsExample(b: string, i: string, c: string)
    requires b == "bold" && i == "italic" && c == "code"
    ensures PlainWord(b) && PlainWord(i) && PlainWord(c)
  {
    LowerCaseWord(b);
    LowerCaseWord(i);
    LowerCaseWord(c);
  }

  /** `**bold** _italic_ `code``: the emphasis and code marks are not words. */
  lemma IgnoreSyntaxExample(star: string, b: string, us: string, i: string, tick: string, c: string, sp: string)
    requires star == "**" && us == "_" && tick == "`" && sp == " "
    requires b == "bold" && i == "italic" && c == "code"
    ensures CountWords(star + b + star + sp + us + i + us + sp + tick + c + tick) == 3
  {
    PlainWordsExample(b, i, c);
    StripMarks(star);
    StripMarks(tick);
    MarksAroundSpace(star, sp, us);
    MarksAroundSpace(us, sp, tick);
    var m2 := star + sp + us;
    var m3 := us + sp + tick;
    assert star + b + star + sp + us + i + us + sp + tick + c + tick == star + b + m2 + i + m3 + c + tick;
    ThreeMarkedWords(star, b, m2, i, m3, c, tick);
  }
}
