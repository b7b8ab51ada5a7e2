/**
 * The preprocessing and the code renderer of the markdown preview
 * (src/components/editor/Preview.tsx): three global, multi-line regular
 * expression replacements that normalise task-list boxes, the placeholder
 * for an empty note, and the block/inline decision for `code` elements.
 * The regular expressions keep JavaScript's semantics: `\s` includes the line
 * terminators, `^` and `$` match next to any of them, a global replacement
 * scans left to right and resumes after each match.
 */
module Preview {
  import opened Util
  import opened JsReplace

  const ZeroWidthSpace: char := '\U{200B}'

  /** What may stand between the brackets of a task box. */
  const BoxMark: set<char> := {' ', 'x', 'X'}

  /** White space other than a line terminator. */
  const LineSpace: set<char> := JsSpace - JsLineTerminators

  /** `^` under the `m` flag. */
  predicate LineStartAt(s: string, p: nat)
    requires p <= |s|
  {
    p == 0 || s[p - 1] in JsLineTerminators
  }

  /** A box `[ ]`, `[x]` or `[X]` at `q`. */
  predicate BoxAt(s: string, q: nat)
  {
    q + 3 <= |s| && s[q] == '[' && s[q + 1] in BoxMark && s[q + 2] == ']'
  }

  /** A task marker `- [ ]`, `- [x]` or `- [X]` at `q`. */
  predicate TaskAt(s: string, q: nat)
  {
    q + 5 <= |s| && s[q] == '-' && s[q + 1] == ' ' && BoxAt(s, q + 2)
  }

  /**
   * The three replacements, and the corrected form of the second:
   * - `Bare`: `/^(\s*)\[( |x|X)\]/gm` to `$1- [$2]`;
   * - `EmptyTask`: `/^(\s*- \[( |x|X)\])(\s*)$/gm` to `$1 ​`;
   * - `EmptyTaskOnLine`: the same with the trailing white space kept on the line;
   * - `TaskText`: `/^(\s*- \[( |x|X)\])(?! |​)/gm` to `$1 `.
   */
  datatype Rule = Bare | EmptyTask | EmptyTaskOnLine | TaskText

  /**
   * Where `(\s*)$` ends after `m` as written: the greedy run of white space,
   * given back one character at a time until `$` holds, so the last line end
   * inside the run (or the end of the text).
   */
  function TrailingEnd(s: string, m: nat, e: nat): (r: Option<nat>)
    requires m <= e <= |s|
    ensures r.Some? ==> m <= r.value <= e && (r.value == |s| || s[r.value] in JsLineTerminators)
    ensures r.None? ==> e < |s| && forall k :: m <= k <= e ==> s[k] !in JsLineTerminators
    decreases e
  {
    if e == |s| || s[e] in JsLineTerminators then Some(e)
    else if e == m then None
    else TrailingEnd(s, m, e - 1)
  }

  /** Rule 1 at `p`: a bare box after the line's white space; `- ` goes in front of it. */
  function BareMatch(s: string, p: nat): (r: Option<Match>)
    requires p <= |s|
    ensures r.Some? ==> p < r.value.end <= |s|
  {
    var q := SkipStart(s, JsSpace, p);
    if LineStartAt(s, p) && BoxAt(s, q) then Some(Match(q + 3, s[p..q] + "- " + s[q..q + 3])) else None
  }

  /** Rule 2 as written at `p`: a task marker, then white space up to a line end that may lie lines further on. */
  function EmptyTaskMatch(s: string, p: nat): (r: Option<Match>)
    requires p <= |s|
    ensures r.Some? ==> p < r.value.end <= |s|
  {
    var q := SkipStart(s, JsSpace, p);
    if !LineStartAt(s, p) || !TaskAt(s, q) then None
    else
      match TrailingEnd(s, q + 5, SkipStart(s, JsSpace, q + 5))
      case None => None
      case Some(e) => Some(Match(e, s[p..q + 5] + [' ', ZeroWidthSpace]))
  }

  /** Rule 2 kept on its line at `p`: a task marker, then spaces or tabs up to the end of that line. */
  function OnLineMatch(s: string, p: nat): (r: Option<Match>)
    requires p <= |s|
    ensures r.Some? ==> p < r.value.end <= |s|
  {
    var q := SkipStart(s, JsSpace, p);
    if !LineStartAt(s, p) || !TaskAt(s, q) then None
    else
      var e := SkipStart(s, LineSpace, q + 5);
      if e == |s| || s[e] in JsLineTerminators then Some(Match(e, s[p..q + 5] + [' ', ZeroWidthSpace])) else None
  }

  /** Rule 3 at `p`: a task marker followed by neither a space nor a zero-width space gets a space. */
  function TaskTextMatch(s: string, p: nat): (r: Option<Match>)
    requires p <= |s|
    ensures r.Some? ==> p < r.value.end <= |s|
  {
    var q := SkipStart(s, JsSpace, p);
    if LineStartAt(s, p) && TaskAt(s, q) && (q + 5 == |s| || (s[q + 5] != ' ' && s[q + 5] != ZeroWidthSpace))
    then Some(Match(q + 5, s[p..q + 5] + " "))
    else None
  }

  /** The match of `rule` at position `p`, if any. */
  function MatchAt(rule: Rule, s: string, p: nat): (r: Option<Match>)
    requires p <= |s|
    ensures r.Some? ==> p < r.value.end <= |s|
  {
    match rule
    case Bare => BareMatch(s, p)
    case EmptyTask => EmptyTaskMatch(s, p)
    case EmptyTaskOnLine => OnLineMatch(s, p)
    case TaskText => TaskTextMatch(s, p)
  }

  function Matches(rule: Rule): (f: Matcher)
    ensures forall s: string :: Advances(f, s)
  {
    (s: string, i: nat) => if i <= |s| then MatchAt(rule, s, i) else None
  }

  function ReplaceFrom(rule: Rule, s: string, p: nat): string
    requires p <= |s|
  {
    Scan(Matches(rule), s, p)
  }

  function ReplaceAll(rule: Rule, s: string): string
  {
    ReplaceFrom(rule, s, 0)
  }

  /** `processedContent` as written: the three replacements in turn, or the italic placeholder for an empty note. */
  function Processed(content: string, placeholder: string): string
  {
    if content == [] then "*" + placeholder + "*"
    else ReplaceAll(TaskText, ReplaceAll(EmptyTask, ReplaceAll(Bare, content)))
  }

  /** `processedContent` with the empty-task rule kept on its own line. */
  function ProcessedOnLine(content: string, placeholder: string): string
  {
    if content == [] then "*" + placeholder + "*"
    else ReplaceAll(TaskText, ReplaceAll(EmptyTaskOnLine, ReplaceAll(Bare, content)))
  }

  /** An empty note shows the placeholder in italics. */
  lemma EmptyShowsPlaceholder(placeholder: string)
    ensures Processed("", placeholder) == "*" + placeholder + "*"
    ensures ProcessedOnLine("", placeholder) == "*" + placeholder + "*"
  {
  }

  // ---------------------------------------------------------------------------
  // Text without task boxes
  // ---------------------------------------------------------------------------

  /** No line starts (after its leading white space) with a box or a task marker. */
  predicate NoTaskLines(s: string)
  {
    forall p :: 0 <= p <= |s| && LineStartAt(s, p) ==>
      !BoxAt(s, SkipStart(s, JsSpace, p)) && !TaskAt(s, SkipStart(s, JsSpace, p))
  }

  lemma NoTaskNoMatch(rule: Rule, s: string, p: nat)
    requires p <= |s| && NoTaskLines(s)
    ensures MatchAt(rule, s, p).None?
  {
  }

  lemma NoMatchKeeps(rule: Rule, s: string)
    requires NoTaskLines(s)
    ensures ReplaceAll(rule, s) == s
  {
    forall i: nat | 0 <= i < |s| ensures Matches(rule)(s, i).None? {
      NoTaskNoMatch(rule, s, i);
    }
    ScanKeeps(Matches(rule), s, 0);
  }

  /** Text with no box or task marker at the start of a line is shown as it is. */
  lemma NoTasksUnchanged(content: string, placeholder: string)
    requires content != [] && NoTaskLines(content)
    ensures Processed(content, placeholder) == content
    ensures ProcessedOnLine(content, placeholder) == content
  {
    NoMatchKeeps(Bare, content);
    NoMatchKeeps(EmptyTask, content);
    NoMatchKeeps(EmptyTaskOnLine, content);
    NoMatchKeeps(TaskText, content);
  }

  // ---------------------------------------------------------------------------
  // One task line
  // ---------------------------------------------------------------------------

  /** No line terminator in `s`. */
  predicate OneLine(s: string)
  {
    forall k :: 0 <= k < |s| ==> s[k] !in JsLineTerminators
  }

  /** After position `p` of a text whose characters from `p - 1` on hold no line terminator, nothing matches. */
  lemma RestOfLineKept(rule: Rule, s: string, p: nat)
    requires 1 <= p <= |s|
    requires forall k :: p - 1 <= k < |s| ==> s[k] !in JsLineTerminators
    ensures ReplaceFrom(rule, s, p) == s[p..]
  {
    forall i: nat | p <= i < |s| ensures Matches(rule)(s, i).None? {
      assert !LineStartAt(s, i);
    }
    ScanKeeps(Matches(rule), s, p);
  }

  /** The leading white space of a line ends where the box or marker begins. */
  lemma SkipIndent(ws: string, rest: string)
    requires forall k :: 0 <= k < |ws| ==> ws[k] in JsSpace
    requires rest != [] && rest[0] !in JsSpace
    ensures SkipStart(ws + rest, JsSpace, 0) == |ws|
  {
    var s := ws + rest;
    assert forall k :: 0 <= k < |ws| ==> s[k] == ws[k];
    assert s[|ws|] == rest[0];
    SkipStartAt(s, JsSpace, 0, |ws|);
  }

  /** The run of `ws` characters from `i` ends at `j`. */
  lemma {:induction false} SkipStartAt(s: string, ws: set<char>, i: nat, j: nat)
    requires i <= j <= |s|
    requires forall k :: i <= k < j ==> s[k] in ws
    requires j < |s| ==> s[j] !in ws
    ensures SkipStart(s, ws, i) == j
    decreases j - i
  {
    if i < j {
      SkipStartAt(s, ws, i + 1, j);
    }
  }

  /** A marker placed after the indentation is seen by the rules. */
  lemma MarkerAfterIndent(ws: string, marker: string, rest: string)
    requires forall k :: 0 <= k < |ws| ==> ws[k] in JsSpace
    requires |marker| == 5 && TaskAt(marker, 0)
    ensures SkipStart(ws + marker + rest, JsSpace, 0) == |ws|
    ensures TaskAt(ws + marker + rest, |ws|)
    ensures (ws + marker + rest)[..|ws| + 5] == ws + marker
    ensures (ws + marker + rest)[|ws| + 5..] == rest
  {
    var s := ws + marker + rest;
    assert s == ws + (marker + rest);
    SkipIndent(ws, marker + rest);
    assert forall k :: 0 <= k < 5 ==> s[|ws| + k] == marker[k];
  }

  /** A bare box at the start of a line, after any white space, gets `- ` in front of it. */
  lemma BareBoxLine(ws: string, box: string, rest: string)
    requires forall k :: 0 <= k < |ws| ==> ws[k] in JsSpace
    requires |box| == 3 && BoxAt(box, 0)
    requires OneLine(rest)
    ensures ReplaceAll(Bare, ws + box + rest) == ws + "- " + box + rest
  {
    var s := ws + box + rest;
    assert s == ws + (box + rest);
    SkipIndent(ws, box + rest);
    var q := |ws|;
    assert s[..q] == ws && s[q..q + 3] == box;
    assert MatchAt(Bare, s, 0) == Some(Match(q + 3, ws + "- " + box));
    RestOfLineKept(Bare, s, q + 3);
    assert s[q + 3..] == rest;
  }

  /** A task marker directly followed by text gets one space after it. */
  lemma TaskTextLine(ws: string, marker: string, rest: string)
    requires forall k :: 0 <= k < |ws| ==> ws[k] in JsSpace
    requires |marker| == 5 && TaskAt(marker, 0)
    requires rest != [] && rest[0] != ' ' && rest[0] != ZeroWidthSpace && OneLine(rest)
    ensures ReplaceAll(TaskText, ws + marker + rest) == ws + marker + " " + rest
  {
    var s := ws + marker + rest;
    MarkerAfterIndent(ws, marker, rest);
    var q := |ws|;
    assert s[q + 5] == rest[0];
    assert MatchAt(TaskText, s, 0) == Some(Match(q + 5, ws + marker + " "));
    RestOfLineKept(TaskText, s, q + 5);
  }

  /** A task marker followed only by white space on the last line becomes marker, space, zero-width space. */
  lemma EmptyTaskLastLine(ws: string, marker: string, trail: string)
    requires forall k :: 0 <= k < |ws| ==> ws[k] in JsSpace
    requires |marker| == 5 && TaskAt(marker, 0)
    requires forall k :: 0 <= k < |trail| ==> trail[k] in LineSpace
    ensures ReplaceAll(EmptyTask, ws + marker + trail) == ws + marker + [' ', ZeroWidthSpace]
  {
    var s := ws + marker + trail;
    MarkerAfterIndent(ws, marker, trail);
    TrailAfterMarker(s, |ws| + 5, trail);
    SkipStartAt(s, JsSpace, |ws| + 5, |s|);
    assert s[0..|ws| + 5] == ws + marker;
    assert MatchAt(EmptyTask, s, 0) == Some(Match(|s|, ws + marker + [' ', ZeroWidthSpace]));
    assert ReplaceFrom(EmptyTask, s, |s|) == [];
  }

  /** The same with the empty-task rule kept on its line. */
  lemma EmptyTaskOnLineLastLine(ws: string, marker: string, trail: string)
    requires forall k :: 0 <= k < |ws| ==> ws[k] in JsSpace
    requires |marker| == 5 && TaskAt(marker, 0)
    requires forall k :: 0 <= k < |trail| ==> trail[k] in LineSpace
    ensures ReplaceAll(EmptyTaskOnLine, ws + marker + trail) == ws + marker + [' ', ZeroWidthSpace]
  {
    var s := ws + marker + trail;
    MarkerAfterIndent(ws, marker, trail);
    TrailAfterMarker(s, |ws| + 5, trail);
    SkipStartAt(s, LineSpace, |ws| + 5, |s|);
    assert s[0..|ws| + 5] == ws + marker;
    assert MatchAt(EmptyTaskOnLine, s, 0) == Some(Match(|s|, ws + marker + [' ', ZeroWidthSpace]));
    assert ReplaceFrom(EmptyTaskOnLine, s, |s|) == [];
  }

  /**
   * A task line with nothing after its marker that is followed by a line
   * starting with text: as written, the trailing `(\s*)$` gives the line
   * terminator back, so the line is replaced as a last line would be, its
   * terminator is kept and the next lines are replaced on their own.
   */
  lemma EmptyTaskNotLastLine(ws: string, marker: string, trail: string, t: char, b: string)
    requires forall k :: 0 <= k < |ws| ==> ws[k] in JsSpace
    requires |marker| == 5 && TaskAt(marker, 0)
    requires forall k :: 0 <= k < |trail| ==> trail[k] in LineSpace
    requires t in JsLineTerminators && b != [] && b[0] !in JsSpace
    ensures ReplaceAll(EmptyTask, ws + marker + trail + [t] + b)
         == ws + marker + [' ', ZeroWidthSpace] + [t] + ReplaceAll(EmptyTask, b)
  {
    var a := ws + marker + trail;
    var s := a + [t] + b;
    NextLineMatch(ws, marker, trail, t, b);
    ReplaceAfterLine(EmptyTask, s, |a|, ws + marker + [' ', ZeroWidthSpace], b);
  }

  /** As written, the match ends just before the line terminator. */
  lemma NextLineMatch(ws: string, marker: string, trail: string, t: char, b: string)
    requires forall k :: 0 <= k < |ws| ==> ws[k] in JsSpace
    requires |marker| == 5 && TaskAt(marker, 0)
    requires forall k :: 0 <= k < |trail| ==> trail[k] in LineSpace
    requires t in JsLineTerminators && b != [] && b[0] !in JsSpace
    ensures var a := ws + marker + trail; var s := a + [t] + b;
      && MatchAt(EmptyTask, s, 0) == Some(Match(|a|, ws + marker + [' ', ZeroWidthSpace]))
      && !LineStartAt(s, |a|) && s[|a|] == t && s[|a| + 1..] == b
  {
    var a := ws + marker + trail;
    var s := a + [t] + b;
    var n := |a| + 1;
    EmptyTaskLineEnd(ws, marker, trail, [t] + b);
    assert s == a + ([t] + b);
    assert s[|a|] == t && s[n..] == b && s[n] == b[0];
    assert TrailingEnd(s, |ws| + 5, |a|) == Some(|a|);
    assert TrailingEnd(s, |ws| + 5, n) == Some(|a|);
    SkipStartAt(s, JsSpace, |ws| + 5, n);
  }

  /**
   * A match from the start to the end `e` of a line that is not a line start,
   * followed by a line terminator and `b`: the replacement, the terminator,
   * and `b` replaced on its own.
   */
  lemma {:induction false} ReplaceAfterLine(rule: Rule, s: string, e: nat, x: string, b: string)
    requires e < |s| && s[e] in JsLineTerminators && s[e + 1..] == b && !LineStartAt(s, e)
    requires MatchAt(rule, s, 0) == Some(Match(e, x))
    ensures ReplaceAll(rule, s) == x + [s[e]] + ReplaceAll(rule, b)
  {
    MidLineNoMatch(rule, s, e);
    MatchesAt(rule, s, 0);
    MatchesAt(rule, s, e);
    AfterBreak(rule, s, e, b);
    ScanFirstThenRest(Matches(rule), s, e, x, b);
  }

  /** After the line terminator at `e` every rule matches as in the text that follows it. */
  lemma AfterBreak(rule: Rule, s: string, e: nat, b: string)
    requires e < |s| && s[e] in JsLineTerminators && s[e + 1..] == b
    ensures forall j: nat :: j < |b| ==> Matches(rule)(s, e + 1 + j) == Shifted(Matches(rule)(b, j), e + 1)
  {
    assert s[e + 1 - 1] == s[e];
    ShiftFrom(rule, s, b, e + 1);
  }

  /** Every rule is anchored at a line start. */
  lemma MidLineNoMatch(rule: Rule, s: string, p: nat)
    requires p <= |s| && !LineStartAt(s, p)
    ensures MatchAt(rule, s, p).None?
  {
  }

  /**
   * The last line of a note, ending in a line terminator, with a task marker
   * and nothing else: as written, the `$` after `(\s*)` holds at the end of
   * the text, so the terminator is part of the match and is lost; the rule
   * kept on its line leaves it.
   */
  lemma EmptyTaskFinalBreak(ws: string, marker: string, trail: string, t: char)
    requires forall k :: 0 <= k < |ws| ==> ws[k] in JsSpace
    requires |marker| == 5 && TaskAt(marker, 0)
    requires forall k :: 0 <= k < |trail| ==> trail[k] in LineSpace
    requires t in JsLineTerminators
    ensures ReplaceAll(EmptyTask, ws + marker + trail + [t]) == ws + marker + [' ', ZeroWidthSpace]
    ensures ReplaceAll(EmptyTaskOnLine, ws + marker + trail + [t]) == ws + marker + [' ', ZeroWidthSpace] + [t]
  {
    var a := ws + marker + trail;
    var s := a + [t];
    EmptyTaskLineEnd(ws, marker, trail, [t]);
    assert s[|a|] == t;
    SkipStartAt(s, JsSpace, |ws| + 5, |s|);
    SkipStartAt(s, LineSpace, |ws| + 5, |a|);
    assert MatchAt(EmptyTask, s, 0) == Some(Match(|s|, ws + marker + [' ', ZeroWidthSpace]));
    assert ReplaceFrom(EmptyTask, s, |s|) == [];
    assert MatchAt(EmptyTaskOnLine, s, 0) == Some(Match(|a|, ws + marker + [' ', ZeroWidthSpace]));
    assert ReplaceFrom(EmptyTaskOnLine, s, |a|) == [t] + ReplaceFrom(EmptyTaskOnLine, s, |s|);
  }

  /** The shape of a task line with nothing after its marker, and that no rule matches at its end. */
  lemma EmptyTaskLineEnd(ws: string, marker: string, trail: string, rest: string)
    requires forall k :: 0 <= k < |ws| ==> ws[k] in JsSpace
    requires |marker| == 5 && TaskAt(marker, 0)
    requires forall k :: 0 <= k < |trail| ==> trail[k] in LineSpace
    ensures var s := ws + marker + trail + rest;
      && SkipStart(s, JsSpace, 0) == |ws| && TaskAt(s, |ws|) && s[0..|ws| + 5] == ws + marker
      && (forall k :: |ws| + 5 <= k < |ws + marker + trail| ==> s[k] in LineSpace && s[k] in JsSpace)
      && !LineStartAt(s, |ws + marker + trail|)
  {
    var a := ws + marker + trail;
    var s := a + rest;
    assert s == ws + marker + (trail + rest);
    MarkerAfterIndent(ws, marker, trail + rest);
    assert forall k :: |ws| + 5 <= k < |a| ==> s[k] == trail[k - |ws| - 5];
    assert s[|ws| + 4] == marker[4] == ']';
  }

  lemma TrailAfterMarker(s: string, m: nat, trail: string)
    requires m <= |s| && s[m..] == trail
    requires forall k :: 0 <= k < |trail| ==> trail[k] in LineSpace
    ensures forall k :: m <= k < |s| ==> s[k] in LineSpace && s[k] in JsSpace
  {
    assert forall k :: m <= k < |s| ==> s[k] == trail[k - m];
  }

  // ---------------------------------------------------------------------------
  // Line by line
  // ---------------------------------------------------------------------------

  /**
   * What a rule does where a line's leading white space ends, `u` being the
   * text from there on: how much of `u` its match takes, and what replaces
   * that part.
   */
  function Head(rule: Rule, u: string): Option<(nat, string)>
  {
    match rule
    case Bare => if BoxAt(u, 0) then Some((3, "- " + u[..3])) else None
    case EmptyTask =>
      if !TaskAt(u, 0) then None
      else
        (match TrailingEnd(u, 5, SkipStart(u, JsSpace, 5))
         case None => None
         case Some(e) => Some((e, u[..5] + [' ', ZeroWidthSpace])))
    case EmptyTaskOnLine =>
      if !TaskAt(u, 0) then None
      else
        var e := SkipStart(u, LineSpace, 5);
        if e == |u| || u[e] in JsLineTerminators then Some((e, u[..5] + [' ', ZeroWidthSpace])) else None
    case TaskText =>
      if TaskAt(u, 0) && (|u| == 5 || (u[5] != ' ' && u[5] != ZeroWidthSpace)) then Some((5, u[..5] + " ")) else None
  }

  /** Every rule matches at a line start, takes the leading white space and then what `Head` says. */
  function Framed(rule: Rule, s: string, p: nat): Option<Match>
    requires p <= |s|
  {
    var q := SkipStart(s, JsSpace, p);
    if !LineStartAt(s, p) then None
    else
      match Head(rule, s[q..])
      case None => None
      case Some((k, x)) => Some(Match(q + k, s[p..q] + x))
  }

  lemma {:induction false} SkipStartSuffix(s: string, ws: set<char>, n: nat, i: nat)
    requires n + i <= |s|
    ensures SkipStart(s, ws, n + i) == n + SkipStart(s[n..], ws, i)
    decreases |s| - n - i
  {
    if n + i < |s| && s[n + i] in ws {
      SkipStartSuffix(s, ws, n, i + 1);
    }
  }

  lemma {:induction false} TrailingEndSuffix(s: string, n: nat, m: nat, e: nat)
    requires m <= e && n + e <= |s|
    ensures TrailingEnd(s, n + m, n + e) == Shifted1(TrailingEnd(s[n..], m, e), n)
    decreases e
  {
    if !(n + e == |s| || s[n + e] in JsLineTerminators) && e != m {
      TrailingEndSuffix(s, n, m, e - 1);
    }
  }

  /** An optional position moved `n` on. */
  function Shifted1(r: Option<nat>, n: nat): Option<nat>
  {
    match r
    case None => None
    case Some(x) => Some(x + n)
  }

  /** The rules are written in the form of `Framed`. */
  lemma MatchFramed(rule: Rule, s: string, p: nat)
    requires p <= |s|
    ensures MatchAt(rule, s, p) == Framed(rule, s, p)
  {
    match rule
    case Bare => BareFramed(s, p);
    case TaskText => TaskTextFramed(s, p);
    case EmptyTaskOnLine => OnLineFramed(s, p);
    case EmptyTask => EmptyTaskFramed(s, p);
  }

  lemma BareFramed(s: string, p: nat)
    requires p <= |s|
    ensures BareMatch(s, p) == Framed(Bare, s, p)
  {
    var q := SkipStart(s, JsSpace, p);
    var u := s[q..];
    FramedBy(Bare, s, p, q, Head(Bare, u));
    assert BoxAt(u, 0) == BoxAt(s, q);
    if BoxAt(s, q) {
      assert u[..3] == s[q..q + 3];
      assert s[p..q] + "- " + s[q..q + 3] == s[p..q] + ("- " + u[..3]);
    }
  }

  lemma TaskTextFramed(s: string, p: nat)
    requires p <= |s|
    ensures TaskTextMatch(s, p) == Framed(TaskText, s, p)
  {
    var q := SkipStart(s, JsSpace, p);
    var u := s[q..];
    FramedBy(TaskText, s, p, q, Head(TaskText, u));
    assert TaskAt(u, 0) == TaskAt(s, q);
    if TaskAt(s, q) {
      assert u[..5] == s[q..q + 5];
      assert (|u| == 5) == (q + 5 == |s|);
      assert |u| > 5 ==> u[5] == s[q + 5];
      assert s[p..q + 5] + " " == s[p..q] + (u[..5] + " ");
    }
  }

  lemma OnLineFramed(s: string, p: nat)
    requires p <= |s|
    ensures OnLineMatch(s, p) == Framed(EmptyTaskOnLine, s, p)
  {
    var q := SkipStart(s, JsSpace, p);
    var u := s[q..];
    FramedBy(EmptyTaskOnLine, s, p, q, Head(EmptyTaskOnLine, u));
    assert TaskAt(u, 0) == TaskAt(s, q);
    if TaskAt(s, q) {
      assert u[..5] == s[q..q + 5];
      SkipStartSuffix(s, LineSpace, q, 5);
      var e := SkipStart(u, LineSpace, 5);
      assert (e == |u|) == (q + e == |s|);
      assert e < |u| ==> u[e] == s[q + e];
      assert s[p..q + 5] + [' ', ZeroWidthSpace] == s[p..q] + (u[..5] + [' ', ZeroWidthSpace]);
    }
  }

  lemma EmptyTaskFramed(s: string, p: nat)
    requires p <= |s|
    ensures EmptyTaskMatch(s, p) == Framed(EmptyTask, s, p)
  {
    var q := SkipStart(s, JsSpace, p);
    var u := s[q..];
    FramedBy(EmptyTask, s, p, q, Head(EmptyTask, u));
    assert TaskAt(u, 0) == TaskAt(s, q);
    if TaskAt(s, q) {
      assert u[..5] == s[q..q + 5];
      SkipStartSuffix(s, JsSpace, q, 5);
      TrailingEndSuffix(s, q, 5, SkipStart(u, JsSpace, 5));
      assert s[p..q + 5] + [' ', ZeroWidthSpace] == s[p..q] + (u[..5] + [' ', ZeroWidthSpace]);
    }
  }

  /** From a line start on, a rule matches in a text as in that part of it. */
  lemma FramedShift(rule: Rule, s: string, b: string, n: nat, j: nat)
    requires n <= |s| && s[n..] == b && j <= |b|
    requires j > 0 || LineStartAt(s, n)
    ensures Framed(rule, s, n + j) == Shifted(Framed(rule, b, j), n)
  {
    SkipStartSuffix(s, JsSpace, n, j);
    var q := SkipStart(b, JsSpace, j);
    assert SkipStart(s, JsSpace, n + j) == n + q;
    assert s[n + q..] == b[q..];
    assert s[n + j..n + q] == b[j..q];
    if j > 0 {
      assert s[n + j - 1] == b[j - 1];
    }
    assert LineStartAt(s, n + j) == LineStartAt(b, j);
    var h := Head(rule, b[q..]);
    assert Head(rule, s[n + q..]) == h;
    FramedBy(rule, b, j, q, h);
    FramedBy(rule, s, n + j, n + q, h);
  }

  lemma MatchShift(rule: Rule, s: string, b: string, n: nat, j: nat)
    requires n <= |s| && s[n..] == b && j <= |b|
    requires j > 0 || LineStartAt(s, n)
    ensures MatchAt(rule, s, n + j) == Shifted(MatchAt(rule, b, j), n)
  {
    MatchFramed(rule, s, n + j);
    MatchFramed(rule, b, j);
    FramedShift(rule, s, b, n, j);
  }

  /** `Framed` in terms of the line start and the value of `Head`. */
  lemma FramedBy(rule: Rule, s: string, p: nat, q: nat, h: Option<(nat, string)>)
    requires p <= |s| && q == SkipStart(s, JsSpace, p) && h == Head(rule, s[q..])
    ensures Framed(rule, s, p) == if !LineStartAt(s, p) || h.None? then None else Some(Match(q + h.value.0, s[p..q] + h.value.1))
  {
  }

  /** A rule other than the empty-task rule as written does not look past the end of the line. */
  lemma HeadInLine(rule: Rule, u: string, t: char, b: string)
    requires rule != EmptyTask && t in JsLineTerminators
    ensures Head(rule, u + [t] + b) == Head(rule, u)
    ensures Head(rule, u).Some? ==> Head(rule, u).value.0 <= |u|
  {
    var v := u + [t] + b;
    assert forall k :: 0 <= k < |u| ==> v[k] == u[k];
    assert v[|u|] == t;
    assert BoxAt(v, 0) == BoxAt(u, 0);
    assert TaskAt(v, 0) == TaskAt(u, 0);
    if BoxAt(u, 0) {
      assert v[..3] == u[..3];
    }
    if TaskAt(u, 0) {
      assert v[..5] == u[..5];
      if rule == EmptyTaskOnLine {
        var e := SkipStart(u, LineSpace, 5);
        SkipStartSpec(u, LineSpace, 5);
        SkipStartAt(v, LineSpace, 5, e);
      }
    }
  }

  /** Text made only of white space holds no match. */
  lemma BlankTailKept(rule: Rule, a: string, j: nat)
    requires j <= |a| && forall k :: j <= k < |a| ==> a[k] in JsSpace
    ensures ReplaceFrom(rule, a, j) == a[j..]
    ensures j < |a| ==> Matches(rule)(a, j).None?
  {
    forall i: nat | j <= i < |a| ensures Matches(rule)(a, i).None? {
      SkipStartAt(a, JsSpace, i, |a|);
      MatchFramed(rule, a, i);
      assert a[|a|..] == [];
    }
    ScanKeeps(Matches(rule), a, j);
  }

  /** Each position of a line agrees with the scan of that line alone (see `SplitAgrees`). */
  lemma LineAgrees(rule: Rule, a: string, t: char, b: string, j: nat)
    requires rule != EmptyTask && t in JsLineTerminators && j <= |a|
    ensures SplitAgrees(Matches(rule), a, t, b, j)
  {
    var s := a + [t] + b;
    var q := SkipStart(s, JsSpace, j);
    SkipStartSpec(s, JsSpace, j);
    assert s[|a|] == t;
    if q < |a| {
      AgreesInLine(rule, a, t, b, j);
    } else {
      assert forall k :: j <= k < |a| ==> a[k] == s[k];
      AgreesAcross(rule, a, t, b, j);
    }
  }

  /** Where the line's leading white space ends inside `a`, the match is the one of `a` alone. */
  lemma AgreesInLine(rule: Rule, a: string, t: char, b: string, j: nat)
    requires rule != EmptyTask && t in JsLineTerminators && j <= |a|
    requires SkipStart(a + [t] + b, JsSpace, j) < |a|
    ensures j < |a| && MatchAt(rule, a + [t] + b, j) == MatchAt(rule, a, j)
    ensures MatchAt(rule, a, j).Some? ==> MatchAt(rule, a, j).value.end <= |a|
  {
    var s := a + [t] + b;
    var q := SkipStart(s, JsSpace, j);
    SkipStartSpec(s, JsSpace, j);
    assert forall k :: 0 <= k < |a| ==> s[k] == a[k];
    SkipStartAt(a, JsSpace, j, q);
    MatchFramed(rule, s, j);
    MatchFramed(rule, a, j);
    assert s[q..] == a[q..] + [t] + b;
    HeadInLine(rule, a[q..], t, b);
    assert s[j..q] == a[j..q];
    var h := Head(rule, a[q..]);
    FramedBy(rule, s, j, q, h);
    FramedBy(rule, a, j, q, h);
  }

  /** Where the rest of `a` is white space, a match spans `t` and ends as the first match of `b`. */
  lemma AgreesAcross(rule: Rule, a: string, t: char, b: string, j: nat)
    requires t in JsLineTerminators && j <= |a|
    requires forall k :: j <= k < |a| ==> a[k] in JsSpace
    ensures SplitAgrees(Matches(rule), a, t, b, j)
  {
    BlankTailKept(rule, a, j);
    AcrossMatch(rule, a, t, b, j);
    var s := a + [t] + b;
    MatchFramed(rule, s, j);
    MatchFramed(rule, b, 0);
    if MatchAt(rule, s, j).Some? {
      assert ReplaceFrom(rule, a, j) == a[j..];
    } else if j < |a| {
      assert MatchAt(rule, a, j).None?;
    }
  }

  /** The match at `j` of `a + [t] + b`, when the rest of `a` is white space: none, or one that spans `t`. */
  lemma AcrossMatch(rule: Rule, a: string, t: char, b: string, j: nat)
    requires t in JsLineTerminators && j <= |a|
    requires forall k :: j <= k < |a| ==> a[k] in JsSpace
    ensures var s := a + [t] + b;
            || Framed(rule, s, j).None?
            || (Framed(rule, b, 0).Some?
                && Framed(rule, s, j) == Some(Match(|a| + 1 + Framed(rule, b, 0).value.end, a[j..] + [t] + Framed(rule, b, 0).value.replacement)))
  {
    var s := a + [t] + b;
    var qb := SkipStart(b, JsSpace, 0);
    var q := |a| + 1 + qb;
    AcrossIndent(a, t, b, j);
    var x := a[j..] + [t];
    var h := Head(rule, b[qb..]);
    FramedBy(rule, s, j, q, h);
    FramedBy(rule, b, 0, qb, h);
    if LineStartAt(s, j) && h.Some? {
      assert (x + b[..qb]) + h.value.1 == x + (b[..qb] + h.value.1);
    }
  }

  /** The leading white space from `j` runs over `t` into the leading white space of `b`. */
  lemma AcrossIndent(a: string, t: char, b: string, j: nat)
    requires t in JsLineTerminators && j <= |a|
    requires forall k :: j <= k < |a| ==> a[k] in JsSpace
    ensures var s := a + [t] + b;
            var q := |a| + 1 + SkipStart(b, JsSpace, 0);
            && SkipStart(s, JsSpace, j) == q
            && s[q..] == b[SkipStart(b, JsSpace, 0)..]
            && s[j..q] == a[j..] + [t] + b[..SkipStart(b, JsSpace, 0)]
  {
    var s := a + [t] + b;
    var n := |a| + 1;
    assert s[n..] == b;
    assert forall k :: j <= k < |a| ==> s[k] == a[k];
    assert s[|a|] == t;
    assert t in JsSpace;
    var qb := SkipStart(b, JsSpace, 0);
    SkipStartSpec(b, JsSpace, 0);
    var q := n + qb;
    assert forall k :: n <= k < q ==> s[k] == b[k - n];
    SkipStartAt(s, JsSpace, j, q);
    assert s[q..] == b[qb..];
    assert s[j..q] == a[j..] + [t] + b[..qb];
  }

  /**
   * Every rule but the empty-task rule as written works line by line: the
   * replacement of two lines joined by a line terminator is the replacement
   * of each, joined by it.
   */
  lemma LineByLine(rule: Rule, a: string, t: char, b: string)
    requires rule != EmptyTask && t in JsLineTerminators
    ensures ReplaceAll(rule, a + [t] + b) == ReplaceAll(rule, a) + [t] + ReplaceAll(rule, b)
  {
    var f := Matches(rule);
    ShiftAfter(rule, a, t, b);
    AllAgree(rule, a, t, b);
    ScanSplit(f, a, t, b, 0);
  }

  /** After a line terminator every rule matches as in the line that follows it. */
  lemma ShiftAfter(rule: Rule, a: string, t: char, b: string)
    requires t in JsLineTerminators
    ensures forall j: nat :: j < |b| ==> Matches(rule)(a + [t] + b, |a| + 1 + j) == Shifted(Matches(rule)(b, j), |a| + 1)
  {
    var s := a + [t] + b;
    assert s[|a|] == t && s[|a| + 1..] == b;
    AfterBreak(rule, s, |a|, b);
  }

  /** From a line start on, every rule matches as in the text that follows it. */
  lemma ShiftFrom(rule: Rule, s: string, b: string, n: nat)
    requires n <= |s| && s[n..] == b && LineStartAt(s, n)
    ensures forall j: nat :: j < |b| ==> Matches(rule)(s, n + j) == Shifted(Matches(rule)(b, j), n)
  {
    forall j: nat | j < |b| ensures Matches(rule)(s, n + j) == Shifted(Matches(rule)(b, j), n) {
      MatchShift(rule, s, b, n, j);
      MatchesAt(rule, s, n + j);
      MatchesAt(rule, b, j);
    }
  }

  lemma AllAgree(rule: Rule, a: string, t: char, b: string)
    requires rule != EmptyTask && t in JsLineTerminators
    ensures forall j: nat :: j <= |a| ==> SplitAgrees(Matches(rule), a, t, b, j)
  {
    forall j: nat | j <= |a| ensures SplitAgrees(Matches(rule), a, t, b, j) {
      LineAgrees(rule, a, t, b, j);
    }
  }

  lemma MatchesAt(rule: Rule, s: string, i: nat)
    requires i <= |s|
    ensures Matches(rule)(s, i) == MatchAt(rule, s, i)
  {
  }

  // ---------------------------------------------------------------------------
  // Line breaks
  // ---------------------------------------------------------------------------

  /** The number of line terminators. */
  function Breaks(s: string): nat
  {
    if s == [] then 0 else (if s[0] in JsLineTerminators then 1 else 0) + Breaks(s[1..])
  }

  lemma {:induction false} BreaksAppend(a: string, b: string)
    ensures Breaks(a + b) == Breaks(a) + Breaks(b)
    decreases |a|
  {
    if a == [] {
      assert a + b == b;
    } else {
      assert (a + b)[1..] == a[1..] + b;
      BreaksAppend(a[1..], b);
    }
  }

  lemma {:induction false} NoBreaks(s: string)
    requires forall k :: 0 <= k < |s| ==> s[k] !in JsLineTerminators
    ensures Breaks(s) == 0
    decreases |s|
  {
    if s != [] {
      NoBreaks(s[1..]);
    }
  }

  /** A match keeps the line breaks of the text it replaces. */
  predicate KeepsBreaks(r: Option<Match>, s: string, p: nat)
    requires p <= |s|
  {
    r.Some? && r.value.end <= |s| ==> p <= r.value.end && Breaks(r.value.replacement) == Breaks(s[p..r.value.end])
  }

  /** If every match keeps its line breaks, so does the whole replacement. */
  lemma {:induction false} ScanKeepsBreaks(f: Matcher, s: string, p: nat)
    requires p <= |s| && Advances(f, s)
    requires forall i: nat :: p <= i < |s| ==> KeepsBreaks(f(s, i), s, i)
    ensures Breaks(Scan(f, s, p)) == Breaks(s[p..])
    decreases |s| - p
  {
    if p < |s| {
      var e := if f(s, p).Some? then f(s, p).value.end else p + 1;
      var emitted := if f(s, p).Some? then f(s, p).value.replacement else [s[p]];
      ScanKeepsBreaks(f, s, e);
      assert Scan(f, s, p) == emitted + Scan(f, s, e);
      assert KeepsBreaks(f(s, p), s, p);
      BreaksAppend(emitted, Scan(f, s, e));
      assert s[p..] == s[p..e] + s[e..];
      BreaksAppend(s[p..e], s[e..]);
    }
  }

  /** Every rule but the empty-task rule as written keeps the line breaks of what it replaces. */
  lemma RuleKeepsBreaks(rule: Rule, s: string, p: nat)
    requires p <= |s| && rule != EmptyTask
    ensures KeepsBreaks(MatchAt(rule, s, p), s, p)
  {
    match rule
    case Bare => BareKeepsBreaks(s, p);
    case EmptyTaskOnLine => OnLineKeepsBreaks(s, p);
    case TaskText => TaskTextKeepsBreaks(s, p);
  }

  /** Hence such a rule keeps the line breaks of the whole text. */
  lemma ReplaceKeepsBreaks(rule: Rule, s: string)
    requires rule != EmptyTask
    ensures Breaks(ReplaceAll(rule, s)) == Breaks(s)
  {
    forall i: nat | i < |s| ensures KeepsBreaks(Matches(rule)(s, i), s, i) {
      RuleKeepsBreaks(rule, s, i);
    }
    ScanKeepsBreaks(Matches(rule), s, 0);
    assert s[0..] == s;
  }

  /** Inserting characters that are not line terminators keeps the breaks of the surrounding pieces. */
  lemma InsertKeepsBreaks(a: string, x: string, b: string)
    requires forall k :: 0 <= k < |x| ==> x[k] !in JsLineTerminators
    ensures Breaks(a + x + b) == Breaks(a + b)
  {
    BreaksAppend(a + x, b);
    BreaksAppend(a, x);
    BreaksAppend(a, b);
    NoBreaks(x);
  }

  lemma BareKeepsBreaks(s: string, p: nat)
    requires p <= |s|
    ensures KeepsBreaks(BareMatch(s, p), s, p)
  {
    if BareMatch(s, p).Some? {
      var q := SkipStart(s, JsSpace, p);
      InsertKeepsBreaks(s[p..q], "- ", s[q..q + 3]);
      assert s[p..q] + s[q..q + 3] == s[p..q + 3];
    }
  }

  lemma TaskTextKeepsBreaks(s: string, p: nat)
    requires p <= |s|
    ensures KeepsBreaks(TaskTextMatch(s, p), s, p)
  {
    if TaskTextMatch(s, p).Some? {
      var q := SkipStart(s, JsSpace, p);
      BreaksAppend(s[p..q + 5], " ");
      NoBreaks(" ");
    }
  }

  lemma OnLineKeepsBreaks(s: string, p: nat)
    requires p <= |s|
    ensures KeepsBreaks(OnLineMatch(s, p), s, p)
  {
    if OnLineMatch(s, p).Some? {
      var q := SkipStart(s, JsSpace, p);
      var e := SkipStart(s, LineSpace, q + 5);
      SkipStartSpec(s, LineSpace, q + 5);
      var trail := s[q + 5..e];
      assert forall k :: 0 <= k < |trail| ==> trail[k] == s[q + 5 + k];
      assert forall k :: 0 <= k < |trail| ==> trail[k] in LineSpace;
      assert s[p..e] == s[p..q + 5] + trail;
      BreaksAppend(s[p..q + 5], trail);
      NoBreaks(trail);
      BreaksAppend(s[p..q + 5], [' ', ZeroWidthSpace]);
      NoBreaks([' ', ZeroWidthSpace]);
    }
  }

  /** With the empty-task rule kept on its line, the preprocessing keeps every line break of the note. */
  lemma OnLineKeepsAllBreaks(content: string, placeholder: string)
    requires content != []
    ensures Breaks(ProcessedOnLine(content, placeholder)) == Breaks(content)
  {
    var s1 := ReplaceAll(Bare, content);
    ReplaceKeepsBreaks(Bare, content);
    ReplaceKeepsBreaks(EmptyTaskOnLine, s1);
    ReplaceKeepsBreaks(TaskText, ReplaceAll(EmptyTaskOnLine, s1));
  }

  /**
   * As written, the trailing `(\s*)$` of the empty-task rule backtracks to
   * the last line break of a run of blank lines, so an empty task followed
   * by a blank line and a paragraph loses that blank line: the paragraph is
   * pulled into the checklist item.
   */
  lemma EmptyTaskEatsBlankLine(marker: string, text: string)
    requires |marker| == 5 && TaskAt(marker, 0)
    requires text != [] && text[0] !in JsSpace && text[0] != '-' && OneLine(text)
    ensures ReplaceAll(EmptyTask, marker + "\n\n" + text) == marker + [' ', ZeroWidthSpace] + "\n" + text
    ensures Breaks(ReplaceAll(EmptyTask, marker + "\n\n" + text)) < Breaks(marker + "\n\n" + text)
  {
    EatenResult(marker, text);
    MarkerOneLine(marker);
    BrokenLines(marker + [' ', ZeroWidthSpace], text);
    BrokenLines(marker, text);
  }

  /** A task marker, and a marker with its space and zero-width space, hold no line break. */
  lemma MarkerOneLine(marker: string)
    requires |marker| == 5 && TaskAt(marker, 0)
    ensures OneLine(marker) && OneLine(marker + [' ', ZeroWidthSpace])
  {
    var t := marker + [' ', ZeroWidthSpace];
    assert t[0] == '-' && t[1] == ' ' && t[2] == '[' && t[3] in BoxMark && t[4] == ']' && t[5] == ' ' && t[6] == ZeroWidthSpace;
    forall k | 0 <= k < |t| ensures t[k] !in JsLineTerminators {
      if k == 3 {
        assert t[3] == ' ' || t[3] == 'x' || t[3] == 'X';
      }
    }
  }

  lemma EatenResult(marker: string, text: string)
    requires |marker| == 5 && TaskAt(marker, 0)
    requires text != [] && text[0] !in JsSpace && text[0] != '-' && OneLine(text)
    ensures ReplaceAll(EmptyTask, marker + "\n\n" + text) == marker + [' ', ZeroWidthSpace] + "\n" + text
  {
    var s := marker + "\n\n" + text;
    EatenMatch(marker, text);
    ParagraphKept(EmptyTask, marker, text);
    assert ReplaceAll(EmptyTask, s) == marker + [' ', ZeroWidthSpace] + ReplaceFrom(EmptyTask, s, 6);
  }

  /** As written, the match runs to the second line break. */
  lemma EatenMatch(marker: string, text: string)
    requires |marker| == 5 && TaskAt(marker, 0)
    requires text != [] && text[0] !in JsSpace && text[0] != '-' && OneLine(text)
    ensures Matches(EmptyTask)(marker + "\n\n" + text, 0) == Some(Match(6, marker + [' ', ZeroWidthSpace]))
  {
    var s := marker + "\n\n" + text;
    BlankLineText(marker, text);
    SkipStartAt(s, JsSpace, 5, 7);
    assert TrailingEnd(s, 5, 7) == Some(6);
  }

  /** From the second line break on, neither form of the rule changes anything. */
  lemma ParagraphKept(rule: Rule, marker: string, text: string)
    requires rule == EmptyTask || rule == EmptyTaskOnLine
    requires |marker| == 5 && TaskAt(marker, 0)
    requires text != [] && text[0] !in JsSpace && text[0] != '-' && OneLine(text)
    ensures ReplaceFrom(rule, marker + "\n\n" + text, 6) == "\n" + text
  {
    var s := marker + "\n\n" + text;
    BlankLineText(marker, text);
    assert MatchAt(rule, s, 6).None?;
    assert MatchAt(rule, s, 7).None?;
    RestOfLineKept(rule, s, 8);
    assert ReplaceFrom(rule, s, 7) == [s[7]] + ReplaceFrom(rule, s, 8);
    assert ReplaceFrom(rule, s, 6) == [s[6]] + ReplaceFrom(rule, s, 7);
  }

  /** The same note with the empty-task rule kept on its line: the blank line stays. */
  lemma EmptyTaskOnLineKeepsBlankLine(marker: string, text: string)
    requires |marker| == 5 && TaskAt(marker, 0)
    requires text != [] && text[0] !in JsSpace && text[0] != '-' && OneLine(text)
    ensures ReplaceAll(EmptyTaskOnLine, marker + "\n\n" + text) == marker + [' ', ZeroWidthSpace] + "\n\n" + text
  {
    var s := marker + "\n\n" + text;
    BlankLineText(marker, text);
    SkipStartAt(s, LineSpace, 5, 5);
    assert MatchAt(EmptyTaskOnLine, s, 0) == Some(Match(5, marker + [' ', ZeroWidthSpace]));
    assert MatchAt(EmptyTaskOnLine, s, 5).None?;
    ParagraphKept(EmptyTaskOnLine, marker, text);
    assert ReplaceFrom(EmptyTaskOnLine, s, 5) == [s[5]] + ReplaceFrom(EmptyTaskOnLine, s, 6);
  }

  /** The shape of an empty task, a blank line and a paragraph. */
  lemma BlankLineText(marker: string, text: string)
    requires |marker| == 5 && TaskAt(marker, 0)
    requires text != [] && text[0] !in JsSpace && text[0] != '-' && OneLine(text)
    ensures var s := marker + "\n\n" + text;
      && SkipStart(s, JsSpace, 0) == 0 && TaskAt(s, 0) && s[0..5] == marker
      && s[5] == '\n' && s[6] == '\n' && s[7] == text[0] && s[7] !in JsLineTerminators
      && SkipStart(s, JsSpace, 6) == 7 && SkipStart(s, JsSpace, 7) == 7 && !TaskAt(s, 7)
      && s[8..] == text[1..] && (forall k :: 7 <= k < |s| ==> s[k] !in JsLineTerminators)
  {
    var s := marker + "\n\n" + text;
    assert s[0] == '-';
    assert forall k :: 0 <= k < 5 ==> s[k] == marker[k];
    assert forall k :: 7 <= k < |s| ==> s[k] == text[k - 7];
    SkipStartAt(s, JsSpace, 6, 7);
    SkipStartAt(s, JsSpace, 7, 7);
  }

  /** The line breaks of the text the rule leaves behind. */
  lemma BrokenLines(head: string, text: string)
    requires OneLine(text) && OneLine(head)
    ensures Breaks(head + "\n" + text) == 1
    ensures Breaks(head + "\n\n" + text) == 2
  {
    NoBreaks(head);
    NoBreaks(text);
    BreaksAppend(head, "\n");
    BreaksAppend(head + "\n", text);
    BreaksAppend(head, "\n\n");
    BreaksAppend(head + "\n\n", text);
  }

  /** The note `- [ ]`, a blank line, `Text`. */
  lemma BlankLineExample(marker: string, text: string)
    requires marker == "- [ ]" && text == "Text"
    ensures ReplaceAll(EmptyTask, marker + "\n\n" + text) == marker + " \U{200B}\n" + text
    ensures ReplaceAll(EmptyTaskOnLine, marker + "\n\n" + text) == marker + " \U{200B}\n\n" + text
  {
    assert TaskAt(marker, 0);
    CapitalNotSpace(text[0]);
    assert OneLine(text);
    EmptyTaskEatsBlankLine(marker, text);
    EmptyTaskOnLineKeepsBlankLine(marker, text);
    assert marker + [' ', ZeroWidthSpace] + "\n" + text == marker + " \U{200B}\n" + text;
    assert marker + [' ', ZeroWidthSpace] + "\n\n" + text == marker + " \U{200B}\n\n" + text;
  }

  /** Upper-case ASCII letters are not white space. */
  lemma CapitalNotSpace(c: char)
    requires 'A' <= c <= 'Z'
    ensures c !in JsSpace
  {
  }

  // ---------------------------------------------------------------------------
  // The code renderer
  // ---------------------------------------------------------------------------

  /** The children of a `code` element: one string, or anything else. */
  datatype Child = Text(text: string) | Nodes

  /** How a `code` element is rendered: a highlighted block with an optional language, or inline code. */
  datatype CodeView = Block(language: Option<string>) | Inline

  /** `s.includes(t)`, searching from position `i`. */
  function IncludesFrom(s: string, t: string, i: nat): bool
    decreases |s| - i
  {
    i + |t| <= |s| && (s[i..i + |t|] == t || IncludesFrom(s, t, i + 1))
  }

  function Includes(s: string, t: string): bool
  {
    IncludesFrom(s, t, 0)
  }

  /** `t` occurs in `s` at position `k`. */
  predicate OccursAt(s: string, t: string, k: nat)
  {
    k + |t| <= |s| && s[k..k + |t|] == t
  }

  /** The search finds `t` exactly when it occurs at or after `i`. */
  lemma {:induction false} IncludesFromSpec(s: string, t: string, i: nat)
    ensures IncludesFrom(s, t, i) <==> exists k :: i <= k && OccursAt(s, t, k)
    decreases |s| - i
  {
    if i + |t| <= |s| {
      IncludesFromSpec(s, t, i + 1);
      if OccursAt(s, t, i) {
        assert IncludesFrom(s, t, i);
      } else if exists k :: i <= k && OccursAt(s, t, k) {
        var k :| i <= k && OccursAt(s, t, k);
        assert i + 1 <= k;
      }
    }
  }

  /** `\w`: ASCII letters, digits and `_`. */
  predicate IsWordChar(c: char)
  {
    ('a' <= c <= 'z') || ('A' <= c <= 'Z') || ('0' <= c <= '9') || c == '_'
  }

  function WordEnd(s: string, i: nat): (j: nat)
    requires i <= |s|
    ensures i <= j <= |s|
    ensures forall k :: i <= k < j ==> IsWordChar(s[k])
    ensures j < |s| ==> !IsWordChar(s[j])
    decreases |s| - i
  {
    if i < |s| && IsWordChar(s[i]) then WordEnd(s, i + 1) else i
  }

  const LanguagePrefix := "language-"

  /** The capture of `/language-(\w+)/.exec(s)` searching from `i`: the word after the first `language-` that has one. */
  function LanguageFrom(s: string, i: nat): (r: Option<string>)
    ensures r.Some? ==> r.value != [] && (forall k :: 0 <= k < |r.value| ==> IsWordChar(r.value[k]))
                        && IncludesFrom(s, LanguagePrefix + r.value, i)
    decreases |s| - i
  {
    if i + |LanguagePrefix| >= |s| then None
    else if s[i..i + |LanguagePrefix|] == LanguagePrefix && IsWordChar(s[i + |LanguagePrefix|]) then
      var j := i + |LanguagePrefix|;
      var w := s[j..WordEnd(s, j)];
      assert s[i..i + |LanguagePrefix + w|] == LanguagePrefix + w;
      Some(w)
    else
      var r := LanguageFrom(s, i + 1);
      assert r.Some? ==> i + |LanguagePrefix + r.value| <= |s|;
      r
  }

  /** The `code` renderer's choice. */
  function RenderCode(className: Option<string>, child: Child): CodeView
  {
    var cls := className.GetOr("");
    var isBlock := (className.Some? && Includes(className.value, LanguagePrefix))
                   || (child.Text? && '\n' in child.text);
    if isBlock || (child.Text? && |child.text| > 50) then Block(LanguageFrom(cls, 0)) else Inline
  }

  lemma {:induction false} IncludesLonger(s: string, w: string, i: nat)
    requires IncludesFrom(s, LanguagePrefix + w, i)
    ensures IncludesFrom(s, LanguagePrefix, i)
    decreases |s| - i
  {
    var t := LanguagePrefix + w;
    if s[i..i + |t|] == t {
      assert s[i..i + |LanguagePrefix|] == t[..|LanguagePrefix|];
    } else {
      IncludesLonger(s, w, i + 1);
    }
  }

  /** A class naming a language always gives a block, tagged with that language. */
  lemma LanguageMeansBlock(className: string, child: Child)
    requires LanguageFrom(className, 0).Some?
    ensures RenderCode(Some(className), child) == Block(LanguageFrom(className, 0))
  {
    IncludesLonger(className, LanguageFrom(className, 0).value, 0);
  }

  /** Code is inline exactly when it has no `language-` class and is not a string holding a line break or more than 50 characters. */
  lemma InlineExactly(className: Option<string>, child: Child)
    ensures RenderCode(className, child) == Inline
            <==> (className.None? || !(exists k :: OccursAt(className.value, LanguagePrefix, k)))
                 && (child.Nodes? || ('\n' !in child.text && |child.text| <= 50))
  {
    if className.Some? {
      IncludesFromSpec(className.value, LanguagePrefix, 0);
    }
  }

  /** `language-<word>` names that word. */
  lemma LanguageOfClass(w: string, rest: string)
    requires w != [] && forall k :: 0 <= k < |w| ==> IsWordChar(w[k])
    requires rest == [] || !IsWordChar(rest[0])
    ensures LanguageFrom(LanguagePrefix + w + rest, 0) == Some(w)
  {
    var s := LanguagePrefix + w + rest;
    var j := |LanguagePrefix|;
    assert s[..j] == LanguagePrefix;
    assert s[j] == w[0];
    assert forall k :: j <= k < j + |w| ==> s[k] == w[k - j];
    WordEndAt(s, j, j + |w|);
    assert s[j..j + |w|] == w;
  }

  lemma {:induction false} WordEndAt(s: string, i: nat, j: nat)
    requires i <= j <= |s|
    requires forall k :: i <= k < j ==> IsWordChar(s[k])
    requires j < |s| ==> !IsWordChar(s[j])
    ensures WordEnd(s, i) == j
    decreases j - i
  {
    if i < j {
      WordEndAt(s, i + 1, j);
    }
  }
}
