/**
 * The editing commands of the editor toolbar (src/components/toolbar/EditorToolbar.tsx).
 * Each command is modelled on one document string and one selection range,
 * the per-range body of CodeMirror's `changeByRange`; the document's lines
 * are separated by '\n', which is how CodeMirror stores them.
 */
module Toolbar {
  import opened Util

  /** A selection range: `from <= to`, both positions inside the document. */
  datatype Range = Range(from: nat, to: nat)

  /** The document and the selection after a command. */
  datatype Edit = Edit(doc: string, sel: Range)

  predicate ValidRange(doc: string, r: Range)
  {
    r.from <= r.to <= |doc|
  }

  /** The five pieces of `a + x + m + y + b` sit at their offsets. */
  lemma Pieces(a: string, x: string, m: string, y: string, b: string)
    ensures var s := a + x + m + y + b;
            && s[..|a|] == a
            && s[|a|..|a| + |x|] == x
            && s[|a| + |x|..|a| + |x| + |m|] == m
            && s[|a| + |x| + |m|..|a| + |x| + |m| + |y|] == y
            && s[|a| + |x| + |m| + |y|..] == b
  {
    var s := a + x + m + y + b;
    assert s == a + (x + (m + (y + b)));
  }

  lemma ThreeSlices(s: string, i: nat, j: nat)
    requires i <= j <= |s|
    ensures s[..i] + s[i..j] + s[j..] == s
  {
    assert s[..i] + s[i..j] == s[..j];
    assert s[..j] + s[j..] == s;
  }

  // ---------------------------------------------------------------------------
  // wrapSelection
  // ---------------------------------------------------------------------------

  /**
   * A non-empty selection gets `before` inserted at its start and `after` at
   * its end and stays on the same text; an empty one gets
   * `before + placeholder + after` and selects the placeholder.
   */
  function WrapRange(doc: string, r: Range, before: string, after: string, placeholder: string): (e: Edit)
    requires ValidRange(doc, r)
    ensures ValidRange(e.doc, e.sel)
    ensures r.from < r.to ==> |e.doc| == |doc| + |before| + |after|
    ensures r.from == r.to ==> |e.doc| == |doc| + |before| + |placeholder| + |after|
    ensures r.from <= |e.doc| && e.doc[..r.from] == doc[..r.from]
  {
    if r.from < r.to then
      Edit(doc[..r.from] + before + doc[r.from..r.to] + after + doc[r.to..],
           Range(r.from + |before|, r.to + |before|))
    else
      Edit(doc[..r.from] + before + placeholder + after + doc[r.from..],
           Range(r.from + |before|, r.from + |before| + |placeholder|))
  }

  /** A wrapped non-empty selection: the new selection covers the old text, with the markers right around it. */
  lemma WrapKeepsSelection(doc: string, r: Range, before: string, after: string, placeholder: string)
    requires ValidRange(doc, r) && r.from < r.to
    ensures var e := WrapRange(doc, r, before, after, placeholder);
            && e.doc[e.sel.from..e.sel.to] == doc[r.from..r.to]
            && e.doc[r.from..e.sel.from] == before
            && e.doc[e.sel.to..e.sel.to + |after|] == after
            && e.doc[..r.from] + e.doc[e.sel.from..e.sel.to] + e.doc[e.sel.to + |after|..] == doc
  {
    Pieces(doc[..r.from], before, doc[r.from..r.to], after, doc[r.to..]);
    ThreeSlices(doc, r.from, r.to);
  }

  /** A wrapped empty selection: the new selection covers the placeholder, and removing the insertion gives the text back. */
  lemma WrapSelectsPlaceholder(doc: string, r: Range, before: string, after: string, placeholder: string)
    requires ValidRange(doc, r) && r.from == r.to
    ensures var e := WrapRange(doc, r, before, after, placeholder);
            && e.doc[e.sel.from..e.sel.to] == placeholder
            && e.doc[r.from..e.sel.to + |after|] == before + placeholder + after
            && e.doc[..r.from] + e.doc[e.sel.to + |after|..] == doc
  {
    var e := WrapRange(doc, r, before, after, placeholder);
    Pieces(doc[..r.from], before, placeholder, after, doc[r.from..]);
    assert e.doc[r.from..e.sel.to + |after|] == e.doc[r.from..e.sel.from] + e.doc[e.sel.from..e.sel.to] + e.doc[e.sel.to..e.sel.to + |after|];
    assert doc[..r.from] + doc[r.from..] == doc;
  }

  // ---------------------------------------------------------------------------
  // Lines
  // ---------------------------------------------------------------------------

  /** `lineAt(p).from`: the start of the line holding `p`. */
  function LineStart(doc: string, p: nat): (q: nat)
    requires p <= |doc|
    ensures q <= p
    ensures q == 0 || doc[q - 1] == '\n'
    ensures forall k :: q <= k < p ==> doc[k] != '\n'
    decreases p
  {
    if p == 0 || doc[p - 1] == '\n' then p else LineStart(doc, p - 1)
  }

  /** `lineAt(p).to`: the end of the line holding `p`, before its '\n'. */
  function LineEnd(doc: string, p: nat): (q: nat)
    requires p <= |doc|
    ensures p <= q <= |doc|
    ensures q < |doc| ==> doc[q] == '\n'
    ensures forall k :: p <= k < q ==> doc[k] != '\n'
    decreases |doc| - p
  {
    if p == |doc| || doc[p] == '\n' then p else LineEnd(doc, p + 1)
  }

  /** `lineAt(p).text`. */
  function LineText(doc: string, p: nat): string
    requires p <= |doc|
  {
    doc[LineStart(doc, p)..LineEnd(doc, p)]
  }

  /** `LineStart` is the only position with its properties. */
  lemma {:induction false} LineStartAt(doc: string, p: nat, q: nat)
    requires q <= p <= |doc|
    requires q == 0 || doc[q - 1] == '\n'
    requires forall k :: q <= k < p ==> doc[k] != '\n'
    ensures LineStart(doc, p) == q
    decreases p - q
  {
    if q < p {
      LineStartAt(doc, p - 1, q);
    }
  }

  /** `LineEnd` is the only position with its properties. */
  lemma {:induction false} LineEndAt(doc: string, p: nat, q: nat)
    requires p <= q <= |doc|
    requires q < |doc| ==> doc[q] == '\n'
    requires forall k :: p <= k < q ==> doc[k] != '\n'
    ensures LineEnd(doc, p) == q
    decreases q - p
  {
    if p < q {
      LineEndAt(doc, p + 1, q);
    }
  }

  // ---------------------------------------------------------------------------
  // applyLineFormat
  // ---------------------------------------------------------------------------

  /**
   * Inserts `prefix` at the start of the line holding the selection's start
   * and shifts the selection, unless that line already starts with `prefix`;
   * then nothing changes (there is no toggling off).
   */
  function LineFormat(doc: string, r: Range, prefix: string): (e: Edit)
    requires ValidRange(doc, r)
    ensures ValidRange(e.doc, e.sel)
    ensures var ls := LineStart(doc, r.from);
            ls <= |e.doc| && e.doc[..ls] == doc[..ls]
  {
    var ls := LineStart(doc, r.from);
    if StartsWith(LineText(doc, r.from), prefix) then Edit(doc, r)
    else Edit(doc[..ls] + prefix + doc[ls..], Range(r.from + |prefix|, r.to + |prefix|))
  }

  lemma StartsWithAt(d: string, ls: nat, e: nat, prefix: string)
    requires ls + |prefix| <= e <= |d| && d[ls..ls + |prefix|] == prefix
    ensures StartsWith(d[ls..e], prefix)
  {
    assert d[ls..e][..|prefix|] == d[ls..ls + |prefix|];
  }

  /** A line that starts at `ls` and holds `prefix` there starts with `prefix`, seen from any position `p` on it past the prefix. */
  lemma LineWithPrefix(d: string, ls: nat, p: nat, prefix: string)
    requires ls + |prefix| <= p <= |d|
    requires ls == 0 || d[ls - 1] == '\n'
    requires forall k :: ls <= k < p ==> d[k] != '\n'
    requires d[ls..ls + |prefix|] == prefix
    ensures LineStart(d, p) == ls && StartsWith(LineText(d, p), prefix)
  {
    LineStartAt(d, p, ls);
    StartsWithAt(d, ls, LineEnd(d, p), prefix);
  }

  /** After the prefix is inserted the line still starts where it did, and it now starts with the prefix. */
  lemma InsertedPrefixLine(doc: string, r: Range, prefix: string)
    requires ValidRange(doc, r) && '\n' !in prefix
    ensures var ls := LineStart(doc, r.from);
            var d := doc[..ls] + prefix + doc[ls..];
            var p := r.from + |prefix|;
            p <= |d| && LineStart(d, p) == ls && StartsWith(LineText(d, p), prefix)
  {
    var ls := LineStart(doc, r.from);
    var d := doc[..ls] + prefix + doc[ls..];
    var p := r.from + |prefix|;
    forall k | ls <= k < p
      ensures d[k] != '\n'
    {
      if k < ls + |prefix| {
        assert d[k] == prefix[k - ls];
      } else {
        assert d[k] == doc[k - |prefix|];
      }
    }
    assert ls > 0 ==> d[ls - 1] == doc[ls - 1];
    assert d[ls..ls + |prefix|] == prefix;
    LineWithPrefix(d, ls, p, prefix);
  }

  /** Formatting a line twice is formatting it once. */
  lemma LineFormatIdempotent(doc: string, r: Range, prefix: string)
    requires ValidRange(doc, r) && '\n' !in prefix
    ensures var e := LineFormat(doc, r, prefix);
            LineFormat(e.doc, e.sel, prefix) == e
  {
    var e := LineFormat(doc, r, prefix);
    LineFormatStarts(doc, r, prefix);
    assert LineFormat(e.doc, e.sel, prefix) == Edit(e.doc, e.sel);
  }

  /** After formatting, the line holding the selection's start begins with the prefix. */
  lemma LineFormatStarts(doc: string, r: Range, prefix: string)
    requires ValidRange(doc, r) && '\n' !in prefix
    ensures var e := LineFormat(doc, r, prefix);
            StartsWith(LineText(e.doc, e.sel.from), prefix)
  {
    var e := LineFormat(doc, r, prefix);
    if !StartsWith(LineText(doc, r.from), prefix) {
      var ls := LineStart(doc, r.from);
      InsertedPrefixLine(doc, r, prefix);
      assert e.doc == doc[..ls] + prefix + doc[ls..];
      assert e.sel.from == r.from + |prefix|;
    }
  }

  /** Formatting only ever inserts the prefix at the line start: removing it again gives the text back. */
  lemma LineFormatUndo(doc: string, r: Range, prefix: string)
    requires ValidRange(doc, r)
    ensures var e := LineFormat(doc, r, prefix);
            var ls := LineStart(doc, r.from);
            e.doc == doc || (e.doc[ls..ls + |prefix|] == prefix && e.doc[..ls] + e.doc[ls + |prefix|..] == doc)
  {
    var ls := LineStart(doc, r.from);
    var d := doc[..ls] + prefix + doc[ls..];
    assert d[ls..ls + |prefix|] == prefix;
    assert d[..ls] == doc[..ls];
    assert d[ls + |prefix|..] == doc[ls..];
    assert doc[..ls] + doc[ls..] == doc;
  }

  // ---------------------------------------------------------------------------
  // applyNumberedList
  // ---------------------------------------------------------------------------

  predicate IsDigit(c: char)
  {
    '0' <= c <= '9'
  }

  /** The end of the run of ASCII digits starting at `i`. */
  function DigitEnd(t: string, i: nat): (j: nat)
    requires i <= |t|
    ensures i <= j <= |t|
    ensures forall k :: i <= k < j ==> IsDigit(t[k])
    ensures j < |t| ==> !IsDigit(t[j])
    decreases |t| - i
  {
    if i < |t| && IsDigit(t[i]) then DigitEnd(t, i + 1) else i
  }

  /** `parseInt(d, 10)` of a run of ASCII digits. */
  function ParseDigits(d: string): nat
    requires forall k :: 0 <= k < |d| ==> IsDigit(d[k])
  {
    if d == [] then 0 else 10 * ParseDigits(d[..|d| - 1]) + DigitValue(d[|d| - 1])
  }

  function DigitValue(c: char): nat
    requires IsDigit(c)
  {
    c as int - '0' as int
  }

  /** `${n}`: the decimal digits of `n`. */
  function Show(n: nat): (d: string)
    ensures d != [] && forall k :: 0 <= k < |d| ==> IsDigit(d[k])
  {
    if n < 10 then [('0' as int + n) as char] else Show(n / 10) + [('0' as int + n % 10) as char]
  }

  lemma {:induction false} ParseShow(n: nat)
    ensures ParseDigits(Show(n)) == n
  {
    if n >= 10 {
      var d := Show(n);
      assert d[..|d| - 1] == Show(n / 10);
      ParseShow(n / 10);
    }
  }

  /** The number of `/^(\d+)\.\s/` on a line's text, if it matches. */
  function LeadingNumber(t: string): (r: Option<nat>)
    ensures r.Some? ==> |t| >= 3 && IsDigit(t[0])
  {
    var j := DigitEnd(t, 0);
    if 1 <= j && j + 1 < |t| && t[j] == '.' && t[j + 1] in JsSpace then Some(ParseDigits(t[..j])) else None
  }

  /** The number of a line written `n. ` is read back as `n`. */
  lemma LeadingNumberShow(n: nat, rest: string)
    ensures LeadingNumber(Show(n) + ". " + rest) == Some(n)
  {
    var d := Show(n);
    var t := d + ". " + rest;
    assert forall k :: 0 <= k < |d| ==> t[k] == d[k];
    assert t[|d|] == '.' && t[|d| + 1] == ' ';
    assert DigitEnd(t, |d|) == |d|;
    DigitEndFrom(t, 0, |d|);
    assert t[..|d|] == d;
    ParseShow(n);
  }

  lemma {:induction false} DigitEndFrom(t: string, i: nat, j: nat)
    requires i <= j <= |t|
    requires forall k :: i <= k < j ==> IsDigit(t[k])
    ensures DigitEnd(t, i) == DigitEnd(t, j)
    decreases j - i
  {
    if i < j {
      DigitEndFrom(t, i + 1, j);
    }
  }

  /** The prefix `applyNumberedList` uses: one more than the previous line's number, or `1. `. */
  function NumberPrefix(doc: string, p: nat): string
    requires p <= |doc|
  {
    var ls := LineStart(doc, p);
    var next :=
      if ls == 0 then 1
      else match LeadingNumber(LineText(doc, ls - 1))
        case Some(n) => n + 1
        case None => 1;
    Show(next) + ". "
  }

  function NumberedList(doc: string, r: Range): (e: Edit)
    requires ValidRange(doc, r)
    ensures ValidRange(e.doc, e.sel)
    ensures var ls := LineStart(doc, r.from);
            ls <= |e.doc| && e.doc[..ls] == doc[..ls]
  {
    LineFormat(doc, r, NumberPrefix(doc, r.from))
  }

  /** A line under `n. ...` is numbered `n + 1`. */
  lemma NumberingContinues(doc: string, r: Range, n: nat, rest: string)
    requires ValidRange(doc, r)
    requires LineStart(doc, r.from) > 0
    requires LineText(doc, LineStart(doc, r.from) - 1) == Show(n) + ". " + rest
    ensures NumberPrefix(doc, r.from) == Show(n + 1) + ". "
  {
    LeadingNumberShow(n, rest);
  }

  /** The first line of the document, and a line under one that is not numbered, is numbered 1. */
  lemma NumberingStarts(doc: string, r: Range)
    requires ValidRange(doc, r)
    requires var ls := LineStart(doc, r.from);
             ls == 0 || LineText(doc, ls - 1) == [] || !IsDigit(LineText(doc, ls - 1)[0])
    ensures NumberPrefix(doc, r.from) == "1. "
  {
    assert Show(1) == "1";
  }

  /**
   * `/^(\d+)\.\s/` matches `t` with the digits `t[..j]`: a non-empty run of
   * ASCII digits, then `.`, then one JavaScript white-space character.
   */
  predicate NumberSplit(t: string, j: nat)
  {
    1 <= j && j + 1 < |t| && (forall k :: 0 <= k < j ==> IsDigit(t[k])) && t[j] == '.' && t[j + 1] in JsSpace
  }

  /** `LeadingNumber` reads a number exactly when the pattern matches, and the number is the matched digits'. */
  lemma LeadingNumberSplit(t: string)
    ensures forall j: nat :: NumberSplit(t, j) ==> LeadingNumber(t) == Some(ParseDigits(t[..j]))
    ensures LeadingNumber(t).Some? ==> NumberSplit(t, DigitEnd(t, 0))
  {
    forall j: nat | NumberSplit(t, j)
      ensures LeadingNumber(t) == Some(ParseDigits(t[..j]))
    {
      DigitEndFrom(t, 0, j);
    }
  }

  /** The text of the line above the one holding `p`; empty on the first line, where nothing matches. */
  function LineAbove(doc: string, p: nat): string
    requires p <= |doc|
  {
    var ls := LineStart(doc, p);
    if ls == 0 then "" else LineText(doc, ls - 1)
  }

  /** The number that `NumberPrefix` writes, read off the line above. */
  function NextNumber(t: string): (n: nat)
    ensures n >= 1
  {
    match LeadingNumber(t)
    case Some(m) => m + 1
    case None => 1
  }

  lemma NumberPrefixAbove(doc: string, p: nat)
    requires p <= |doc|
    ensures NumberPrefix(doc, p) == Show(NextNumber(LineAbove(doc, p))) + ". "
  {
    assert LeadingNumber("") == None;
  }

  /**
   * The whole rule of `applyNumberedList`: under a line matching
   * `/^(\d+)\.\s/` the prefix is one more than its digits' value (so
   * `007. x` gives `8. ` and `3.\tx` gives `4. `); on the first line, or under
   * a line that does not match (`3 apples`, `3.x`, `12`), it is `1. `.
   * `1. ` also follows a line numbered zero.
   */
  lemma NumberPrefixRule(doc: string, p: nat)
    requires p <= |doc|
    ensures forall j: nat :: NumberSplit(LineAbove(doc, p), j) ==>
              NumberPrefix(doc, p) == Show(ParseDigits(LineAbove(doc, p)[..j]) + 1) + ". "
    ensures (forall j: nat :: !NumberSplit(LineAbove(doc, p), j)) ==> NumberPrefix(doc, p) == "1. "
    ensures NumberPrefix(doc, p) == "1. " ==>
              forall j: nat :: NumberSplit(LineAbove(doc, p), j) ==> ParseDigits(LineAbove(doc, p)[..j]) == 0
  {
    var t := LineAbove(doc, p);
    NumberPrefixAbove(doc, p);
    LeadingNumberSplit(t);
    assert Show(1) == "1";
    if NumberPrefix(doc, p) == "1. " {
      forall j: nat | NumberSplit(t, j)
        ensures ParseDigits(t[..j]) == 0
      {
        var m := ParseDigits(t[..j]) + 1;
        var d := Show(m);
        assert d + ". " == "1. ";
        assert |d| == 1 && d[0] == (d + ". ")[0];
        assert d == "1";
        ParseShow(m);
      }
    }
  }

  /** The examples of the rule: `007. x`, `3.\tx`, `3 apples`, `3.x` and `12`. */
  lemma LeadingNumberExamples()
    ensures LeadingNumber("007. x") == Some(7)
    ensures LeadingNumber("3.\tx") == Some(3)
    ensures LeadingNumber("3 apples") == None
    ensures LeadingNumber("3.x") == None
    ensures LeadingNumber("12") == None
  {
    LeadingNumberSplit("007. x");
    assert NumberSplit("007. x", 3);
    assert "007. x"[..3] == "007";
    assert ParseDigits("007") == 7 by {
      assert "007"[..2] == "00";
      assert "00"[..1] == "0";
      assert "0"[..0] == "";
    }
    LeadingNumberSplit("3.\tx");
    assert NumberSplit("3.\tx", 1);
    assert "3.\tx"[..1] == "3";
    assert ParseDigits("3") == 3 by {
      assert "3"[..0] == "";
    }
  }

  // ---------------------------------------------------------------------------
  // insertLink
  // ---------------------------------------------------------------------------

  const LinkTarget := "](https://example.com)"

  /** The text of the link: the selected text, or "link text" for an empty selection. */
  function LinkText(doc: string, r: Range): string
    requires ValidRange(doc, r)
  {
    if r.from < r.to then doc[r.from..r.to] else "link text"
  }

  /** Replaces the selection with `[text](https://example.com)` and selects the text. */
  function InsertLink(doc: string, r: Range): (e: Edit)
    requires ValidRange(doc, r)
    ensures ValidRange(e.doc, e.sel)
    ensures r.from <= |e.doc| && e.doc[..r.from] == doc[..r.from]
  {
    var text := LinkText(doc, r);
    Edit(doc[..r.from] + "[" + text + LinkTarget + doc[r.to..], Range(r.from + 1, r.from + 1 + |text|))
  }

  /** The new selection covers the link text, between `[` and `](https://example.com)`, and the text around is kept. */
  lemma LinkSelectsText(doc: string, r: Range)
    requires ValidRange(doc, r)
    ensures var e := InsertLink(doc, r);
            var text := LinkText(doc, r);
            && e.doc[e.sel.from..e.sel.to] == text
            && e.doc[r.from] == '['
            && e.doc[e.sel.to..e.sel.to + |LinkTarget|] == LinkTarget
            && e.doc[..r.from] == doc[..r.from]
            && e.doc[e.sel.to + |LinkTarget|..] == doc[r.to..]
            && (r.from < r.to ==> text == doc[r.from..r.to])
  {
    Pieces(doc[..r.from], "[", LinkText(doc, r), LinkTarget, doc[r.to..]);
  }

  // ---------------------------------------------------------------------------
  // insertCodeBlock
  // ---------------------------------------------------------------------------

  /** The code-block command, with the selection width `9` written out as the source has it. */
  function CodeBlock(doc: string, r: Range): (e: Edit)
    requires ValidRange(doc, r)
    ensures ValidRange(e.doc, e.sel)
    ensures r.from <= |e.doc| && e.doc[..r.from] == doc[..r.from]
  {
    var before := "```\n";
    var after := "\n```";
    if r.from < r.to then
      Edit(doc[..r.from] + before + doc[r.from..r.to] + after + doc[r.to..],
           Range(r.from + |before|, r.to + |before|))
    else
      Edit(doc[..r.from] + before + "code here" + after + doc[r.from..],
           Range(r.from + |before|, r.from + |before| + 9))
  }

  /** The code block is a wrap with fences: in particular the 9 characters selected are exactly `code here`. */
  lemma CodeBlockIsWrap(doc: string, r: Range)
    requires ValidRange(doc, r)
    ensures CodeBlock(doc, r) == WrapRange(doc, r, "```\n", "\n```", "code here")
    ensures r.from == r.to ==>
              var e := CodeBlock(doc, r);
              e.doc[e.sel.from..e.sel.to] == "code here"
  {
    assert |"code here"| == 9;
    if r.from == r.to {
      WrapSelectsPlaceholder(doc, r, "```\n", "\n```", "code here");
    }
  }

  // ---------------------------------------------------------------------------
  // insertTable
  // ---------------------------------------------------------------------------

  function Repeat(s: string, n: nat): string
  {
    if n == 0 then [] else Repeat(s, n - 1) + s
  }

  /** A table line: `|` then `n` copies of `cell`, without the line break. */
  function TableLine(cell: string, n: nat): string
  {
    "|" + Repeat(cell, n)
  }

  const HeaderCell := " Header |"
  const SeparatorCell := " :--- |"
  const BodyCell := " Cell |"

  /** The inserted table: a line break, the header, the separator and `rows` body lines, each ending in a line break. */
  function TableTemplate(rows: nat, cols: nat): string
  {
    "\n" + TableLine(HeaderCell, cols) + "\n" + TableLine(SeparatorCell, cols) + "\n"
    + Repeat(TableLine(BodyCell, cols) + "\n", rows)
  }

  /** The string building of `insertTable`. */
  method BuildTable(rows: nat, cols: nat) returns (t: string)
    ensures t == TableTemplate(rows, cols)
  {
    var header := "|";
    var separator := "|";
    var i := 0;
    while i < cols
      invariant i <= cols
      invariant header == TableLine(HeaderCell, i)
      invariant separator == TableLine(SeparatorCell, i)
    {
      header := header + HeaderCell;
      separator := separator + SeparatorCell;
      i := i + 1;
    }
    header := header + "\n";
    separator := separator + "\n";
    var body := "";
    var r := 0;
    while r < rows
      invariant r <= rows
      invariant body == Repeat(TableLine(BodyCell, cols) + "\n", r)
    {
      var line := "|";
      var c := 0;
      while c < cols
        invariant c <= cols
        invariant line == TableLine(BodyCell, c)
      {
        line := line + BodyCell;
        c := c + 1;
      }
      body := body + line + "\n";
      r := r + 1;
    }
    t := "\n" + header + separator + body;
  }

  /** The table is inserted at the end of the line holding the selection's start, and the selection is set 3..9 after it. */
  function TableEdit(doc: string, r: Range, rows: nat, cols: nat): (e: Edit)
    requires ValidRange(doc, r)
    ensures var to := LineEnd(doc, r.from);
            to <= |e.doc| && e.doc[..to] == doc[..to]
  {
    var to := LineEnd(doc, r.from);
    Edit(doc[..to] + TableTemplate(rows, cols) + doc[to..], Range(to + 3, to + 9))
  }

  method InsertTable(doc: string, r: Range, rows: nat, cols: nat) returns (e: Edit)
    requires ValidRange(doc, r)
    ensures e == TableEdit(doc, r, rows, cols)
  {
    var template := BuildTable(rows, cols);
    var to := LineEnd(doc, r.from);
    e := Edit(doc[..to] + template + doc[to..], Range(to + 3, to + 9));
  }

  lemma {:induction false} RepeatPrefix(s: string, n: nat)
    requires n >= 1
    ensures Repeat(s, n) == s + Repeat(s, n - 1)
  {
    if n > 1 {
      RepeatPrefix(s, n - 1);
    }
  }

  /** The template opens with a line break, `|` and the first ` Header |` cell. */
  lemma TemplateOpens(rows: nat, cols: nat)
    requires cols >= 1
    ensures var t := TableTemplate(rows, cols);
            |t| >= 11 && t[3..9] == "Header"
  {
    RepeatPrefix(HeaderCell, cols);
    var tl := TableLine(HeaderCell, cols);
    assert tl == "|" + (HeaderCell + Repeat(HeaderCell, cols - 1));
    var a := "\n" + tl;
    assert a[3..9] == HeaderCell[1..7];
    var b := a + "\n" + TableLine(SeparatorCell, cols) + "\n";
    PrefixSlice(a, "\n", 3, 9);
    PrefixSlice(a + "\n", TableLine(SeparatorCell, cols), 3, 9);
    PrefixSlice(a + "\n" + TableLine(SeparatorCell, cols), "\n", 3, 9);
    PrefixSlice(b, Repeat(TableLine(BodyCell, cols) + "\n", rows), 3, 9);
  }

  lemma PrefixSlice(x: string, y: string, i: nat, j: nat)
    requires i <= j <= |x|
    ensures (x + y)[i..j] == x[i..j]
  {
  }

  lemma SliceInside(a: string, t: string, b: string, i: nat, j: nat)
    requires i <= j <= |t|
    ensures (a + t + b)[|a| + i..|a| + j] == t[i..j]
  {
    var s := a + t + b;
    assert forall k :: |a| + i <= k < |a| + j ==> s[k] == t[k - |a|];
  }

  /** With at least one column the selection lands on the first `Header`. */
  lemma TableSelectsHeader(doc: string, r: Range, rows: nat, cols: nat)
    requires ValidRange(doc, r) && cols >= 1
    ensures var e := TableEdit(doc, r, rows, cols);
            ValidRange(e.doc, e.sel) && e.doc[e.sel.from..e.sel.to] == "Header"
  {
    var to := LineEnd(doc, r.from);
    TemplateOpens(rows, cols);
    SliceInside(doc[..to], TableTemplate(rows, cols), doc[to..], 3, 9);
  }

  lemma TableSelectsHeaderIf(doc: string, r: Range, rows: nat, cols: nat)
    requires ValidRange(doc, r)
    ensures var e := TableEdit(doc, r, rows, cols);
            cols >= 1 ==> ValidRange(e.doc, e.sel)
  {
    if cols >= 1 {
      TableSelectsHeader(doc, r, rows, cols);
    }
  }

  /** A sequence of `n` copies of `x`. */
  function Copies(x: string, n: nat): (r: seq<string>)
    ensures |r| == n && forall k :: 0 <= k < n ==> r[k] == x
  {
    if n == 0 then [] else Copies(x, n - 1) + [x]
  }

  lemma {:induction false} RepeatShift(x: string, n: nat)
    ensures Repeat("\n" + x, n) + "\n" == "\n" + Repeat(x + "\n", n)
  {
    if n > 0 {
      RepeatShift(x, n - 1);
      calc {
        Repeat("\n" + x, n) + "\n";
        Repeat("\n" + x, n - 1) + ("\n" + x) + "\n";
        (Repeat("\n" + x, n - 1) + "\n") + x + "\n";
        "\n" + Repeat(x + "\n", n - 1) + x + "\n";
        "\n" + (Repeat(x + "\n", n - 1) + (x + "\n"));
      }
    }
  }

  lemma {:induction false} JoinBodyLines(h: string, s: string, b: string, n: nat)
    ensures Join(["", h, s] + Copies(b, n), '\n') == "\n" + h + "\n" + s + Repeat("\n" + b, n)
  {
    if n == 0 {
      assert ["", h, s] + Copies(b, 0) == ["", h, s];
      assert ["", h, s][1..] == [h, s];
      assert [h, s][1..] == [s];
      assert Join([h, s], '\n') == h + "\n" + s;
      assert Join(["", h, s], '\n') == "" + "\n" + (h + "\n" + s);
    } else {
      var prev := ["", h, s] + Copies(b, n - 1);
      var head := "\n" + h + "\n" + s;
      JoinBodyLines(h, s, b, n - 1);
      assert ["", h, s] + Copies(b, n) == prev + [b];
      JoinSnoc(prev, b, '\n');
      calc {
        Join(prev + [b], '\n');
        Join(prev, '\n') + "\n" + b;
        (head + Repeat("\n" + b, n - 1)) + "\n" + b;
        head + (Repeat("\n" + b, n - 1) + ("\n" + b));
        head + Repeat("\n" + b, n);
      }
    }
  }

  /**
   * The table's lines: an empty one (the break after the cursor line), the
   * header, the separator, `rows` body lines and an empty one after the
   * last break; each table line has `cols` cells.
   */
  lemma TableLines(rows: nat, cols: nat)
    ensures Split(TableTemplate(rows, cols), '\n')
            == ["", TableLine(HeaderCell, cols), TableLine(SeparatorCell, cols)] + Copies(TableLine(BodyCell, cols), rows) + [""]
  {
    var h, s, b := TableLine(HeaderCell, cols), TableLine(SeparatorCell, cols), TableLine(BodyCell, cols);
    var lines := ["", h, s] + Copies(b, rows);
    JoinBodyLines(h, s, b, rows);
    JoinSnoc(lines, "", '\n');
    RepeatShift(b, rows);
    var head := "\n" + h + "\n" + s;
    calc {
      Join(lines + [""], '\n');
      head + Repeat("\n" + b, rows) + "\n" + "";
      head + (Repeat("\n" + b, rows) + "\n");
      head + ("\n" + Repeat(b + "\n", rows));
      TableTemplate(rows, cols);
    }
    NoBreakInLines(cols);
    SplitJoin(lines + [""], '\n');
  }

  lemma {:induction false} NoBreakRepeat(cell: string, n: nat)
    requires '\n' !in cell
    ensures '\n' !in Repeat(cell, n)
  {
    if n > 0 {
      NoBreakRepeat(cell, n - 1);
    }
  }

  lemma NoBreakInLines(cols: nat)
    ensures '\n' !in TableLine(HeaderCell, cols)
    ensures '\n' !in TableLine(SeparatorCell, cols)
    ensures '\n' !in TableLine(BodyCell, cols)
  {
    NoBreakRepeat(HeaderCell, cols);
    NoBreakRepeat(SeparatorCell, cols);
    NoBreakRepeat(BodyCell, cols);
  }

  // ---------------------------------------------------------------------------
  // The size grid and the buttons
  // ---------------------------------------------------------------------------

  /** The table size of cell `i` of the 8 x 8 grid: row `i / 8 + 1`, column `i % 8 + 1`. */
  function GridSize(i: nat): (size: (nat, nat))
    requires i < 64
    ensures 1 <= size.0 <= 8 && 1 <= size.1 <= 8
  {
    (i / 8 + 1, i % 8 + 1)
  }

  /** Every size from 1 x 1 to 8 x 8 is offered by exactly one cell. */
  lemma GridOneToOne(i: nat, j: nat, rows: nat, cols: nat)
    requires i < 64 && j < 64
    requires 1 <= rows <= 8 && 1 <= cols <= 8
    ensures GridSize(i) == GridSize(j) ==> i == j
    ensures GridSize((rows - 1) * 8 + (cols - 1)) == (rows, cols)
  {
  }

  /**
   * The toolbar buttons and the edits they make: `InlineCode` is the button
   * that wraps the selection in backticks, `CodeFence` the one that inserts
   * a fenced code block.
   */
  datatype Button =
    | Bold | Italic | H1 | H2 | H3 | BulletList | Numbered | Checkbox | Link
    | InlineCode | CodeFence | Table(rows: nat, cols: nat)

  /** The prefix of a line-format button. */
  function LinePrefix(b: Button): Option<string>
  {
    match b
    case H1 => Some("# ")
    case H2 => Some("## ")
    case H3 => Some("### ")
    case BulletList => Some("- ")
    case Checkbox => Some("- [ ] ")
    case _ => None
  }

  /**
   * Every button keeps the text before the line holding the selection's
   * start, and leaves a valid selection behind (a table from the grid has at
   * least one column).
   */
  function Press(b: Button, doc: string, r: Range): (e: Edit)
    requires ValidRange(doc, r)
    ensures (b.Table? ==> b.cols >= 1) ==> ValidRange(e.doc, e.sel)
    ensures var ls := LineStart(doc, r.from);
            ls <= |e.doc| && e.doc[..ls] == doc[..ls]
  {
    var ls := LineStart(doc, r.from);
    match b
    case Bold => var e := WrapRange(doc, r, "**", "**", "text"); ShorterPrefix(doc, e.doc, ls, r.from); e
    case Italic => var e := WrapRange(doc, r, "_", "_", "text"); ShorterPrefix(doc, e.doc, ls, r.from); e
    case Numbered => NumberedList(doc, r)
    case Link => var e := InsertLink(doc, r); ShorterPrefix(doc, e.doc, ls, r.from); e
    case InlineCode => var e := WrapRange(doc, r, "`", "`", "text"); ShorterPrefix(doc, e.doc, ls, r.from); e
    case CodeFence => var e := CodeBlock(doc, r); ShorterPrefix(doc, e.doc, ls, r.from); e
    case Table(rows, cols) =>
      var e := TableEdit(doc, r, rows, cols);
      TableSelectsHeaderIf(doc, r, rows, cols);
      ShorterPrefix(doc, e.doc, ls, LineEnd(doc, r.from));
      e
    case _ => LineFormat(doc, r, LinePrefix(b).value)
  }

  /** Two texts that agree before `p` agree before any `q <= p`. */
  lemma ShorterPrefix(doc: string, d: string, q: nat, p: nat)
    requires q <= p <= |d| && p <= |doc| && d[..p] == doc[..p]
    ensures d[..q] == doc[..q]
  {
    assert d[..q] == d[..p][..q];
  }


  /** Pressing a heading, list or checkbox button a second time changes nothing. */
  lemma LineButtonsIdempotent(b: Button, doc: string, r: Range)
    requires ValidRange(doc, r) && LinePrefix(b).Some?
    ensures var e := Press(b, doc, r);
            ValidRange(e.doc, e.sel) && Press(b, e.doc, e.sel) == e
  {
    var prefix := LinePrefix(b).value;
    assert '\n' !in prefix;
    LineFormatIdempotent(doc, r, prefix);
  }
}
