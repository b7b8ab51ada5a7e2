/**
 * The share popup (src/components/popups/SharePopup.tsx): for the active
 * note, copy its markdown, copy a plain-text rendering of it, or download
 * it as a `.md` file.  The clipboard, the toast and the download link are
 * left out; an action yields the text or file it would hand to them.
 */
module Share {
  import opened Util
  import opened JsReplace
  import opened Entities
  import opened SidebarTree

  // ---------------------------------------------------------------------------
  // Removing the markdown marks
  // ---------------------------------------------------------------------------

  /** The characters `/[#*`_~]/g` removes. */
  const Marks: set<char> := {'#', '*', '`', '_', '~'}

  /** The first replacement: every mark deleted. */
  function RemoveMarks(s: string): (r: string)
    ensures |r| <= |s|
  {
    if s == [] then []
    else (if s[0] in Marks then [] else [s[0]]) + RemoveMarks(s[1..])
  }

  /** The result holds exactly the characters of the text that are not marks. */
  lemma {:induction false} RemoveMarksChars(s: string)
    ensures forall c :: c in RemoveMarks(s) <==> c in s && c !in Marks
  {
    if s != [] {
      RemoveMarksChars(s[1..]);
      assert s == [s[0]] + s[1..];
    }
  }

  /** Text without marks is kept as it is. */
  lemma {:induction false} RemoveMarksKeeps(s: string)
    requires forall k :: 0 <= k < |s| ==> s[k] !in Marks
    ensures RemoveMarks(s) == s
  {
    if s != [] {
      RemoveMarksKeeps(s[1..]);
      assert s == [s[0]] + s[1..];
    }
  }

  lemma {:induction false} RemoveMarksAppend(a: string, b: string)
    ensures RemoveMarks(a + b) == RemoveMarks(a) + RemoveMarks(b)
  {
    if a == [] {
      assert a + b == b;
    } else {
      assert (a + b)[1..] == a[1..] + b;
      RemoveMarksAppend(a[1..], b);
    }
  }

  // ---------------------------------------------------------------------------
  // Links
  // ---------------------------------------------------------------------------

  /** No line terminator in `s[i..j]`: `.` matches none of them. */
  predicate InLine(s: string, i: nat, j: nat)
    requires i <= j <= |s|
  {
    forall k :: i <= k < j ==> s[k] !in JsLineTerminators
  }

  /** `/\[(.*?)\]\(.*?\)/` can match at `p` with its `](` at `j` and its `)` at `k`. */
  predicate LinkShape(s: string, p: nat, j: nat, k: nat)
  {
    p < j && j + 2 <= k < |s| && s[p] == '[' && s[j] == ']' && s[j + 1] == '(' && s[k] == ')'
    && InLine(s, p + 1, j) && InLine(s, j + 2, k)
  }

  /** The first `](` at or after `i`, before the end of the line. */
  function CloseAt(s: string, i: nat): (r: Option<nat>)
    ensures r.Some? ==> i <= r.value && r.value + 1 < |s| && s[r.value] == ']' && s[r.value + 1] == '('
    decreases |s| - i
  {
    if i + 1 >= |s| || s[i] in JsLineTerminators then None
    else if s[i] == ']' && s[i + 1] == '(' then Some(i)
    else CloseAt(s, i + 1)
  }

  /** The first `)` at or after `i`, before the end of the line. */
  function ParenAt(s: string, i: nat): (r: Option<nat>)
    ensures r.Some? ==> i <= r.value < |s| && s[r.value] == ')'
    decreases |s| - i
  {
    if i >= |s| || s[i] in JsLineTerminators then None
    else if s[i] == ')' then Some(i)
    else ParenAt(s, i + 1)
  }

  /**
   * Where the link at `p` has its `](` and its `)`.  Both groups are lazy, so
   * the engine takes the first `](` on the line; a later one could only look
   * for its `)` in less of the same line, so trying it never helps.
   */
  function LinkEnds(s: string, p: nat): Option<(nat, nat)>
  {
    if p < |s| && s[p] == '[' then
      match CloseAt(s, p + 1)
      case None => None
      case Some(j) =>
        (match ParenAt(s, j + 2)
         case None => None
         case Some(k) => Some((j, k)))
    else None
  }

  /** The link at `p`, replaced by its text (`$1`). */
  function LinkAt(s: string, p: nat): (r: Option<Match>)
    ensures r.Some? ==> p < r.value.end <= |s|
  {
    match LinkEnds(s, p)
    case None => None
    case Some((j, k)) => Some(Match(k + 1, s[p + 1..j]))
  }

  lemma {:induction false} CloseAtSpec(s: string, i: nat)
    ensures CloseAt(s, i).Some? ==> i <= |s| && InLine(s, i, CloseAt(s, i).value)
    ensures forall j :: i <= j && j + 1 < |s| && s[j] == ']' && s[j + 1] == '(' && InLine(s, i, j) ==>
              CloseAt(s, i).Some? && CloseAt(s, i).value <= j
    decreases |s| - i
  {
    if !(i + 1 >= |s| || s[i] in JsLineTerminators) && !(s[i] == ']' && s[i + 1] == '(') {
      CloseAtSpec(s, i + 1);
      forall j | i <= j && j + 1 < |s| && s[j] == ']' && s[j + 1] == '(' && InLine(s, i, j)
        ensures CloseAt(s, i).Some? && CloseAt(s, i).value <= j
      {
        assert InLine(s, i + 1, j);
      }
    }
  }

  lemma {:induction false} ParenAtSpec(s: string, i: nat)
    ensures ParenAt(s, i).Some? ==> i <= |s| && InLine(s, i, ParenAt(s, i).value)
    ensures forall k :: i <= k < |s| && s[k] == ')' && InLine(s, i, k) ==>
              ParenAt(s, i).Some? && ParenAt(s, i).value <= k
    decreases |s| - i
  {
    if !(i >= |s| || s[i] in JsLineTerminators) && s[i] != ')' {
      ParenAtSpec(s, i + 1);
      forall k | i <= k < |s| && s[k] == ')' && InLine(s, i, k)
        ensures ParenAt(s, i).Some? && ParenAt(s, i).value <= k
      {
        assert InLine(s, i + 1, k);
      }
    }
  }

  /** What the engine finds is a link. */
  lemma LinkEndsSound(s: string, p: nat)
    requires LinkEnds(s, p).Some?
    ensures LinkShape(s, p, LinkEnds(s, p).value.0, LinkEnds(s, p).value.1)
  {
    CloseAtSpec(s, p + 1);
    ParenAtSpec(s, CloseAt(s, p + 1).value + 2);
  }

  /** And of all the links at `p`, it finds the one with the first `](` and then the first `)`. */
  lemma LinkEndsLeast(s: string, p: nat, j: nat, k: nat)
    requires LinkShape(s, p, j, k)
    ensures LinkEnds(s, p).Some?
    ensures var (j0, k0) := LinkEnds(s, p).value; j0 < j || (j0 == j && k0 <= k)
  {
    CloseAtSpec(s, p + 1);
    var j0 := CloseAt(s, p + 1).value;
    assert InLine(s, p + 1, j0);
    ParenAtSpec(s, j0 + 2);
    if j0 < j {
      assert InLine(s, j0 + 2, k);
    }
  }

  /** No link starts at `p` exactly when the engine finds none there. */
  lemma NoLinkAt(s: string, p: nat)
    ensures LinkEnds(s, p).None? <==> forall j, k :: !LinkShape(s, p, j, k)
  {
    if LinkEnds(s, p).Some? {
      LinkEndsSound(s, p);
    }
    forall j, k | LinkShape(s, p, j, k) ensures LinkEnds(s, p).Some? {
      LinkEndsLeast(s, p, j, k);
    }
  }

  function LinkMatcher(): (f: Matcher)
    ensures forall s: string :: Advances(f, s)
  {
    (s: string, p: nat) => LinkAt(s, p)
  }

  /** The second replacement: every link replaced by its text, so nothing new is written. */
  function ReplaceLinks(s: string): (r: string)
    ensures forall c :: c in r ==> c in s
  {
    LinksFromMatched(s);
    ScanChars(LinkMatcher(), s, 0);
    assert s[0..] == s;
    Scan(LinkMatcher(), s, 0)
  }

  /** `handleCopyPlainText`'s conversion. */
  function PlainText(content: string): string
  {
    ReplaceLinks(RemoveMarks(content))
  }

  /** A link's text lies inside the link. */
  lemma LinkFromMatched(s: string, p: nat)
    requires p <= |s|
    ensures FromMatched(LinkAt(s, p), s, p)
  {
    if LinkAt(s, p).Some? {
      LinkEndsSound(s, p);
      var (j, k) := LinkEnds(s, p).value;
      assert LinkAt(s, p).value == Match(k + 1, s[p + 1..j]);
      assert s[p + 1..j] == s[p..k + 1][1..j - p];
    }
  }

  /** Every link match of a text draws its replacement from what it matched. */
  lemma LinksFromMatched(s: string)
    ensures forall i: nat :: i <= |s| ==> FromMatched(LinkMatcher()(s, i), s, i)
  {
    forall i: nat | i <= |s| ensures FromMatched(LinkMatcher()(s, i), s, i) {
      LinkFromMatched(s, i);
    }
  }

  /** The plain text holds no mark, and only characters of the note. */
  lemma PlainTextNoMarks(content: string)
    ensures forall c :: c in PlainText(content) ==> c in content && c !in Marks
  {
    RemoveMarksChars(content);
  }

  /** A note with no marks and no link is copied as it is. */
  lemma PlainTextUnchanged(content: string)
    requires forall k :: 0 <= k < |content| ==> content[k] !in Marks
    requires forall p, j, k :: !LinkShape(content, p, j, k)
    ensures PlainText(content) == content
  {
    RemoveMarksKeeps(content);
    forall i: nat | i < |content| ensures LinkMatcher()(content, i).None? {
      NoLinkAt(content, i);
    }
    ScanKeeps(LinkMatcher(), content, 0);
  }

  /** A one-line link `[text](url)` whose text holds no `]` and whose target holds no `)` becomes its text without marks. */
  lemma LinkBecomesText(text: string, url: string)
    requires forall k :: 0 <= k < |text| ==> text[k] != ']' && text[k] !in JsLineTerminators
    requires forall k :: 0 <= k < |url| ==> url[k] != ')' && url[k] !in JsLineTerminators
    ensures PlainText("[" + text + "](" + url + ")") == RemoveMarks(text)
  {
    LinkMarks(text, url);
    RemoveMarksChars(text);
    RemoveMarksChars(url);
    var t := RemoveMarks(text);
    var u := RemoveMarks(url);
    assert forall k :: 0 <= k < |t| ==> t[k] in t;
    assert forall k :: 0 <= k < |u| ==> u[k] in u;
    LinkReplaced(t, u);
  }

  /** Removing the marks leaves the brackets of a link in place. */
  lemma LinkMarks(text: string, url: string)
    ensures RemoveMarks("[" + text + "](" + url + ")") == "[" + RemoveMarks(text) + "](" + RemoveMarks(url) + ")"
  {
    var x1 := "[" + text;
    var x2 := x1 + "](";
    var x3 := x2 + url;
    RemoveMarksKeeps("[");
    RemoveMarksKeeps("](");
    RemoveMarksKeeps(")");
    RemoveMarksAppend("[", text);
    RemoveMarksAppend(x1, "](");
    RemoveMarksAppend(x2, url);
    RemoveMarksAppend(x3, ")");
  }

  /** A text that is one link becomes the link's text. */
  lemma LinkReplaced(t: string, u: string)
    requires forall k :: 0 <= k < |t| ==> t[k] != ']' && t[k] !in JsLineTerminators
    requires forall k :: 0 <= k < |u| ==> u[k] != ')' && u[k] !in JsLineTerminators
    ensures ReplaceLinks("[" + t + "](" + u + ")") == t
  {
    var s := "[" + t + "](" + u + ")";
    var j := |t| + 1;
    var k := j + 2 + |u|;
    assert forall i :: 1 <= i < j ==> s[i] == t[i - 1];
    assert forall i :: j + 2 <= i < k ==> s[i] == u[i - j - 2];
    assert LinkShape(s, 0, j, k);
    LinkEndsLeast(s, 0, j, k);
    LinkEndsSound(s, 0);
    assert LinkEnds(s, 0) == Some((j, k));
    assert s[1..j] == t;
    assert Scan(LinkMatcher(), s, k + 1) == [];
  }

  // ---------------------------------------------------------------------------
  // The actions
  // ---------------------------------------------------------------------------

  /** The file name of a download: the title, or `note` when it is empty, with `.md`. */
  function DownloadName(title: string): (r: string)
    ensures EndsWith(r, ".md")
  {
    (if title == [] then "note" else title) + ".md"
  }

  /** The name gives the title back, and an untitled note is saved as `note.md`. */
  lemma DownloadNameStem(title: string)
    ensures var r := DownloadName(title);
      r[..|r| - 3] == (if title == [] then "note" else title) && (title == [] ==> r == "note.md")
  {
  }

  datatype Action = CopyMarkdown | CopyPlainText | Download

  /** What an action hands on: text for the clipboard, or a file to save. */
  datatype Effect = Clipboard(text: string) | SaveFile(name: string, content: string)

  /** The popup's handlers: each looks up the active note and does nothing without one; with one, it acts on that note. */
  function Perform(action: Action, notes: seq<Note>, activeNoteId: Option<string>): (r: Option<Effect>)
    ensures r.Some? <==> activeNoteId.Some? && IsNote(activeNoteId.value, notes)
    ensures r.Some? ==>
      exists n :: n in notes && n.id == activeNoteId.value &&
        r.value == match action
          case CopyMarkdown => Clipboard(n.content)
          case CopyPlainText => Clipboard(PlainText(n.content))
          case Download => SaveFile(DownloadName(n.title), n.content)
  {
    var active := if activeNoteId.Some? then FindNote(activeNoteId.value, notes) else None;
    match active
    case None => None
    case Some(n) =>
      match action
      case CopyMarkdown => Some(Clipboard(n.content))
      case CopyPlainText => Some(Clipboard(PlainText(n.content)))
      case Download => Some(SaveFile(DownloadName(n.title), n.content))
  }
}
