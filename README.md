# Lumenote core, modelled in Dafny

Lumenote is a desktop Markdown note-taking application. It has a React front end, a Tauri (Rust) desktop back end with an SQLite store, and an optional sync server (Rust, axum, SQLite through sqlx). Notes live in workspaces and can sit inside nested folders.

This project models the sequential logic at its core and proves properties of that model:

- **Folder/note tree** (`tree.dfy`, `sidebar.dfy`, `context_menu.dfy`, `entities.dfy`, `sidebar_types.dfy`):
  - the depth and subtree-height queries of the sidebar;
  - the flattened visual order;
  - the hover-position classifier and the auto-expand timer flag;
  - the drop decision of a drag;
  - rename saving;
  - the context menu's entry table, its "new folder" depth gate, colour setters and position clamp.
- **In-memory store** (`store.dfy`): the `AppStore` class. Its actions replace the note and folder lists, the active note and the view mode.
- **Sync server** (`sync_server.dfy`): the `sync_handler` endpoint over three tables held as maps. It has:
  - the key check;
  - last-writer-wins upserts on a strictly newer `updated_at`;
  - the delta window of the response;
  - the partial application of a batch when a database statement fails.
- **Local record store** (`local_db.dfy`):
  - the upserts and deletes of the desktop database, with the foreign keys that reject a note or folder whose folder or parent is not stored;
  - the full-text query string;
  - the limit of 20 search results.
- **Workspace import and export** (`importer.dfy`, `exporter.dfy`, `roundtrip.dfy`):
  - zip members to folders and notes;
  - folders and notes to zip paths, through the file-name sanitiser; the walk starts at the top level, so a note in a folder that no chain of parent links joins to the top level (for example a parent cycle, or a parent id naming a folder absent from the workspace) is silently left out;
  - what the round trip export→import keeps and loses.
- **Markdown text edits**:
  - the helpers of `markdownUtils.ts` (`markdown.dfy`);
  - the per-range toolbar commands (`toolbar.dfy`);
  - the checklist preprocessing and the code renderer's block/inline decision in the preview (`preview.dfy`, on the global-replace engine of `jsreplace.dfy`);
  - the plain-text conversion and the download name of the share popup (`share.dfy`).

Where the source updates state in place, the model does too. `AppStore`, `Db`, `ServerDb`, the sidebar's drag state, the context menu and the export archive are classes whose methods are proved against specification functions. The loops of `prependLine`, `insertTable`, `getVisualOrder`, the import and the export are methods with loop invariants. Everything else is functions and lemmas. Several rules differ from the simplest reading of the code, and the model follows the code in each:

- Regular expressions keep JavaScript's semantics: `\s` matches line breaks, and under the `m` flag `^` and `$` match at every line terminator.
- Optional JavaScript fields have three states: absent, `null` and an id. They are kept apart because the source compares them with `===`.
- Random ids and clocks are parameters.

## Model

| member | source | states |
|---|---|---|
| SidebarTree.IsNote | src/components/sidebar/utils.ts:3 | true exactly when some note in the list carries the id |
| SidebarTree.IsFolder | src/components/sidebar/utils.ts:4 | true exactly when some folder in the list carries the id |
| SidebarTree.FindFolder | src/components/sidebar/utils.ts:7 | absent exactly when no folder has the id; otherwise a listed folder with that id |
| SidebarTree.FindNote | src/components/sidebar/utils.ts:9 | absent exactly when no note has the id; otherwise a listed note with that id |
| SidebarTree.FindNoteUnique | src/components/sidebar/utils.ts:9 | with unique note ids, the lookup returns the one note with the id |
| SidebarTree.FindUnique | src/components/sidebar/utils.ts:7 | with unique folder ids, the lookup returns the one folder with the id |
| SidebarTree.DepthWithin | src/components/sidebar/utils.ts:6-12 | a depth found within `fuel` parent steps is at most `fuel` |
| SidebarTree.Depth | src/components/sidebar/utils.ts:6-12 | on acyclic parent links the depth is defined and bounded by the number of items |
| SidebarTree.DepthWithinMore | src/components/sidebar/utils.ts:6-12 | more fuel never changes a depth already found, so the depth does not depend on the bound |
| SidebarTree.DepthStep | src/components/sidebar/utils.ts:8-10 | an item without a parent is at depth 0; otherwise it is one deeper than its parent |
| SidebarTree.DepthUnfolds | src/components/sidebar/utils.ts:6-12 | the three branches: the folder entry wins over a note with the same id, a truthy parent adds one, an unknown id is at depth 0 |
| SidebarTree.DanglingParentDepth | src/components/sidebar/utils.ts:8-11 | an item whose parent names no folder and no note is at depth 1 |
| SidebarTree.ChildFolders | src/components/sidebar/utils.ts:15 | exactly the folders whose parent is the given reference |
| SidebarTree.ChildMeasure | src/components/sidebar/utils.ts:14-18 | a child folder is strictly closer to the roots' end of the walk, so the height recursion terminates on a forest |
| SidebarTree.SubtreeHeight | src/components/sidebar/utils.ts:14-18 | the height is 0 exactly when no folder has this folder as parent |
| SidebarTree.MaxHeightBounds | src/components/sidebar/utils.ts:17 | the maximum bounds every child's height and is attained by one child |
| SidebarTree.HeightAboveChild | src/components/sidebar/utils.ts:17 | a folder's height is at least one more than each child folder's |
| SidebarTree.HeightOfTallestChild | src/components/sidebar/utils.ts:17 | a positive height is exactly one more than some child folder's height |
| SidebarTree.ChildDepth | src/components/sidebar/utils.ts:8 | a child folder is one level deeper than its parent |
| SidebarTree.DescendantDepth | src/components/sidebar/utils.ts:6-12 | a folder `k` levels below `top` is `k` deeper than `top` |
| SidebarTree.DescendantHeight | src/components/sidebar/utils.ts:14-18 | the height of `top` is at least the length of every downward chain, so depth(d) - depth(top) <= height(top) |
| Util.SkipStartSpec | src/utils/markdownUtils.ts:77 | the characters skipped from the left are all white space and the first one kept is not |
| Util.SkipEndSpec | src/utils/markdownUtils.ts:77 | the characters skipped from the right are all white space and the last one kept is not |
| Util.TrimSpec | src/utils/markdownUtils.ts:77 | `trim()` is empty exactly when the text is all white space; otherwise it starts and ends outside white space, is no longer and only keeps characters of the text |
| Util.TrimUnchanged | src/utils/markdownUtils.ts:77 | text that starts and ends outside white space is left as it is by `trim()` |
| Util.TrimEndMatches | src-tauri/src/importer.rs:36 | `trim_end_matches` leaves a prefix of the text that no longer ends with the pattern |
| Util.Split | src/utils/markdownUtils.ts:32 | `split('\n')` gives at least one piece and no piece holds the separator |
| Util.JoinSplit | src/utils/markdownUtils.ts:32 | joining the pieces of a split with the same separator gives back the text |
| Util.JoinSnoc | src/utils/markdownUtils.ts:49 | joining one more piece appends the separator and the piece |
| Util.SplitJoin | src/utils/markdownUtils.ts:32 | splitting a join of separator-free pieces gives back the pieces |
| Util.SplitNoSep | src/utils/markdownUtils.ts:32 | text without the separator splits into itself alone |
| Util.JoinNoSep | src/utils/markdownUtils.ts:49 | a join holds the separator exactly when it joins two or more separator-free pieces |
| Markdown.SliceIndex | src/utils/markdownUtils.ts:10-12 | the index `slice` uses lies within the text and is the argument itself when that is in range |
| Markdown.JsSlice | src/utils/markdownUtils.ts:10-12 | `slice(start, end)` is the subsequence between in-range bounds and never longer than the text |
| Markdown.WrapSelection | src/utils/markdownUtils.ts:5-21 | the selection shifts by the wrapper's length; for an in-range selection the text grows by twice that length and the new selection covers exactly the originally selected text |
| Markdown.UnwrapSelection | src/utils/markdownUtils.ts:10-14 | the wrapper sits right before and right after the selected text, and removing both copies gives back the original content |
| Markdown.WrapContent | src/utils/markdownUtils.ts:14 | the content is the text before, the wrapper, the selected text, the wrapper and the text after |
| Markdown.WrapBoldExample | src/__tests__/utils/markdownUtils.test.ts:5-9 | wrapping `hello` in `hello world` with `**` gives `**hello** world` selected at 2..7 |
| Markdown.FindLine | src/utils/markdownUtils.ts:36-42 | the first line from `i` whose end offset reaches the position, or none when no line does |
| Markdown.ChosenLine | src/utils/markdownUtils.ts:34-42 | the chosen line index is a valid line (line 0 when no line reaches the position) |
| Markdown.PrependLine | src/utils/markdownUtils.ts:27-60 | the loop finds the same line and offset as the line search, and the result is the toggle of that line |
| Markdown.JoinLength | src/utils/markdownUtils.ts:41 | the joined text plus one is the sum of the line lengths each plus one newline |
| Markdown.LineAt | src/utils/markdownUtils.ts:41 | line `i` sits in the joined text at its offset, after a newline |
| Markdown.ToggledLines | src/utils/markdownUtils.ts:44-59 | for a prefix without a newline the line count stays, every other line is unchanged, and the chosen line loses the prefix when it has it and gains it otherwise |
| Markdown.ChosenLineStart | src/utils/markdownUtils.ts:36-42 | the chosen line is the first that reaches the position, and its offset is where it starts in the content, at the start or after a newline |
| Markdown.ChosenAfterGrowth | src/utils/markdownUtils.ts:36-42 | lengthening the chosen line keeps it chosen |
| Markdown.ToggleOff | src/utils/markdownUtils.ts:45-51 | a line with the prefix is joined back without it |
| Markdown.ToggleOn | src/utils/markdownUtils.ts:54-59 | a line without the prefix is joined back with it in front |
| Markdown.ToggleTwice | src/utils/markdownUtils.ts:36-59 | for an in-range position and a prefix without a newline, adding the prefix to a line without it and toggling again at the same position restores the content |
| Markdown.PrependSecondLineExample | src/__tests__/utils/markdownUtils.test.ts:33-36 | position 7 of `line1\nline2\nline3` prefixes the second line with `## ` |
| Markdown.PrependToggleOffExample | src/__tests__/utils/markdownUtils.test.ts:38-41 | `# hello` toggled with `# ` becomes `hello` |
| Markdown.LineEnd | src/utils/markdownUtils.ts:66 | the end of the current line: no terminator before it, a terminator or the end of text at it |
| Markdown.Backoff | src/utils/markdownUtils.ts:66 | the backtracking of `.+` to the last position before the line end that is not a terminator |
| Markdown.HeadingAtMatches | src/utils/markdownUtils.ts:66 | the match attempt at a line start succeeds exactly when the pattern `^#\s+(.+)$` with the m flag matches there |
| Markdown.HeadingAtSound | src/utils/markdownUtils.ts:66 | a capture found at a position is a match of the pattern there |
| Markdown.HeadingAtComplete | src/utils/markdownUtils.ts:66 | wherever the pattern matches, the match attempt finds a capture |
| Markdown.FirstHeading | src/utils/markdownUtils.ts:66 | the capture of the leftmost match, or none when the pattern matches nowhere |
| Markdown.CaptureOneLine | src/utils/markdownUtils.ts:66 | the captured title holds no line terminator |
| Markdown.ExtractTitle | src/utils/markdownUtils.ts:65-68 | `Untitled` without a match; otherwise the trimmed capture of the first match |
| Markdown.TitleShape | src/utils/markdownUtils.ts:67 | a matched title holds no line terminator and starts and ends outside white space |
| Markdown.DoubleHashNoMatch | src/utils/markdownUtils.ts:66 | a `##` heading is no match at its position |
| Markdown.NoHashUntitled | src/utils/markdownUtils.ts:65-68 | text without `#` has the title `Untitled` |
| Markdown.FirstLineHeading | src/utils/markdownUtils.ts:65-68 | a first line `# ` + a trimmed title gives that title, whatever comes after the line break |
| Markdown.TitleExample | src/__tests__/utils/markdownUtils.test.ts:50-52 | `# My Title\n\nContent here` gives `My Title` |
| Markdown.FirstOfTwoHeadingsExample | src/__tests__/utils/markdownUtils.test.ts:58-60 | `# First\n# Second` gives `First` |
| Markdown.NoHeadingExample | src/__tests__/utils/markdownUtils.test.ts:54-56 | `Just some text` gives `Untitled` |
| Markdown.HeadingAcrossLineBreak | src/utils/markdownUtils.ts:66 | because `\s+` also matches a line break, `#\nHello` gives `Hello` |
| Markdown.BlankHeadingTitle | src/utils/markdownUtils.ts:66-67 | `#` followed by two spaces matches with a blank capture and gives the empty title, not `Untitled` |
| Markdown.StripSyntax | src/utils/markdownUtils.ts:75 | removing the syntax characters never lengthens the text |
| Markdown.StripSyntaxChars | src/utils/markdownUtils.ts:75 | a character is in the result exactly when it is in the text and is not one of ``#*_`[]()`` |
| Markdown.DropSpace | src/utils/markdownUtils.ts:76 | dropping a leading white-space run shortens text that starts with one and leaves no white space in front |
| Markdown.CollapseSpace | src/utils/markdownUtils.ts:76 | replacing each white-space run by one space keeps emptiness and the kind of the first character, and leaves no two spaces in a row |
| Markdown.SplitLength | src/utils/markdownUtils.ts:78 | a split gives one more piece than the separator occurs |
| Markdown.CollapseStarts | src/utils/markdownUtils.ts:76 | collapsing white space keeps the number of words |
| Markdown.TrimStarts | src/utils/markdownUtils.ts:77 | trimming keeps the number of words |
| Markdown.NormalStarts | src/utils/markdownUtils.ts:78 | in trimmed single-spaced text the words are one more than the spaces |
| Markdown.CountWordsSpec | src/utils/markdownUtils.ts:73-79 | the count is the number of maximal runs outside white space in the text without syntax characters (0 for empty text) |
| Markdown.StripAppend | src/utils/markdownUtils.ts:75 | removing syntax characters distributes over concatenation |
| Markdown.TwoWords | src/utils/markdownUtils.ts:73-79 | two plain words separated by any white-space run count as 2 |
| Markdown.CountTwoWordsExample | src/__tests__/utils/markdownUtils.test.ts:64-66 | `hello world` counts 2 |
| Markdown.MultipleSpacesExample | src/__tests__/utils/markdownUtils.test.ts:76-78 | `hello    world` counts 2 |
| Markdown.EmptyCountExample | src/__tests__/utils/markdownUtils.test.ts:72-74 | the empty text counts 0 |
| Markdown.ThreeMarkedWords | src/utils/markdownUtils.ts:73-79 | three plain words with syntax characters around them count 3 |
| Markdown.IgnoreSyntaxExample | src/__tests__/utils/markdownUtils.test.ts:68-70 | ``**bold** _italic_ `code` `` counts 3 |
| Toolbar.Pieces | src/components/toolbar/EditorToolbar.tsx:22-25 | the five pieces of an insertion can be read back at their offsets |
| Toolbar.WrapRange | src/components/toolbar/EditorToolbar.tsx:16-38 | the new selection lies in the new document; a non-empty selection grows the text by `before` and `after`, an empty one by `before`, the placeholder and `after`; the text before the selection is kept |
| Toolbar.WrapKeepsSelection | src/components/toolbar/EditorToolbar.tsx:20-27 | for a non-empty selection `before` is inserted at `from` and `after` at `to`, the new selection covers exactly the original text, and removing both gives back the document |
| Toolbar.WrapSelectsPlaceholder | src/components/toolbar/EditorToolbar.tsx:28-33 | for an empty selection `before` + placeholder + `after` is inserted at the cursor and the selection covers the placeholder |
| Toolbar.LineStart | src/components/toolbar/EditorToolbar.tsx:43 | the start of the cursor's line: the document start or just after a newline, with no newline up to the cursor |
| Toolbar.LineEnd | src/components/toolbar/EditorToolbar.tsx:128 | the end of the cursor's line: the document end or a newline, with no newline from the cursor |
| Toolbar.LineStartAt | src/components/toolbar/EditorToolbar.tsx:43 | any position that has the line-start shape is the line start |
| Toolbar.LineEndAt | src/components/toolbar/EditorToolbar.tsx:128 | any position that has the line-end shape is the line end |
| Toolbar.LineFormat | src/components/toolbar/EditorToolbar.tsx:40-55 | the shifted selection stays inside the new document; the text before the cursor's line is kept |
| Toolbar.InsertedPrefixLine | src/components/toolbar/EditorToolbar.tsx:48-51 | after inserting a newline-free prefix at the line start, the shifted cursor is on a line that starts with the prefix |
| Toolbar.LineFormatIdempotent | src/components/toolbar/EditorToolbar.tsx:46 | applying the same line format again changes nothing: there is no toggle-off |
| Toolbar.LineFormatStarts | src/components/toolbar/EditorToolbar.tsx:40-55 | afterwards the cursor's line starts with the prefix |
| Toolbar.LineFormatUndo | src/components/toolbar/EditorToolbar.tsx:46-51 | either nothing changed or the prefix was inserted at the line start and removing it gives back the document |
| Toolbar.DigitEnd | src/components/toolbar/EditorToolbar.tsx:66 | the end of the digit run `\d+` |
| Toolbar.Show | src/components/toolbar/EditorToolbar.tsx:72 | a number is written as a non-empty run of decimal digits |
| Toolbar.ParseShow | src/components/toolbar/EditorToolbar.tsx:68 | `parseInt` of the written number gives the number back |
| Toolbar.LeadingNumber | src/components/toolbar/EditorToolbar.tsx:66 | a match of `^(\d+)\.\s` needs at least three characters starting with a digit |
| Toolbar.LeadingNumberShow | src/components/toolbar/EditorToolbar.tsx:66-68 | a line `n. ` + anything has the leading number `n` |
| Toolbar.NumberedList | src/components/toolbar/EditorToolbar.tsx:57-82 | the shifted selection stays inside the new document; the text before the cursor's line is kept |
| Toolbar.NumberingContinues | src/components/toolbar/EditorToolbar.tsx:63-72 | after a line `n. …` the prefix is `n+1. ` |
| Toolbar.NumberingStarts | src/components/toolbar/EditorToolbar.tsx:63-72 | on the first line, or after a line not starting with a digit, the prefix is `1. ` |
| Toolbar.LeadingNumberSplit | src/components/toolbar/EditorToolbar.tsx:66-68 | a line matches `^(\d+)\.\s` (a non-empty run of ASCII digits, `.`, one JavaScript white-space character) exactly when a number is read from it, and the number is the value of the matched digits |
| Toolbar.NumberPrefixRule | src/components/toolbar/EditorToolbar.tsx:63-72 | the whole rule: under a line that matches `^(\d+)\.\s` the prefix is its digits' value plus one; on the first line or under a line that does not match, it is `1. `; and `1. ` comes only from those cases or from a line numbered zero |
| Toolbar.LeadingNumberExamples | src/components/toolbar/EditorToolbar.tsx:66-68 | `007. x` reads 7 and `3.\tx` reads 3; `3 apples`, `3.x` and `12` read nothing |
| Toolbar.InsertLink | src/components/toolbar/EditorToolbar.tsx:84-97 | the new selection stays inside the new document; the text before the selection is kept |
| Toolbar.CodeBlock | src/components/toolbar/EditorToolbar.tsx:99-123 | the new selection lies in the new document and the text before the old selection is kept |
| Toolbar.LinkSelectsText | src/components/toolbar/EditorToolbar.tsx:87-93 | the selection is replaced by `[text](https://example.com)`, the new selection covers the text, which is the selected text when there was one, and the rest of the document is kept |
| Toolbar.CodeBlockIsWrap | src/components/toolbar/EditorToolbar.tsx:99-123 | the code block button is a wrap with "```\n" and "\n```"; with an empty selection it selects exactly `code here` |
| Toolbar.BuildTable | src/components/toolbar/EditorToolbar.tsx:130-148 | the nested loops build the template: a newline, the header row, the separator row and `rows` body rows |
| Toolbar.InsertTable | src/components/toolbar/EditorToolbar.tsx:125-157 | the template is inserted at the end of the cursor's line and the selection set 3..9 past it |
| Toolbar.TableEdit | src/components/toolbar/EditorToolbar.tsx:125-157 | the text up to the end of the cursor's line is kept; the template goes after it |
| Toolbar.RepeatPrefix | src/components/toolbar/EditorToolbar.tsx:132-135 | repeating a cell `n` times is one cell followed by `n - 1` more |
| Toolbar.TemplateOpens | src/components/toolbar/EditorToolbar.tsx:148-151 | with at least one column the template holds `Header` at offsets 3..9 |
| Toolbar.TableSelectsHeader | src/components/toolbar/EditorToolbar.tsx:148-151 | with at least one column the selection lies in the document and covers the first `Header` |
| Toolbar.Copies | src/components/toolbar/EditorToolbar.tsx:140-146 | `n` copies of the same body row |
| Toolbar.TableLines | src/components/toolbar/EditorToolbar.tsx:130-148 | split at line breaks the template is an empty line, the header row, the separator row, `rows` body rows and an empty line |
| Toolbar.NoBreakInLines | src/components/toolbar/EditorToolbar.tsx:133-143 | no table row holds a line break of its own |
| Toolbar.GridSize | src/components/toolbar/EditorToolbar.tsx:207-215 | each of the 64 grid cells maps to rows and columns in 1..8 |
| Toolbar.GridOneToOne | src/components/toolbar/EditorToolbar.tsx:207-215 | different cells give different sizes, and every size in 1..8 x 1..8 has a cell |
| Toolbar.Press | src/components/toolbar/EditorToolbar.tsx:172-234 | each of the twelve buttons (bold, italic, three headings, bullet, numbered, checkbox, table, link, inline code, code block) keeps the text before the cursor's line, and leaves its selection inside the new document (a grid table has at least one column) |
| Toolbar.LineButtonsIdempotent | src/components/toolbar/EditorToolbar.tsx:177-185 | pressing a heading, bullet or checkbox button twice is the same as pressing it once |
| JsReplace.ScanKeeps | src/components/editor/Preview.tsx:151-153 | a global replacement that finds no match from `p` on leaves the rest of the text as it is |
| JsReplace.ScanChars | src/components/popups/SharePopup.tsx:28 | when each replacement only holds characters of the matched text, the output only holds characters of the input |
| JsReplace.ScanShift | src/components/editor/Preview.tsx:151-153 | where every match of a text from `n` on is the match of its suffix from `n`, moved by `n`, the global replacement from `n` on is the replacement of the suffix |
| JsReplace.ScanSplit | src/components/editor/Preview.tsx:151-153 | where every position of `a` agrees with the scan of `a` alone and `b` is scanned as on its own, the replacement of `a + [t] + b` from `p` is the replacement of `a` from `p`, then `t`, then the replacement of `b` |
| JsReplace.ScanSplitInside | src/components/editor/Preview.tsx:151-153 | the step of that split at a position inside `a` where the match is the one of `a` alone |
| JsReplace.ScanSplitEnd | src/components/editor/Preview.tsx:151-153 | the step at the end of `a` when nothing matches there |
| JsReplace.ScanSplitSpan | src/components/editor/Preview.tsx:151-153 | the step where a match spans `t`: it replaces the white space left in `a`, `t` and the first match of `b`, so both sides come out the same |
| JsReplace.ScanFirstThenRest | src/components/editor/Preview.tsx:151-153 | a first match up to `e`, no match at `e` and matches after `e` as in the suffix: the output is the replacement, the character at `e`, and the suffix replaced on its own |
| Preview.TrailingEnd | src/components/editor/Preview.tsx:152 | the greedy `(\s*)$` ends at the last line end inside the white-space run or at the end of text; it fails only when the run contains no line end and does not reach the end |
| Preview.BareMatch | src/components/editor/Preview.tsx:151 | a match of the bare-box rule consumes at least one character |
| Preview.EmptyTaskMatch | src/components/editor/Preview.tsx:152 | a match of the empty-task rule as written consumes at least one character |
| Preview.OnLineMatch | src/components/editor/Preview.tsx:152 | a match of the corrected empty-task rule consumes at least one character |
| Preview.TaskTextMatch | src/components/editor/Preview.tsx:153 | a match of the marker-spacing rule consumes at least one character |
| Preview.MatchAt | src/components/editor/Preview.tsx:151-153 | every rule's match advances, so the global scan makes progress |
| Preview.Matches | src/components/editor/Preview.tsx:151-153 | each rule is a matcher that advances on every text |
| Preview.EmptyShowsPlaceholder | src/components/editor/Preview.tsx:149-154 | empty content becomes the placeholder in italics |
| Preview.NoTaskNoMatch | src/components/editor/Preview.tsx:151-153 | without a box at the start of a line (after white space) no rule matches anywhere |
| Preview.NoMatchKeeps | src/components/editor/Preview.tsx:151-153 | such text is left unchanged by each replacement |
| Preview.NoTasksUnchanged | src/components/editor/Preview.tsx:149-153 | non-empty content with no box at a line start comes out of the preprocessing unchanged |
| Preview.RestOfLineKept | src/components/editor/Preview.tsx:151-153 | after a match, the rest of a line with no line break is copied unchanged |
| Preview.SkipIndent | src/components/editor/Preview.tsx:151 | the leading `\s*` consumes exactly the indentation |
| Preview.SkipStartAt | src/components/editor/Preview.tsx:151 | the white-space run from `i` ends at the first character outside the set |
| Preview.MarkerAfterIndent | src/components/editor/Preview.tsx:152-153 | after the indentation of an indented task line the marker is found, followed by the rest |
| Preview.BareBoxLine | src/components/editor/Preview.tsx:151 | an indented bare box on one line gets `- ` inserted before it |
| Preview.TaskTextLine | src/components/editor/Preview.tsx:153 | a task marker followed by anything but a space or U+200B gets one space inserted |
| Preview.EmptyTaskLastLine | src/components/editor/Preview.tsx:152 | a task marker with only same-line white space after it, at the end of the text, becomes marker + space + U+200B and the trailing white space is dropped |
| Preview.EmptyTaskOnLineLastLine | src/components/editor/Preview.tsx:152 | the corrected rule does the same on such a line |
| Preview.TrailAfterMarker | src/components/editor/Preview.tsx:152 | same-line white space after the marker is white space to `\s` but holds no line end |
| Preview.BreaksAppend | src/components/editor/Preview.tsx:151-153 | line breaks add up over concatenation |
| Preview.NoBreaks | src/components/editor/Preview.tsx:151-153 | text without line terminators has no line break |
| Preview.ScanKeepsBreaks | src/components/editor/Preview.tsx:151-153 | a global replacement whose every match keeps the number of line breaks keeps the number of line breaks of the text |
| Preview.RuleKeepsBreaks | src/components/editor/Preview.tsx:151-153 | every rule except the empty-task rule as written keeps the line breaks of what it matches |
| Preview.ReplaceKeepsBreaks | src/components/editor/Preview.tsx:151-153 | those rules keep the number of line breaks of the whole text |
| Preview.InsertKeepsBreaks | src/components/editor/Preview.tsx:151-153 | inserting text without a line terminator keeps the number of line breaks |
| Preview.BareKeepsBreaks | src/components/editor/Preview.tsx:151 | the bare-box rule keeps the line breaks of each match |
| Preview.TaskTextKeepsBreaks | src/components/editor/Preview.tsx:153 | the marker-spacing rule keeps the line breaks of each match |
| Preview.OnLineKeepsBreaks | src/components/editor/Preview.tsx:152 | the corrected empty-task rule keeps the line breaks of each match |
| Preview.OnLineKeepsAllBreaks | src/components/editor/Preview.tsx:149-153 | the preprocessing with the corrected rule keeps every line break of non-empty content |
| Preview.EmptyTaskEatsBlankLine | src/components/editor/Preview.tsx:152 | as written, an empty task followed by a blank line and a paragraph loses the blank line: `marker\n\ntext` becomes marker + space + U+200B + `\ntext`, one line break fewer |
| Preview.MarkerOneLine | src/components/editor/Preview.tsx:152 | a task marker, with or without the added space and U+200B, holds no line break |
| Preview.EatenResult | src/components/editor/Preview.tsx:152 | the replacement result of the blank-line case |
| Preview.EatenMatch | src/components/editor/Preview.tsx:152 | in that case the match as written runs over both line breaks and stops before the second |
| Preview.ParagraphKept | src/components/editor/Preview.tsx:152 | the paragraph after the blank line is copied unchanged by either empty-task rule |
| Preview.EmptyTaskOnLineKeepsBlankLine | src/components/editor/Preview.tsx:152 | the corrected rule keeps the blank line: `marker\n\ntext` becomes marker + space + U+200B + `\n\ntext` |
| Preview.BlankLineText | src/components/editor/Preview.tsx:152 | where the marker, the two line breaks and the paragraph sit in that text |
| Preview.BrokenLines | src/components/editor/Preview.tsx:152 | one line break between two lines counts 1, a blank line between them counts 2 |
| Preview.BlankLineExample | src/components/editor/Preview.tsx:152 | `- [ ]\n\nText` becomes `- [ ] ​\nText` as written and `- [ ] ​\n\nText` with the corrected rule |
| Preview.EmptyTaskNotLastLine | src/components/editor/Preview.tsx:152 | as written, a task line with only same-line white space after its marker, followed by a line that starts with text, becomes marker + space + U+200B; its line terminator is kept and the following lines are replaced on their own |
| Preview.NextLineMatch | src/components/editor/Preview.tsx:152 | on such a line the match as written gives the line terminator back and ends just before it |
| Preview.ReplaceAfterLine | src/components/editor/Preview.tsx:151-153 | a first match that ends before a line terminator, in the middle of a line: the output is the replacement, the terminator, and the rest replaced on its own |
| Preview.AfterBreak | src/components/editor/Preview.tsx:151-153 | after a line terminator every rule matches as in the text that follows it |
| Preview.MidLineNoMatch | src/components/editor/Preview.tsx:151-153 | every rule is anchored at a line start (`^` under the `m` flag) and matches nowhere else |
| Preview.EmptyTaskFinalBreak | src/components/editor/Preview.tsx:152 | as written, a task line with nothing after its marker that ends the note with a line terminator loses the terminator; the corrected rule keeps it |
| Preview.EmptyTaskLineEnd | src/components/editor/Preview.tsx:152 | where the indentation, the marker and the trailing white space of such a line sit, and that its end is not a line start |
| Preview.SkipStartSuffix | src/components/editor/Preview.tsx:151-153 | the leading white-space run from a position is the same in a text and in its suffix |
| Preview.TrailingEndSuffix | src/components/editor/Preview.tsx:152 | the end the backtracking `(\s*)$` settles on is the same in a text and in its suffix |
| Preview.MatchFramed | src/components/editor/Preview.tsx:151-153 | every rule matches only at a line start, takes that line's leading white space, and then matches the rest as `Head` says |
| Preview.BareFramed | src/components/editor/Preview.tsx:151 | the bare-box rule is of that form |
| Preview.EmptyTaskFramed | src/components/editor/Preview.tsx:152 | the empty-task rule as written is of that form |
| Preview.OnLineFramed | src/components/editor/Preview.tsx:152 | the corrected empty-task rule is of that form |
| Preview.TaskTextFramed | src/components/editor/Preview.tsx:153 | the marker-spacing rule is of that form |
| Preview.FramedShift | src/components/editor/Preview.tsx:151-153 | at or after a line start, a rule of that form matches in a text as in the suffix from there, moved by its offset |
| Preview.MatchShift | src/components/editor/Preview.tsx:151-153 | the same for every rule |
| Preview.HeadInLine | src/components/editor/Preview.tsx:151-153 | every rule but the empty-task rule as written ignores what follows a line terminator, and its match ends before it |
| Preview.BlankTailKept | src/components/editor/Preview.tsx:151-153 | white space alone holds no match and is copied unchanged |
| Preview.LineAgrees | src/components/editor/Preview.tsx:151-153 | every rule but the empty-task rule as written treats each position of a line followed by a terminator as the scan of that line alone does |
| Preview.AgreesInLine | src/components/editor/Preview.tsx:151-153 | where the leading white space from a position ends inside the line, the match is the one of the line alone and ends inside it |
| Preview.AgreesAcross | src/components/editor/Preview.tsx:151-153 | where the rest of the line is white space, a match can only span the terminator and end as the first match of the next line |
| Preview.AcrossMatch | src/components/editor/Preview.tsx:151-153 | the match there is none, or one that spans the terminator and ends as the first match of the next line does |
| Preview.AcrossIndent | src/components/editor/Preview.tsx:151-153 | the leading white space from there runs over the terminator into the leading white space of the next line |
| Preview.LineByLine | src/components/editor/Preview.tsx:151-153 | every rule but the empty-task rule as written works line by line: the replacement of two texts joined by a line terminator is the replacement of each, joined by it |
| Preview.ShiftAfter | src/components/editor/Preview.tsx:151-153 | after the terminator that joins two texts, every rule matches as in the second |
| Preview.ShiftFrom | src/components/editor/Preview.tsx:151-153 | from a line start on, every rule matches as in the text that follows it |
| Preview.AllAgree | src/components/editor/Preview.tsx:151-153 | every position of the first text agrees with its scan alone |
| Preview.IncludesFromSpec | src/components/editor/Preview.tsx:192 | `includes` from `i` holds exactly when the pattern occurs at some position from `i` |
| Preview.WordEnd | src/components/editor/Preview.tsx:191 | the end of the `\w+` run |
| Preview.LanguageFrom | src/components/editor/Preview.tsx:191 | a language found is a non-empty run of word characters that follows `language-` in the class name |
| Preview.IncludesLonger | src/components/editor/Preview.tsx:191-192 | a class name holding `language-` + a word holds `language-` |
| Preview.LanguageMeansBlock | src/components/editor/Preview.tsx:191-196 | a class name with a language makes a block with that language |
| Preview.InlineExactly | src/components/editor/Preview.tsx:190-207 | the element is inline exactly when the class name lacks `language-` and the child is not a string holding a line break or longer than 50 characters |
| Preview.LanguageOfClass | src/components/editor/Preview.tsx:191 | `language-` + a word + a non-word character gives that word as the language |
| Preview.WordEndAt | src/components/editor/Preview.tsx:191 | any position that ends a run of word characters is the run's end |
| Share.RemoveMarks | src/components/popups/SharePopup.tsx:27 | removing the marks never lengthens the text |
| Share.RemoveMarksChars | src/components/popups/SharePopup.tsx:27 | a character is in the result exactly when it is in the text and is not one of ``#*`_~`` |
| Share.RemoveMarksKeeps | src/components/popups/SharePopup.tsx:27 | text without marks is left as it is |
| Share.RemoveMarksAppend | src/components/popups/SharePopup.tsx:27 | removing marks distributes over concatenation |
| Share.CloseAt | src/components/popups/SharePopup.tsx:28 | a `](` found from `i` is in the text |
| Share.ParenAt | src/components/popups/SharePopup.tsx:28 | a `)` found from `i` is in the text |
| Share.LinkAt | src/components/popups/SharePopup.tsx:28 | a link match consumes at least one character |
| Share.CloseAtSpec | src/components/popups/SharePopup.tsx:28 | the lazy `.*?` stops at the first `](` on the same line: the one found is on the line and none comes before it |
| Share.ParenAtSpec | src/components/popups/SharePopup.tsx:28 | the lazy `.*?` stops at the first `)` on the same line |
| Share.LinkEndsSound | src/components/popups/SharePopup.tsx:28 | the ends found form a single-line `[text](url)` |
| Share.LinkEndsLeast | src/components/popups/SharePopup.tsx:28 | whenever a link starts at `p`, one is found, and it is the one the lazy quantifiers choose, with the earliest `](` and then the earliest `)` |
| Share.NoLinkAt | src/components/popups/SharePopup.tsx:28 | no link is found at `p` exactly when no single-line `[text](url)` starts there |
| Share.LinkMatcher | src/components/popups/SharePopup.tsx:28 | the link matcher advances on every text |
| Share.LinkFromMatched | src/components/popups/SharePopup.tsx:28 | the replacement `$1` only holds characters of the matched text |
| Share.LinksFromMatched | src/components/popups/SharePopup.tsx:28 | at every position of a text, the link matcher's replacement only holds characters of what it matched |
| Share.ReplaceLinks | src/components/popups/SharePopup.tsx:28 | replacing the links writes only characters of the text |
| Share.PlainTextNoMarks | src/components/popups/SharePopup.tsx:26-28 | every character of the plain text is in the content and is not one of ``#*`_~`` |
| Share.PlainTextUnchanged | src/components/popups/SharePopup.tsx:26-28 | content without marks and without links is returned unchanged |
| Share.LinkBecomesText | src/components/popups/SharePopup.tsx:26-28 | a single-line `[text](url)` becomes its text with the marks removed |
| Share.LinkMarks | src/components/popups/SharePopup.tsx:27 | removing marks from a link removes them from its text and its URL only |
| Share.LinkReplaced | src/components/popups/SharePopup.tsx:28 | a single-line `[t](u)` is replaced by `t` |
| Share.DownloadName | src/components/popups/SharePopup.tsx:41 | the download name ends with `.md` |
| Share.DownloadNameStem | src/components/popups/SharePopup.tsx:41 | the name before `.md` is the title, or `note` when the title is empty |
| Share.Perform | src/components/popups/SharePopup.tsx:13-46 | an action has an effect exactly when the active id names a note; it then copies that note's content, its plain text, or saves its content under the download name |
| Store.WithContent | src/store/useStore.ts:43-47 | same length and order; the notes with the id get the new content and update time and nothing else changes; every other note is unchanged |
| Store.WithoutNote | src/store/useStore.ts:66 | no note with the id is left |
| Store.WithoutFolder | src/store/useStore.ts:82 | no folder with the id is left |
| Store.WithoutNoteCons | src/store/useStore.ts:66 | the filter keeps the first note exactly when its id differs and goes on with the rest |
| Store.WithoutNoteCounts | src/store/useStore.ts:66 | every other note keeps its number of occurrences |
| Store.WithoutNoteOrder | src/store/useStore.ts:66 | the filter distributes over concatenation and keeps a single note exactly when its id differs, so the kept notes stay in their order |
| Store.WithoutFolderCons | src/store/useStore.ts:82 | the filter keeps the first folder exactly when its id differs and goes on with the rest |
| Store.WithoutFolderCounts | src/store/useStore.ts:82 | every other folder keeps its number of occurrences |
| Store.WithoutFolderOrder | src/store/useStore.ts:82 | the filter distributes over concatenation and keeps a single folder exactly when its id differs, so the kept folders stay in their order |
| Store.Unfiled | src/store/useStore.ts:83 | same length and order; notes directly in the folder move to the root and nothing else changes |
| Store.Toggled | src/store/useStore.ts:86-90 | same length and order; the folders with the id get the negated expansion flag and every other folder is unchanged |
| Store.Retitled | src/store/useStore.ts:92-94 | only the title of the notes with the id changes, and not the update time |
| Store.Renamed | src/store/useStore.ts:96-98 | only the name of the folders with the id changes |
| Store.NullIfNone | src/store/useStore.ts:49 | a missing parent argument defaults to null |
| Store.ContentAfterUpdate | src/store/useStore.ts:43-47 | the update keeps which ids exist, and looking the note up afterwards gives the new content |
| Store.ToggleTwice | src/store/useStore.ts:86-90 | toggling twice restores folders whose expansion flag is defined |
| Store.ToggleTwiceDefines | src/store/useStore.ts:88 | toggling twice turns an undefined flag into `false` |
| Store.FindAfterRemoval | src/store/useStore.ts:82 | removing one folder does not change the lookup of any other id |
| Store.OrphanedChildDepth | src/store/useStore.ts:81-84 | a child of a deleted folder keeps its dangling parent id and so sits at depth 1 |
| Store.AppStore.constructor | src/store/useStore.ts:24-37 | the initial state: one welcome note with id `1` at the root, active, no folders, view mode |
| Store.AppStore.SetNotes | src/store/useStore.ts:39 | replaces the notes and nothing else |
| Store.AppStore.SetActiveNoteId | src/store/useStore.ts:40 | sets the active note id and nothing else |
| Store.AppStore.SetViewMode | src/store/useStore.ts:41 | sets the view mode and nothing else |
| Store.AppStore.UpdateNoteContent | src/store/useStore.ts:43-47 | the notes become their content update |
| Store.AppStore.AddNote | src/store/useStore.ts:49-63 | appends exactly one empty note in the given folder (root by default), makes it active and switches to edit mode |
| Store.AppStore.DeleteNote | src/store/useStore.ts:65-68 | removes every note with the id; the active id becomes null exactly when it was that id |
| Store.AppStore.AddFolder | src/store/useStore.ts:70-79 | appends one expanded folder under the given parent (root by default), with no depth check |
| Store.AppStore.DeleteFolder | src/store/useStore.ts:81-84 | removes the folder and moves its direct notes to the root; child folders are untouched |
| Store.AppStore.ToggleFolder | src/store/useStore.ts:86-90 | flips the expansion flag of that folder only |
| Store.AppStore.RenameNote | src/store/useStore.ts:92-94 | renames the note only |
| Store.AppStore.RenameFolder | src/store/useStore.ts:96-98 | renames the folder only |
| Entities.Truthy | src/components/sidebar/utils.ts:8 | a parent reference is truthy exactly when it is a non-empty id |
| Sidebar.WorkspaceNotes | src/components/sidebar/Sidebar.tsx:62 | exactly the notes of the active workspace |
| Sidebar.WorkspaceFolders | src/components/sidebar/Sidebar.tsx:63 | exactly the folders of the active workspace |
| Sidebar.ChildNotes | src/components/sidebar/Sidebar.tsx:86 | exactly the notes whose folder is the given parent reference |
| Sidebar.NoteIds | src/components/sidebar/Sidebar.tsx:86 | the ids of the notes, in order |
| Sidebar.GetVisualOrder | src/components/sidebar/Sidebar.tsx:80-88 | the pushes of the loops give the visual order: per parent, each child folder followed by its own order when expanded, then the child notes |
| Sidebar.PushFolder | src/components/sidebar/Sidebar.tsx:83-84 | one folder's id, then its own order only when it is expanded |
| Sidebar.PushNoteIds | src/components/sidebar/Sidebar.tsx:86 | pushes the note ids after what was there |
| Sidebar.FoldersOrderStep | src/components/sidebar/Sidebar.tsx:82-85 | one more folder of the loop appends its id and, when expanded, its order |
| Sidebar.VisualOrderItems | src/components/sidebar/Sidebar.tsx:80-88 | every id listed is a folder or a note of the lists |
| Sidebar.FoldersOrderItems | src/components/sidebar/Sidebar.tsx:82-85 | every id the folder loop lists is a folder or a note |
| Sidebar.ActiveWorkspaceOnly | src/components/sidebar/Sidebar.tsx:62-90 | every listed id belongs to a folder or a note of the active workspace |
| Sidebar.ParentStep | src/components/sidebar/utils.ts:8-10 | an item's folder parent is strictly shallower |
| Sidebar.ShownUnderThrough | src/components/sidebar/Sidebar.tsx:84 | an item shown under an expanded child folder is shown under that folder's parent |
| Sidebar.VisibleIsShownUnder | src/components/sidebar/Sidebar.tsx:80-88 | every listed item hangs below the parent through expanded folders only |
| Sidebar.FoldersShownUnder | src/components/sidebar/Sidebar.tsx:82-85 | the same for the folder loop |
| Sidebar.DescendantNotShown | src/components/sidebar/Sidebar.tsx:84 | a descendant of a collapsed folder does not hang below the root through expanded folders |
| Sidebar.CollapsedHidesDescendants | src/components/sidebar/Sidebar.tsx:84 | no descendant of a collapsed folder appears in the visual order |
| Sidebar.AbsentParentNotShown | src/components/sidebar/Sidebar.tsx:82-86 | an item whose parent field is absent (not null) is never listed, because `===` tells them apart |
| Sidebar.HoverPosition | src/components/sidebar/Sidebar.tsx:145-168 | on a folder: inside exactly when the centre is past 30% of its height and its depth is at most 1, above otherwise; on any other item: above exactly when the centre is above the midpoint, below otherwise |
| Sidebar.SiblingParent | src/components/sidebar/Sidebar.tsx:218-225 | the new parent, when there is one, is a non-empty id |
| Sidebar.DropIntents | src/components/sidebar/Sidebar.tsx:193-246 | a drop onto itself issues nothing; at most two calls, each allowed by the drop rule: inside moves checked against the depth limit, sibling moves only to a different parent within the limit, reorders only between items of the same kind |
| Sidebar.InsideDrop | src/components/sidebar/Sidebar.tsx:205-216 | at most one move: a note when the target depth is at most 1, a folder when depth + 1 + subtree height is at most 2; never a reorder |
| Sidebar.SiblingDrop | src/components/sidebar/Sidebar.tsx:218-246 | at most a move and a reorder, each allowed by the drop rule |
| Sidebar.NoteSiblingDrop | src/components/sidebar/Sidebar.tsx:227-235 | a note moves only to a different parent within the depth limit, and is reordered whenever the over item is a note |
| Sidebar.FolderSiblingDrop | src/components/sidebar/Sidebar.tsx:236-245 | a folder moves only to a different parent within the depth limit counting its subtree, and is reordered whenever the over item is a folder |
| Sidebar.NeverIntoDescendant | src/components/sidebar/Sidebar.tsx:205-243 | no drop moves a folder into one of its own descendants |
| Sidebar.SelfParentOnlyBesideOwnChild | src/components/sidebar/Sidebar.tsx:237-243 | a move of a folder into itself is issued only by a sibling drop beside its own direct child, and only within the depth limit |
| Sidebar.SelfParentFacts | src/components/sidebar/Sidebar.tsx:237-243 | the facts of a root folder `a` with one child `c` |
| Sidebar.SelfParentExample | src/components/sidebar/Sidebar.tsx:237-245 | dropping root folder `a` above its child `c` issues `moveFolderToFolder(a, a)` and a reorder |
| Sidebar.RenameIntents | src/components/sidebar/Sidebar.tsx:261-275 | a blank value renames nothing; otherwise the trimmed value renames the note with the id, else the folder, else the workspace, else nothing |
| Sidebar.SidebarState.constructor | src/components/sidebar/Sidebar.tsx:65-72 | nothing dragged, no drop target, no timer, nothing being edited, no menu, no calls |
| Sidebar.SidebarState.OnDragStart | src/components/sidebar/Sidebar.tsx:114-122 | records the dragged id, the width when it is truthy, and collapses a dragged folder |
| Sidebar.SidebarState.OnDragOver | src/components/sidebar/Sidebar.tsx:124-186 | no over item clears the target and the timer; self-hover or no rectangle clears the target; otherwise the target is the hover position, and the timer is started only inside a collapsed folder when none is pending, a pending timer is kept on a hover inside a folder, and it is cleared on any other hover |
| Sidebar.SidebarState.OnExpandTimer | src/components/sidebar/Sidebar.tsx:178-181 | a pending timer expands its folder and is cleared |
| Sidebar.SidebarState.OnDragEnd | src/components/sidebar/Sidebar.tsx:188-247 | clears the drag, the target and the timer; with an over item and a target it issues the drop's calls, otherwise nothing |
| Sidebar.SidebarState.OnDragCancel | src/components/sidebar/Sidebar.tsx:249-253 | clears the drag, the target and the timer and issues nothing |
| Sidebar.SidebarState.OnRenameStart | src/components/sidebar/Sidebar.tsx:255-259 | starts editing the item with the value and closes the menu |
| Sidebar.SidebarState.OnRenameSave | src/components/sidebar/Sidebar.tsx:261-275 | without an editing id nothing happens; otherwise the rename calls are issued and the editing state is always cleared |
| Sidebar.SidebarState.OnRenameCancel | src/components/sidebar/Sidebar.tsx:277-279 | stops editing |
| Sidebar.SidebarState.OpenContextMenu | src/components/sidebar/Sidebar.tsx:281-285 | opens the menu at the click position for that kind and item |
| ContextMenu.Clamp | src/components/sidebar/components/ContextMenu.tsx:38-41 | the coordinate is kept when the menu fits; otherwise it becomes the limit minus the size minus 8; the menu never overflows |
| ContextMenu.ClampIdempotent | src/components/sidebar/components/ContextMenu.tsx:38-42 | placing an already placed menu again does not move it |
| ContextMenu.FindWorkspace | src/components/sidebar/components/ContextMenu.tsx:63 | absent exactly when no workspace has the id; otherwise a listed workspace with that id |
| ContextMenu.Actions | src/components/sidebar/components/ContextMenu.tsx:77-126 | the actions of the entries, separators left out |
| ContextMenu.Entries | src/components/sidebar/components/ContextMenu.tsx:77-126 | only the sidebar menu has a separator, and the only disabled entry is a folder's "new folder", exactly when the depth gate fails |
| ContextMenu.EntryTable | src/components/sidebar/components/ContextMenu.tsx:77-126 | the entry list per menu kind: note, folder, workspace and sidebar |
| ContextMenu.ActionsAt | src/components/sidebar/components/ContextMenu.tsx:77-126 | the actions from an entry on are that entry's action, unless it is a separator, followed by the actions of the rest |
| ContextMenu.NewFolderGate | src/components/sidebar/components/ContextMenu.tsx:98 | an enabled "new folder" on a folder means an item id is given and its depth is below 2 |
| ContextMenu.RenameEffects | src/components/sidebar/components/ContextMenu.tsx:54-67 | without an item id nothing happens; otherwise the menu closes, preceded by a rename seeded with the note title, folder name or workspace name exactly when that item exists |
| ContextMenu.ColorEffects | src/components/sidebar/components/ContextMenu.tsx:69-75 | without an item id nothing happens; otherwise the setter matching the menu kind is called and the menu closes |
| ContextMenu.PickerEffects | src/components/sidebar/components/ContextMenu.tsx:198-202 | with an item id a picked colour goes to the note setter for notes and to the folder setter for every other kind; without one nothing happens |
| ContextMenu.ActionEffects | src/components/sidebar/components/ContextMenu.tsx:77-126 | every click closes the menu except a rename without an item; without an item only creations at the root happen |
| ContextMenu.CurrentColor | src/components/sidebar/components/ContextMenu.tsx:128-132 | null without an item id or on the sidebar menu, undefined for a missing note, and a colour only with an item id |
| ContextMenu.PickerStart | src/components/sidebar/components/ContextMenu.tsx:197 | the picker starts at the item's colour when it is truthy and at `#4F7DF3` otherwise |
| ContextMenu.Menu.constructor | src/components/sidebar/components/ContextMenu.tsx:17-24 | the menu opens at the click position with the picker hidden |
| ContextMenu.Menu.Place | src/components/sidebar/components/ContextMenu.tsx:35-44 | the position becomes the clamped coordinates |
| ContextMenu.Menu.Click | src/components/sidebar/components/ContextMenu.tsx:148-163 | a separator or disabled entry does nothing; appearance toggles the picker; any other entry issues its action's calls |
| ContextMenu.Menu.PickPreset | src/components/sidebar/components/ContextMenu.tsx:182-192 | a preset issues the colour calls |
| ContextMenu.Menu.PickCustom | src/components/sidebar/components/ContextMenu.tsx:196-203 | a custom colour issues the picker calls |
| ContextMenu.FirstPresetClears | src/components/sidebar/components/ContextMenu.tsx:27-75 | the first preset clears the colour with the setter of the menu kind, then closes the menu |
| ContextMenu.WorkspacePickerUsesFolderSetter | src/components/sidebar/components/ContextMenu.tsx:198-202 | on a workspace the picker calls the folder setter while a preset calls the workspace setter |
| SyncServer.SyncKey | server/src/main.rs:87-96 | a key exists exactly when the header is present and all visible ASCII, and it is the header's text; any such value is accepted |
| SyncServer.Upsert | server/src/main.rs:103-187 | a new id is inserted under the caller's key with the supplied creation time or else the update time; an existing row is overwritten only by a strictly newer record and keeps its key and creation time; the stored time never decreases |
| SyncServer.ApplyAll | server/src/main.rs:103-131 | applying a batch never removes a row |
| SyncServer.ApplyMonotone | server/src/main.rs:117-175 | after a batch every existing row keeps its key and creation time and its update time has not decreased |
| SyncServer.ApplyDominates | server/src/main.rs:103-187 | after a batch every record's id is stored with an update time at least the record's |
| SyncServer.ApplyDominated | server/src/main.rs:117-175 | a batch whose records are all no newer than the stored rows changes nothing |
| SyncServer.ApplyIdempotent | server/src/main.rs:103-187 | applying the same batch twice gives the same table as applying it once |
| SyncServer.AsRecord | server/src/main.rs:203-212 | a row read back carries its id, creation time, update time, tombstone flag and data |
| SyncServer.Window | server/src/main.rs:190-257 | exactly the rows stored under the caller's key with `last_sync_time < updated_at < now`, tombstones included |
| SyncServer.AcceptedRecordEchoed | server/src/main.rs:103-212 | a record that was accepted and lies in the window comes back in the response with its data |
| SyncServer.ForeignKeyOverwrite | server/src/main.rs:110-117 | a newer record sent under another key than the stored row's overwrites its data, deletion flag and time, the row keeps its old key, and so it is never in the writer's window |
| SyncServer.From | server/src/main.rs:130-186 | the failing statement counted from a later batch |
| SyncServer.UpsertLoop | server/src/main.rs:103-131 | the loop applies the whole batch, or stops after the records before the failing one and reports failure |
| SyncServer.ServerDb.constructor | server/src/main.rs:30-41 | the tables start empty |
| SyncServer.ServerDb.Sync | server/src/main.rs:81-265 | without a readable key: unauthorized, nothing written; with one: the three batches are applied in order up to the first database error, which returns an error with the earlier records kept; otherwise the response carries `now` and the three windows |
| SyncServer.SyncIdempotent | server/src/main.rs:103-187 | sending the same payload twice leaves each table as one send does |
| LocalDb.NoteUpserted | src-tauri/src/db.rs:48-70 | a new note is inserted; an existing one is overwritten in every field except its creation time, with no timestamp comparison; other notes are kept |
| LocalDb.FolderUpserted | src-tauri/src/db.rs:88-108 | a new folder is inserted; an existing one gets the new name, parent, workspace and colour and keeps its creation time |
| LocalDb.AllNotes | src-tauri/src/db.rs:41-46 | exactly the stored notes |
| LocalDb.AllFolders | src-tauri/src/db.rs:81-86 | exactly the stored folders |
| LocalDb.OlderNoteOverwrites | src-tauri/src/db.rs:52-57 | an older note still overwrites the stored one |
| LocalDb.UpsertThenDelete | src-tauri/src/db.rs:48-79 | an upsert touches only its own id |
| LocalDb.NoteUpsertIdempotent | src-tauri/src/db.rs:48-70 | upserting the same note twice is the same as once |
| LocalDb.DoubleQuotes | src-tauri/src/db.rs:121 | every `"` is doubled and nothing else changes |
| LocalDb.DoubleQuotesRoundTrip | src-tauri/src/db.rs:121 | halving the doubled quotes gives the query back |
| LocalDb.FtsQuery | src-tauri/src/db.rs:121 | the match text is the query with its quotes doubled, then `*` |
| LocalDb.Limited | src-tauri/src/db.rs:127-128 | the first at most 20 ranked results, in rank order |
| LocalDb.Db.constructor | src-tauri/src/db.rs:36-39 | both tables start empty |
| LocalDb.Db.GetNotes | src-tauri/src/db.rs:41-46 | returns exactly the stored notes |
| LocalDb.Db.GetFolders | src-tauri/src/db.rs:81-86 | returns exactly the stored folders |
| LocalDb.Db.UpsertNote | src-tauri/src/db.rs:48-70 | succeeds exactly when the note is outside any folder or its folder is stored (the foreign key of db.rs:177); then the notes table becomes the note upsert, otherwise nothing changes |
| LocalDb.Db.DeleteNote | src-tauri/src/db.rs:72-79 | removes exactly the note with that id |
| LocalDb.Db.UpsertFolder | src-tauri/src/db.rs:88-108 | succeeds exactly when the folder has no parent, a stored parent or itself as parent (the foreign key of db.rs:162); then the folders table becomes the folder upsert, otherwise nothing changes |
| LocalDb.Db.DeleteFolder | src-tauri/src/db.rs:110-117 | removes exactly the folder row with that id |
| LocalDb.Db.SearchNotes | src-tauri/src/db.rs:119-134 | the match text is the quoted query with `*`, and at most 20 ranked results come back |
| LocalDb.UpsertThenGet | src-tauri/src/db.rs:322-341 | after a new note is accepted and inserted, reading the notes gives the old ones and the new one |
| Importer.Without | src-tauri/src/importer.rs:117 | drops every copy of the given string (the empty component for the folder path, `.` for `Path::file_name`, importer.rs:52-56), keeping only components taken from the input, never more than it had |
| Importer.Parts | src-tauri/src/importer.rs:117 | every component of a split path is non-empty and free of `/` |
| Importer.SlashCount | src-tauri/src/importer.rs:110-111 | the depth of a path is at most its length |
| Importer.PrefixKeysAgree | src-tauri/src/importer.rs:125-137 | two component lists give the same `/`-joined folder-map key exactly when they are equal, so keying by components is the same map |
| Importer.EntryOf | src-tauri/src/importer.rs:35-60 | a member is refused exactly when it is a `.md` file whose text cannot be read, skipped exactly when it is a file not ending in `.md`, and otherwise kept as a folder or as a file with content |
| Importer.Extract | src-tauri/src/importer.rs:31-61 | every extracted entry is a directory or a file with content |
| Importer.ReadEntries | src-tauri/src/importer.rs:31-61 | the extraction loop gives what the specification function gives, stopping at the first unreadable file |
| Importer.ExtractStopsAtError | src-tauri/src/importer.rs:41-42 | once a prefix of the members fails to read, the whole extraction fails with that same error |
| Importer.FirstNonMarkdown | src-tauri/src/importer.rs:72-76 | finds a file entry without content when there is one, and otherwise every entry is a directory or has content |
| Importer.CheckEntries | src-tauri/src/importer.rs:63-76 | the validation loop refuses an archive with neither a Markdown file nor a folder, then the first file without content, and accepts everything else |
| Importer.FirstNonMarkdownIsFirst | src-tauri/src/importer.rs:72-76 | the reported file is the first one without content |
| Importer.NotMarkdownUnreachable | src-tauri/src/importer.rs:39-49 | after extraction the "not a .md file" error can never be raised, because non-Markdown files were already skipped |
| Importer.RefusedIffEmpty | src-tauri/src/importer.rs:63-69 | an extracted archive is refused exactly when it kept no entry |
| Importer.Dirs | src-tauri/src/importer.rs:106 | the directory entries are exactly the entries marked as directories |
| Importer.Files | src-tauri/src/importer.rs:107 | the file entries are exactly the entries not marked as directories |
| Importer.FileName | src-tauri/src/importer.rs:52-56 | the file name is the member's name, or one of its components that is not empty, `.`, `..` and holds no `/` |
| Importer.BareFileName | src-tauri/src/importer.rs:52-56 | a name without `/` is its own file name |
| Importer.SortedSnoc | src-tauri/src/importer.rs:109-113 | appending an entry at least as deep as all others keeps the list sorted by depth |
| Importer.InsertByDepthPerm | src-tauri/src/importer.rs:109-113 | inserting an entry gives a permutation of the list plus that entry |
| Importer.AtDepthAppend | src-tauri/src/importer.rs:109-113 | the entries of one depth in a concatenation are those of each part, in order |
| Importer.AtDepthOne | src-tauri/src/importer.rs:109-113 | a single entry is kept exactly when it has the given depth |
| Importer.InsertByDepthStable | src-tauri/src/importer.rs:109-113 | inserting an entry keeps the entries of every depth in their order, with the new entry after those of its own depth |
| Importer.InsertByDepthSorted | src-tauri/src/importer.rs:109-113 | inserting into a depth-sorted list keeps it sorted |
| Importer.SortByDepth | src-tauri/src/importer.rs:109-113 | the directories are reordered, as a permutation, by non-decreasing number of `/` |
| Importer.SortByDepthStable | src-tauri/src/importer.rs:109-113 | the sort is stable: the directories of every depth come out in the order they went in |
| Importer.Visit | src-tauri/src/importer.rs:131-153 | visiting a path prefix adds exactly that prefix to the folder map and never changes an existing id |
| Importer.VisitPrefixesKeys | src-tauri/src/importer.rs:125-154 | after the first k prefixes of a path the map holds exactly the old keys and those prefixes, with old ids unchanged |
| Importer.VisitDirsKeys | src-tauri/src/importer.rs:116-155 | the folder map ends up keyed by exactly the non-empty prefixes of the directory paths |
| Importer.VisitKeepsClosed | src-tauri/src/importer.rs:131-153 | a visit whose parent prefix is present keeps the map closed under prefixes and adds one folder per new key |
| Importer.VisitKeepsRecorded | src-tauri/src/importer.rs:139-150 | a visit keeps every key matched by a folder record with that id, the last component as name and the parent prefix's folder as parent |
| Importer.VisitPrefixesKeeps | src-tauri/src/importer.rs:125-154 | walking a path's prefixes keeps the map prefix-closed, recorded, and one folder per key |
| Importer.VisitPrefixKeeps | src-tauri/src/importer.rs:125-154 | one step of that walk keeps the same three invariants |
| Importer.VisitDirsKeeps | src-tauri/src/importer.rs:116-155 | the whole folder pass leaves a prefix-closed map, one recorded folder per key |
| Importer.VisitPrefixesNext | src-tauri/src/importer.rs:125-154 | visiting one more prefix is one more visit of that prefix |
| Importer.AddPrefix | src-tauri/src/importer.rs:126-153 | the loop body reuses an existing folder id or creates one folder, as a visit does, and returns the id that becomes the next parent |
| Importer.AddPath | src-tauri/src/importer.rs:117-154 | the inner loop visits every prefix of the path in turn |
| Importer.CreateFolders | src-tauri/src/importer.rs:116-155 | the outer loop gives the folder map and folder writes of the folder pass |
| Importer.NoteTitle | src-tauri/src/importer.rs:163-164 | the title is never empty, and it is the file name without its trailing `.md` suffixes whenever that is non-empty |
| Importer.NoteFolder | src-tauri/src/importer.rs:167-174 | a note has a folder exactly when its path has a directory part that the folder map holds |
| Importer.NotesOf | src-tauri/src/importer.rs:158-190 | one note per file entry, in order, each with the next fresh id |
| Importer.NotesOfNext | src-tauri/src/importer.rs:158-190 | one more file gives one more note at the end |
| Importer.CreateNote | src-tauri/src/importer.rs:160-186 | the note has the file's title, content and folder, the workspace id, the clock, version 1 and is not deleted |
| Importer.CreateNotes | src-tauri/src/importer.rs:158-190 | the note loop writes those notes and uses one id per file |
| Importer.WorkspaceOf | src-tauri/src/importer.rs:85-98 | the name is the given name, else the archive's file stem, else "Imported Workspace"; the colour is #4F7DF3, both times are the clock, version 1, not deleted |
| Importer.FolderPuts | src-tauri/src/importer.rs:152 | one folder write per folder, in order |
| Importer.NotePuts | src-tauri/src/importer.rs:188 | one note write per note, in order |
| Importer.ImportWorkspace | src-tauri/src/importer.rs:16-193 | the import reads, validates, then writes the workspace, the folders and the notes, in that order, and returns the new workspace id |
| Importer.AppendFolders | src-tauri/src/importer.rs:116-155 | the folder writes are appended after the earlier writes |
| Importer.AppendNotes | src-tauri/src/importer.rs:158-190 | the note writes are appended after the earlier writes |
| Importer.FolderTree | src-tauri/src/importer.rs:116-155 | every directory prefix gets exactly one folder, named after its last component, whose parent is the folder of the shorter prefix or none at the top |
| Importer.NotePlacement | src-tauri/src/importer.rs:166-174 | a note lands in a folder exactly when some directory entry made its directory path |
| Importer.ExtractFlat | src-tauri/src/importer.rs:37 | members neither marked nor named as directories give no directory entry |
| Importer.DirsSnoc | src-tauri/src/importer.rs:106 | the directory filter distributes over appending one entry |
| Importer.FlatArchive | src-tauri/src/importer.rs:103-190 | an archive without directory members imports with no folder and every note at the top level |
| Importer.FlatWrites | src-tauri/src/importer.rs:103-190 | the same for entries without directories |
| Importer.FlatPlan | src-tauri/src/importer.rs:103-190 | without directory entries the writes are the workspace followed by the notes, with an empty folder map |
| Importer.RootNotes | src-tauri/src/importer.rs:167-174 | with an empty folder map no note gets a folder |
| Importer.RootPuts | src-tauri/src/importer.rs:100-190 | the workspace write followed by top-level notes contains no folder write |
| Exporter.SanitizeChar | src-tauri/src/exporter.rs:102-108 | the replacement character is always a kept one, and a character is left alone exactly when it is alphanumeric, a space, `-` or `_` |
| Exporter.KeptIsPlain | src-tauri/src/exporter.rs:103 | a kept character is never a path separator or a dot, and only the plain space among white space survives |
| Exporter.SanitizeSafe | src-tauri/src/exporter.rs:100-112 | a sanitised name holds only kept characters, no `/` and no `.`, is no longer than the input and has no white space at either end |
| Exporter.SanitizeIdempotent | src-tauri/src/exporter.rs:100-112 | sanitising twice gives what sanitising once gives |
| Exporter.SanitizeKeepsClean | src-tauri/src/exporter.rs:100-112 | a name of kept characters without a space at either end is left unchanged |
| Exporter.SanitizeFixedPoints | src-tauri/src/exporter.rs:100-112 | a name is left unchanged exactly when it has only kept characters and no space at either end |
| Exporter.NoteFileNameShape | src-tauri/src/exporter.rs:53-58 | a note's file name ends in `.md` and holds no `/`; it is the sanitised title plus `.md`, or `Untitled.md` when that is empty |
| Exporter.FolderComponentShape | src-tauri/src/exporter.rs:74-79 | a folder's path component is never empty and holds no `/`; it is the sanitised name, or `Untitled Folder` when that is empty |
| Exporter.KeyedIds | src-tauri/src/db.rs:155-156 | two different folder rows never share an id |
| Exporter.LinkedSteps | src-tauri/src/exporter.rs:73-95 | a chain of folders the walk descends through holds rows of the list, starts at the given parent, links each folder to the one before it, and ends at the target folder |
| Exporter.ChainNoRepeat | src-tauri/src/exporter.rs:73-95 | with unique ids, a chain that starts at the top level never comes back to a folder it has passed |
| Exporter.DistinctFits | src-tauri/src/exporter.rs:73-95 | distinct folders all taken from a list are no more than the list holds |
| Exporter.ChainFits | src-tauri/src/exporter.rs:73-95 | a chain from the top level is never longer than the folder list, whatever parent links the rows hold |
| Exporter.LinkedSnoc | src-tauri/src/exporter.rs:87-94 | a chain extends at its lower end by a child of the folder it reaches |
| Exporter.ChildReached | src-tauri/src/exporter.rs:73-95 | walking into a child keeps the walk on a chain from the top level one folder longer, which still fits in the list, so the recursion from the top level ends even when the rows hold a parent cycle |
| Exporter.ChildPlacementsOf | src-tauri/src/exporter.rs:73-95 | on a walk from the top level the round of a child folder places that folder's own walk beneath it, and the round of any other folder places nothing |
| Exporter.NotePlacements | src-tauri/src/exporter.rs:52 | the notes of one folder are at most all the notes |
| Exporter.Beneath | src-tauri/src/exporter.rs:87-94 | the notes of a subfolder stay as many when the subfolder is put in front of their chains |
| Exporter.BeneathAt | src-tauri/src/exporter.rs:87-94 | each placement below a subfolder gains that subfolder at the head of its chain |
| Exporter.Components | src-tauri/src/exporter.rs:74-79 | one path component per folder on the chain, each the folder's sanitised name |
| Exporter.Render | src-tauri/src/exporter.rs:66-69 | one archive entry per placed note |
| Exporter.RenderMembers | src-tauri/src/exporter.rs:66-69 | an entry is written exactly when it is the entry of some placed note |
| Exporter.ItemBeneath | src-tauri/src/exporter.rs:81-85 | a note below subfolder f written from path p gets the path it gets when written from p's subfolder path |
| Exporter.RenderBeneath | src-tauri/src/exporter.rs:81-94 | the entries of a subfolder's notes are those the recursive call writes with the subfolder path |
| Exporter.NoteStep | src-tauri/src/exporter.rs:52-70 | one more note adds its entry at the end when it is in the folder and nothing otherwise |
| Exporter.NoteEntry | src-tauri/src/exporter.rs:53-69 | a note of the current folder is written at the current path joined with its file name, with its content |
| Exporter.SubfolderStep | src-tauri/src/exporter.rs:73-95 | one more folder adds its subtree's entries at the end when it is a child and nothing otherwise |
| Exporter.SubfolderChildStep | src-tauri/src/exporter.rs:73-95 | a child folder appends exactly what the recursive call on it writes |
| Exporter.SubfolderItemsStep | src-tauri/src/exporter.rs:73-95 | the subfolder loop's output after one more folder is the rendering of the placements so far |
| Exporter.ChildItemsStep | src-tauri/src/exporter.rs:73-95 | the same step for a folder that is a child |
| Exporter.ChildItems | src-tauri/src/exporter.rs:73-95 | a child folder's turn appends the whole export of that folder under its sub-path |
| Exporter.OtherItemsStep | src-tauri/src/exporter.rs:73-95 | a folder that is not a child adds nothing |
| Exporter.ZipSink.constructor | src-tauri/src/exporter.rs:29 | a new archive is empty |
| Exporter.ExportFolder | src-tauri/src/exporter.rs:43-98 | on any folder rows with unique ids, the recursive walk from the top level ends and appends the folder's notes, then each child folder's subtree, and nothing else |
| Exporter.ChildFolderPath | src-tauri/src/exporter.rs:74-85 | the subfolder path is the current path extended by the folder's component |
| Exporter.ExportSubfolders | src-tauri/src/exporter.rs:73-95 | the subfolder loop appends the subtrees of the child folders in folder order |
| Exporter.ExportSubfolder | src-tauri/src/exporter.rs:73-95 | one turn of that loop extends the output by that folder's share |
| Exporter.WorkspaceNotes | src-tauri/src/exporter.rs:17-20 | exactly the notes of the workspace are kept |
| Exporter.WorkspaceFolders | src-tauri/src/exporter.rs:21-24 | exactly the folders of the workspace are kept |
| Exporter.ExportWorkspace | src-tauri/src/exporter.rs:9-41 | exporting writes a fresh archive whose entries are those of the walk from the top level of the workspace |
| Exporter.LinkedCons | src-tauri/src/exporter.rs:73-95 | a chain of parent links extends by a child folder at the front |
| Exporter.SubfolderMembers | src-tauri/src/exporter.rs:73-95 | a placement comes from the first k folders exactly when it comes from the first k-1 or from the round of folder k |
| Exporter.BeneathMembers | src-tauri/src/exporter.rs:87-94 | a placement is below f exactly when its chain starts at f and the rest is a placement of f's subtree |
| Exporter.NotePlacementsMembers | src-tauri/src/exporter.rs:52 | a note is placed directly in the folder exactly when it is one of the notes and its folder id is the folder |
| Exporter.PlacedSound | src-tauri/src/exporter.rs:43-98 | every written note is a real note whose chain of folders leads by parent links from the starting folder to the note's folder |
| Exporter.SubfolderSound | src-tauri/src/exporter.rs:73-95 | the same for the notes written by the subfolder loop |
| Exporter.SubfolderOrigin | src-tauri/src/exporter.rs:73-95 | a note written by the subfolder loop came from the round of one folder |
| Exporter.ChildSound | src-tauri/src/exporter.rs:87-94 | a round places something only for a child folder of the parent, and what it places is linked from the parent through that child |
| Exporter.SubfolderComplete | src-tauri/src/exporter.rs:73-95 | whatever the round of an earlier folder placed is still written when the loop ends |
| Exporter.ChildComplete | src-tauri/src/exporter.rs:87-94 | a note of a child's subtree is placed by that child's round |
| Exporter.PlacedComplete | src-tauri/src/exporter.rs:43-98 | every note reachable by parent links from the starting folder is written, with that chain |
| Exporter.PathUnderJoins | src-tauri/src/exporter.rs:60-85 | the path of a note is the components and the file name joined by `/`, after the current path when there is one |
| Exporter.ExportContents | src-tauri/src/exporter.rs:9-98 | an entry is in the archive exactly when it is a note of the workspace below a chain of its folders from the top level, at the sanitised names joined by `/`, with the note's content; a note in a folder outside that tree is not exported |
| Exporter.TopLevelNote | src-tauri/src/exporter.rs:52-69 | a top-level note of the workspace is written at its bare file name with its content |
| Exporter.SlashAndQuestionMarkCollide | src-tauri/src/exporter.rs:100-112 | the titles `x/y` and `x?y` both become `x_y.md` |
| Exporter.KeyedWorkspace | src-tauri/src/exporter.rs:21-24 | the folders of one workspace keep the unique ids of all the folder rows |
| Exporter.SelfParentNoteOmitted | src-tauri/src/exporter.rs:43-98 | a note in a folder that is its own parent is silently left out of the archive |
| Exporter.TwoTopLevelNotes | src-tauri/src/exporter.rs:52 | two top-level notes are placed in their given order |
| Exporter.DuplicatePathsKept | src-tauri/src/exporter.rs:53-69 | two notes whose titles sanitise alike are both written, at the same path, in order |
| RoundTrip.Members | src-tauri/src/exporter.rs:66-69 | the archive the exporter writes is read back as one plain readable file member per entry, with the same path and text |
| RoundTrip.ItemEntries | src-tauri/src/importer.rs:51-60 | one file entry with content per exported entry |
| RoundTrip.ExportedPath | src-tauri/src/exporter.rs:53-64 | every exported path ends in `.md` and not in `/` |
| RoundTrip.ExtractItems | src-tauri/src/importer.rs:31-61 | reading the exported members succeeds and gives one file entry per entry, in order |
| RoundTrip.EntryOfItemRead | src-tauri/src/importer.rs:35-60 | an exported Markdown file is read as a file entry with its content |
| RoundTrip.AllFiles | src-tauri/src/importer.rs:106-107 | entries without directories are all file entries |
| RoundTrip.ExportThenImport | src-tauri/src/importer.rs:63-190 | importing an exported workspace succeeds exactly when it had an exported note, and then writes the new workspace and one top-level note per exported note, in order, with its content and the title from its file name: the folder tree is lost |
| RoundTrip.ImportOfItems | src-tauri/src/importer.rs:63-76 | such an archive passes validation exactly when it is non-empty |
| RoundTrip.ValidItems | src-tauri/src/importer.rs:63-76 | the exported entries are refused as empty only when there are none, and never as non-Markdown |
| RoundTrip.ItemWrites | src-tauri/src/importer.rs:100-190 | their writes are the workspace and then the flat notes |
| RoundTrip.ImportedNotes | src-tauri/src/importer.rs:157-190 | flat readable entries give the workspace write and then one note write per entry, in order |

## Left out

- Rendering, animation, CSS and the purely presentational components are not modelled, because they hold no logic beyond layout.
- Some library code is not modelled, because it is outside the application:
  - dnd-kit's collision detection;
  - ReactMarkdown and its plugins;
  - highlight.js language detection;
  - mermaid.
  The drop target and the hovered item are inputs.
- CodeMirror applies a command to every selection range. The toolbar model applies it to one range of one document string, the body of `changeByRange`. Dispatching the transaction is not modelled.
- Drag rectangles are floating-point pixels. They are modelled as integers scaled by ten, so the 30% split compares `10 * centre` with `10 * top + 3 * height`.
- The `setTimeout` and `clearTimeout` calls are not modelled as timers. A pending auto-expand timer is the id of its folder. It fires only when `OnExpandTimer` is called, and the delay is not modelled.
- I/O is not modelled:
  - HTTP, routing, CORS and logging of the server;
  - opening and writing zip files;
  - the clipboard, toasts and the download link of the share popup.
  The importer receives the archive's members as a list. The exporter's archive is a sequence of (path, content) entries.
- LocalDb.Db.DeleteFolder: the program's database enforces foreign keys, so deleting a folder also deletes, through `ON DELETE CASCADE` (src-tauri/src/db.rs:162, 177), every folder below it and every note in those folders; the model removes only the folder row and promises nothing about the rows the cascade would remove.
- SQLite and FTS5 internals are not modelled: schema creation, triggers, ranking, snippets and the connection pool. Search receives the ranked matches as an input.
- A database failure on the server is modelled as the index of the first failing statement. On the desktop, the foreign-key rejections of `LocalDb.Db.UpsertNote` and `LocalDb.Db.UpsertFolder` are modelled; other database failures (a full disk, a locked file) and zip errors other than an unreadable Markdown member are not. The importer returns its writes as a list and does not run them against the tables, so a foreign-key rejection during an import is not modelled either.
- Random ids (`uuid`, `Math.random`) and clocks (`Date.now`, `Utc::now`, `SystemTime`) are parameters. The importer's n-th generated id is `uuid(n)`.
- Store actions that the sidebar and the context menu call but `useStore.ts` does not define are recorded as `Intent` values, without an effect. These include `moveNoteToFolder`, `reorderNotes`, `toggleFolder(id, false)` and the workspace actions. So are `onClose`, `onRename` and `onExport`.
- `Preview.RenderCode`: JavaScript measures `children.length > 50` (src/components/editor/Preview.tsx:195) in UTF-16 code units, while the model counts the characters of a `string`. A child of 26 to 50 characters outside the Basic Multilingual Plane (emoji, for example) is more than 50 code units, so the program renders it as a block where the model renders it inline.
- The toolbar commands (`Toolbar.Press` and the edits below it) and the Markdown helpers that work on positions (`Markdown.Toggle`, `Markdown.HeadingAt`) count positions in characters. CodeMirror and JavaScript count them in UTF-16 code units, so offsets differ after a character outside the Basic Multilingual Plane.
- The context menu's `onInlineCreate` callback (src/components/sidebar/components/ContextMenu.tsx:85, 95, 112, 120) is not modelled. After "new note" or "new folder" it starts an inline rename of the created item, whose id the store generates at random. `ContextMenu.ActionEffects` records only the creation and the closing of the menu.
- Localised strings (default folder and workspace names, the note-title fallback) are parameters.
- The order of rows that a HashMap or a database query returns is not modelled. Tables are maps, and `get_notes` and `get_folders` return the stored records as a set.
- `Exporter.IsAlphanumeric`: Rust's `char::is_alphanumeric` is modelled on the Latin script only (ASCII, Latin-1, Latin Extended-A/B and Latin Extended Additional). Letters and digits of other scripts are replaced by `_` in the model but kept by the source.
- Path handling follows `/` separators only. Windows separators and the platform behaviour of `Path::file_name` beyond `.` and `..` components are not modelled.
- `SidebarTree.Depth`: the source's recursion has no bound and does not return on cyclic parent links. The model walks with fuel and defines depth and subtree height for acyclic lists only; cyclic data is outside the model.
- `Sidebar.VisualOrder`, `Sidebar.GetVisualOrder`, `Sidebar.AllItemIds`: these and the order lemmas below them in `sidebar.dfy` require `Forest`: unique non-empty folder ids and no parent cycle anywhere in the list. The source's `getVisualOrder(null)` (src/components/sidebar/Sidebar.tsx:80-89) also returns on lists where only folders unreachable from the top level form a cycle, for example after the `moveFolderToFolder(a, a)` that `Sidebar.SelfParentExample` shows the sidebar issuing. The visual order of such lists is not stated.
- The numbered-list command's `parseInt` reads the leading digits as an unbounded integer. Precision loss beyond 2^53 is not modelled.
- `tests/test_markdown.py` duplicates the Markdown helpers in Python and is not part of this model.

## Findings

| source | as written | input that shows it | evidently intended | confidence | as-written member | corrected member |
|---|---|---|---|---|---|---|
| src/components/editor/Preview.tsx:152 | the empty-task rule ends in `(\s*)$` under the `m` flag; `\s` matches line breaks, so the run can backtrack to a later line end and the replacement deletes the line breaks it spans | the note `- [ ]`, a blank line, `Text` becomes `- [ ] ​` followed by one line break and `Text`, so the blank line is gone and the paragraph joins the checklist item | only same-line white space after the marker is replaced, so every line break of the note is kept | not executed | Preview.EmptyTaskEatsBlankLine | Preview.OnLineKeepsAllBreaks |

The corrected rule is `Preview.Rule.EmptyTaskOnLine`, and `Preview.ProcessedOnLine` is the preprocessing that uses it. `Preview.EmptyTaskOnLineKeepsBlankLine` shows that the same note keeps its blank line under that rule. `Preview.BlankLineExample` states both outcomes for the literal note. `Preview.LineByLine` shows that the corrected rule, like the other two, replaces a note line by line; as written the empty-task rule does so only where the next line starts with text (`Preview.EmptyTaskNotLastLine`), and it also drops a final line terminator after an empty task (`Preview.EmptyTaskFinalBreak`).
