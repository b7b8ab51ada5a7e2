/**
 * Importing a zip archive of Markdown files as a new workspace
 * (src-tauri/src/importer.rs, `import_workspace_logic`).
 *
 * The archive arrives as its list of members; reading the archive and the
 * database writes are outside the model, so the import returns the records
 * it writes, in order.  Generated ids come from `uuid`, the n-th id asked
 * for, and the clock is the parameter `now`.
 *
 * `folder_map` is keyed in the source by the `/`-joined path prefix; here it
 * is keyed by the list of path components, which is the same thing because
 * the components are `/`-free (`Util.SplitJoin`, see `PrefixKeysAgree`).
 */
module Importer {
  import opened Util

  /** An archive member: its name, whether the archive marks it as a directory, and its text if it is UTF-8. */
  datatype ZipFile = ZipFile(name: string, isDir: bool, text: Option<string>)

  datatype Entry = Entry(name: string, path: string, isDir: bool, content: Option<string>)

  datatype ImportError =
    | Unreadable(name: string)     // "Failed to read file content ..."
    | NothingToImport              // no .md file and no folder
    | NotMarkdown(name: string)    // a file that is not .md

  datatype WorkspaceRecord = WorkspaceRecord(
    id: string, name: string, color: string, createdAt: int, updatedAt: int, version: int, isDeleted: bool)

  datatype FolderRecord = FolderRecord(
    id: string, name: string, parentId: Option<string>, workspaceId: string,
    createdAt: int, updatedAt: int, version: int, color: Option<string>, isDeleted: bool)

  datatype NoteRecord = NoteRecord(
    id: string, title: string, content: string, folderId: Option<string>, workspaceId: string,
    createdAt: int, updatedAt: int, version: int, isDeleted: bool)

  datatype Write = PutWorkspace(workspace: WorkspaceRecord) | PutFolder(folder: FolderRecord) | PutNote(note: NoteRecord)

  const WorkspaceColor: string := "#4F7DF3"
  const DefaultWorkspaceName: string := "Imported Workspace"
  const UntitledNote: string := "Untitled"

  // ---------------------------------------------------------------------
  // Paths
  // ---------------------------------------------------------------------

  /**
   * The strings of `parts` other than `x`, in order: with `x == ""` the
   * `filter(|s| !s.is_empty())` of the import, with `x == "."` the `.`
   * components that `Path::file_name` skips.
   */
  function Without(parts: seq<string>, x: string): (r: seq<string>)
    ensures |r| <= |parts|
    ensures forall k :: 0 <= k < |r| ==> r[k] != x && r[k] in parts
  {
    if parts == [] then []
    else
      var rest := Without(parts[1..], x);
      if parts[0] != x then [parts[0]] + rest else rest
  }

  /** The non-empty `/`-separated components of a path. */
  function Parts(path: string): (r: seq<string>)
    ensures forall k :: 0 <= k < |r| ==> r[k] != "" && '/' !in r[k]
  {
    Without(Split(path, '/'), "")
  }

  /**
   * `Path::file_name`: the last component that is not `.`; none for `..` or
   * a path of separators, and then the member's whole name is used.
   */
  function FileName(name: string): (r: string)
    ensures r == name || (r in Parts(name) && r != "." && r != ".." && r != "" && '/' !in r)
  {
    var comps := Without(Parts(name), ".");
    if comps == [] || comps[|comps| - 1] == ".." then name else comps[|comps| - 1]
  }

  /** A name without a separator is its own file name. */
  lemma BareFileName(name: string)
    requires '/' !in name
    ensures FileName(name) == name
  {
    SplitNoSep(name, '/');
  }

  /** `path.matches('/').count()` */
  function SlashCount(s: string): (n: nat)
    ensures n <= |s|
  {
    if s == [] then 0 else (if s[0] == '/' then 1 else 0) + SlashCount(s[1..])
  }

  /** Two component lists join to the same map key exactly when they are equal. */
  lemma PrefixKeysAgree(ps: seq<string>, qs: seq<string>)
    requires |ps| >= 1 && |qs| >= 1
    requires forall k :: 0 <= k < |ps| ==> '/' !in ps[k]
    requires forall k :: 0 <= k < |qs| ==> '/' !in qs[k]
    ensures Join(ps, '/') == Join(qs, '/') <==> ps == qs
  {
    SplitJoin(ps, '/');
    SplitJoin(qs, '/');
  }

  // ---------------------------------------------------------------------
  // Reading the members
  // ---------------------------------------------------------------------

  /** What one member contributes to `entries`: skipped, an entry, or a read error. */
  function EntryOf(f: ZipFile): (r: Result<Option<Entry>, ImportError>)
    ensures r.Ok? && r.value.Some? ==> r.value.value.isDir || r.value.value.content.Some?
    ensures r.Err? <==> !f.isDir && !EndsWith(f.name, "/") && EndsWith(f.name, ".md") && f.text.None?
    ensures r.Ok? && r.value.None? <==> !f.isDir && !EndsWith(f.name, "/") && !EndsWith(f.name, ".md")
  {
    var path := TrimEndMatches(f.name, "/");
    var isDir := f.isDir || EndsWith(f.name, "/");
    if !isDir && EndsWith(f.name, ".md") then
      if f.text.None? then Err(Unreadable(f.name))
      else Ok(Some(Entry(FileName(f.name), path, false, f.text)))
    else if !isDir then Ok(None)
    else Ok(Some(Entry(FileName(f.name), path, true, None)))
  }

  /** The entries of the members, stopping at the first unreadable Markdown file. */
  function Extract(files: seq<ZipFile>): (r: Result<seq<Entry>, ImportError>)
    ensures r.Ok? ==> forall k :: 0 <= k < |r.value| ==> r.value[k].isDir || r.value[k].content.Some?
  {
    if files == [] then Ok([])
    else
      match Extract(files[..|files| - 1])
      case Err(e) => Err(e)
      case Ok(es) =>
        match EntryOf(files[|files| - 1])
        case Err(e) => Err(e)
        case Ok(None) => Ok(es)
        case Ok(Some(e)) => Ok(es + [e])
  }

  method ReadEntries(files: seq<ZipFile>) returns (r: Result<seq<Entry>, ImportError>)
    ensures r == Extract(files)
  {
    var entries: seq<Entry> := [];
    var i := 0;
    while i < |files|
      invariant 0 <= i <= |files|
      invariant Extract(files[..i]) == Ok(entries)
    {
      assert files[..i + 1][..i] == files[..i];
      var f := files[i];
      var path := TrimEndMatches(f.name, "/");
      var isDir := f.isDir || EndsWith(f.name, "/");
      var content: Option<string>;
      if !isDir && EndsWith(f.name, ".md") {
        if f.text.None? {
          assert Extract(files[..i + 1]).Err?;
          ExtractStopsAtError(files, i + 1);
          return Err(Unreadable(f.name));
        }
        content := f.text;
      } else if !isDir {
        i := i + 1;
        continue;
      } else {
        content := None;
      }
      entries := entries + [Entry(FileName(f.name), path, isDir, content)];
      i := i + 1;
    }
    assert files[..i] == files;
    return Ok(entries);
  }

  /** Once the prefix read so far fails, reading all of the members fails the same way. */
  lemma {:induction false} ExtractStopsAtError(files: seq<ZipFile>, n: nat)
    requires n <= |files| && Extract(files[..n]).Err?
    ensures Extract(files) == Extract(files[..n])
    decreases |files| - n
  {
    if n < |files| {
      assert files[..n + 1][..n] == files[..n];
      ExtractStopsAtError(files, n + 1);
    } else {
      assert files[..n] == files;
    }
  }

  // ---------------------------------------------------------------------
  // Validation
  // ---------------------------------------------------------------------

  predicate HasMarkdown(entries: seq<Entry>)
  {
    exists k :: 0 <= k < |entries| && !entries[k].isDir && entries[k].content.Some?
  }

  predicate HasFolders(entries: seq<Entry>)
  {
    exists k :: 0 <= k < |entries| && entries[k].isDir
  }

  /** The first file without content, which the second check rejects. */
  function FirstNonMarkdown(entries: seq<Entry>): (r: Option<nat>)
    ensures r.Some? ==> r.value < |entries| && !entries[r.value].isDir && entries[r.value].content.None?
    ensures r.None? ==> forall k :: 0 <= k < |entries| ==> entries[k].isDir || entries[k].content.Some?
  {
    if entries == [] then None
    else if !entries[0].isDir && entries[0].content.None? then Some(0)
    else
      match FirstNonMarkdown(entries[1..])
      case None => None
      case Some(k) => Some(k + 1)
  }

  /** Both checks of the archive's structure. */
  function Validation(entries: seq<Entry>): Option<ImportError>
  {
    if !HasMarkdown(entries) && !HasFolders(entries) then Some(NothingToImport)
    else
      match FirstNonMarkdown(entries)
      case Some(k) => Some(NotMarkdown(entries[k].name))
      case None => None
  }

  method CheckEntries(entries: seq<Entry>) returns (err: Option<ImportError>)
    ensures err == Validation(entries)
  {
    if !HasMarkdown(entries) && !HasFolders(entries) {
      return Some(NothingToImport);
    }
    var i := 0;
    while i < |entries|
      invariant 0 <= i <= |entries|
      invariant forall k :: 0 <= k < i ==> entries[k].isDir || entries[k].content.Some?
    {
      if !entries[i].isDir && entries[i].content.None? {
        FirstNonMarkdownIsFirst(entries, i);
        return Some(NotMarkdown(entries[i].name));
      }
      i := i + 1;
    }
    return None;
  }

  lemma {:induction false} FirstNonMarkdownIsFirst(entries: seq<Entry>, i: nat)
    requires i < |entries| && !entries[i].isDir && entries[i].content.None?
    requires forall k :: 0 <= k < i ==> entries[k].isDir || entries[k].content.Some?
    ensures FirstNonMarkdown(entries) == Some(i)
  {
    if i > 0 {
      FirstNonMarkdownIsFirst(entries[1..], i - 1);
    }
  }

  /** Non-Markdown files were already skipped while reading, so the second check never fires. */
  lemma NotMarkdownUnreachable(files: seq<ZipFile>)
    requires Extract(files).Ok?
    ensures Validation(Extract(files).value).None? || Validation(Extract(files).value) == Some(NothingToImport)
  {
  }

  /** The import is refused exactly when the members hold no Markdown file and no directory. */
  lemma RefusedIffEmpty(files: seq<ZipFile>)
    requires Extract(files).Ok?
    ensures Validation(Extract(files).value).Some? <==>
              forall k :: 0 <= k < |Extract(files).value| ==> !Extract(files).value[k].isDir && Extract(files).value[k].content.None?
  {
  }

  // ---------------------------------------------------------------------
  // Ordering of the directory entries
  // ---------------------------------------------------------------------

  /** The directory entries, in order. */
  function Dirs(entries: seq<Entry>): (r: seq<Entry>)
    ensures forall k :: 0 <= k < |r| ==> r[k].isDir && r[k] in entries
    ensures forall e :: e in entries && e.isDir ==> e in r
  {
    if entries == [] then []
    else
      var rest := Dirs(entries[1..]);
      assert forall e :: e in entries && e != entries[0] ==> e in entries[1..];
      if entries[0].isDir then [entries[0]] + rest else rest
  }

  /** The file entries, in order. */
  function Files(entries: seq<Entry>): (r: seq<Entry>)
    ensures forall k :: 0 <= k < |r| ==> !r[k].isDir && r[k] in entries
    ensures forall e :: e in entries && !e.isDir ==> e in r
  {
    if entries == [] then []
    else
      var rest := Files(entries[1..]);
      assert forall e :: e in entries && e != entries[0] ==> e in entries[1..];
      if !entries[0].isDir then [entries[0]] + rest else rest
  }

  /** No entry is deeper (has more `/` in its path) than an entry after it. */
  predicate DepthSorted(s: seq<Entry>)
  {
    forall i, j :: 0 <= i <= j < |s| ==> SlashCount(s[i].path) <= SlashCount(s[j].path)
  }

  /** An entry at least as deep as every entry of a depth-sorted list can go at its end. */
  lemma SortedSnoc(s: seq<Entry>, x: Entry)
    ensures DepthSorted(s) && (forall y :: y in s ==> SlashCount(y.path) <= SlashCount(x.path)) ==>
            DepthSorted(s + [x])
  {
    if DepthSorted(s) && (forall y :: y in s ==> SlashCount(y.path) <= SlashCount(x.path)) {
      var t := s + [x];
      forall i, j | 0 <= i <= j < |t| ensures SlashCount(t[i].path) <= SlashCount(t[j].path) {
        if j == |s| && i < |s| {
          assert t[i] in s;
        }
      }
    }
  }

  /** Inserts `e` after every entry of `sorted` that is not deeper than it. */
  function InsertByDepth(sorted: seq<Entry>, e: Entry): seq<Entry>
    decreases |sorted|
  {
    if sorted == [] then [e]
    else if SlashCount(sorted[|sorted| - 1].path) <= SlashCount(e.path) then sorted + [e]
    else InsertByDepth(sorted[..|sorted| - 1], e) + [sorted[|sorted| - 1]]
  }

  /** Insertion adds `e` and loses nothing. */
  lemma {:induction false} InsertByDepthPerm(sorted: seq<Entry>, e: Entry)
    ensures multiset(InsertByDepth(sorted, e)) == multiset(sorted) + multiset{e}
    decreases |sorted|
  {
    if sorted != [] && SlashCount(sorted[|sorted| - 1].path) > SlashCount(e.path) {
      var front := sorted[..|sorted| - 1];
      assert sorted == front + [sorted[|sorted| - 1]];
      InsertByDepthPerm(front, e);
    }
  }

  /** Insertion keeps a depth-sorted list depth-sorted. */
  lemma {:induction false} InsertByDepthSorted(sorted: seq<Entry>, e: Entry)
    requires DepthSorted(sorted)
    ensures DepthSorted(InsertByDepth(sorted, e))
    decreases |sorted|
  {
    if sorted != [] {
      var last := sorted[|sorted| - 1];
      var front := sorted[..|sorted| - 1];
      if SlashCount(last.path) <= SlashCount(e.path) {
        assert forall y :: y in sorted ==> SlashCount(y.path) <= SlashCount(e.path);
        SortedSnoc(sorted, e);
      } else {
        var r := InsertByDepth(front, e);
        assert DepthSorted(front);
        InsertByDepthSorted(front, e);
        InsertByDepthPerm(front, e);
        assert forall y :: y in r ==> y in front || y == e by {
          forall y | y in r ensures y in front || y == e {
            assert y in multiset(r);
          }
        }
        assert forall y :: y in r ==> SlashCount(y.path) <= SlashCount(last.path);
        SortedSnoc(r, last);
      }
    }
  }

  /** `sort_by` on the number of `/` in the path; the sort is stable. */
  function SortByDepth(dirs: seq<Entry>): (r: seq<Entry>)
    ensures multiset(r) == multiset(dirs)
    ensures DepthSorted(r)
  {
    if dirs == [] then []
    else
      assert dirs == dirs[..|dirs| - 1] + [dirs[|dirs| - 1]];
      InsertByDepthSorted(SortByDepth(dirs[..|dirs| - 1]), dirs[|dirs| - 1]);
      InsertByDepthPerm(SortByDepth(dirs[..|dirs| - 1]), dirs[|dirs| - 1]);
      InsertByDepth(SortByDepth(dirs[..|dirs| - 1]), dirs[|dirs| - 1])
  }

  /** The entries of `s` at depth `d`, in their order in `s`. */
  function AtDepth(s: seq<Entry>, d: nat): seq<Entry>
  {
    if s == [] then []
    else AtDepth(s[..|s| - 1], d) + if SlashCount(s[|s| - 1].path) == d then [s[|s| - 1]] else []
  }

  lemma {:induction false} AtDepthAppend(a: seq<Entry>, b: seq<Entry>, d: nat)
    ensures AtDepth(a + b, d) == AtDepth(a, d) + AtDepth(b, d)
    decreases |b|
  {
    if b == [] {
      assert a + b == a;
    } else {
      var front := b[..|b| - 1];
      assert (a + b)[..|a + b| - 1] == a + front;
      assert (a + b)[|a + b| - 1] == b[|b| - 1];
      AtDepthAppend(a, front, d);
    }
  }

  /** A single entry is kept exactly when it is at depth `d`. */
  lemma AtDepthOne(x: Entry, d: nat)
    ensures AtDepth([x], d) == if SlashCount(x.path) == d then [x] else []
  {
    assert [x][..0] == [];
  }

  /** Two pieces of which one is empty can be appended in either order. */
  lemma SwapEmpty(f: seq<Entry>, a: seq<Entry>, b: seq<Entry>)
    requires a == [] || b == []
    ensures (f + a) + b == (f + b) + a
  {
    if a == [] {
      assert f + a == f && (f + b) + a == f + b;
    } else {
      assert f + b == f && (f + a) + b == f + a;
    }
  }

  /** Inserting `e` keeps the entries of each depth in order, with `e` after those of its own depth. */
  lemma {:induction false} InsertByDepthStable(sorted: seq<Entry>, e: Entry, d: nat)
    ensures AtDepth(InsertByDepth(sorted, e), d) == AtDepth(sorted, d) + AtDepth([e], d)
    decreases |sorted|
  {
    AtDepthOne(e, d);
    if sorted == [] {
      assert AtDepth(sorted, d) == [];
      assert InsertByDepth(sorted, e) == [e];
      assert AtDepth(sorted, d) + AtDepth([e], d) == AtDepth([e], d);
    } else {
      var last := sorted[|sorted| - 1];
      var front := sorted[..|sorted| - 1];
      assert sorted == front + [last];
      if SlashCount(last.path) <= SlashCount(e.path) {
        AtDepthAppend(sorted, [e], d);
      } else {
        var ins := InsertByDepth(front, e);
        assert InsertByDepth(sorted, e) == ins + [last];
        InsertByDepthStable(front, e, d);
        AtDepthAppend(ins, [last], d);
        AtDepthAppend(front, [last], d);
        AtDepthOne(last, d);
        SwapEmpty(AtDepth(front, d), AtDepth([e], d), AtDepth([last], d));
      }
    }
  }

  /**
   * The sort is stable: the entries of each depth come out in the order they
   * went in.  With `DepthSorted` and the multiset this pins the result down.
   */
  lemma {:induction false} SortByDepthStable(dirs: seq<Entry>, d: nat)
    ensures AtDepth(SortByDepth(dirs), d) == AtDepth(dirs, d)
    decreases |dirs|
  {
    if dirs != [] {
      var front := dirs[..|dirs| - 1];
      var x := dirs[|dirs| - 1];
      SortByDepthStable(front, d);
      InsertByDepthStable(SortByDepth(front), x, d);
      assert [x][..0] == [];
    }
  }

  // ---------------------------------------------------------------------
  // Folders
  // ---------------------------------------------------------------------

  /** The state of the folder pass: `folder_map`, the folders written, the next id to draw. */
  datatype Build = Build(folderMap: map<seq<string>, string>, folders: seq<FolderRecord>, next: nat)

  /** The id of the folder for `cur` minus its last component, if `cur` has one. */
  function ParentId(cur: seq<string>, fm: map<seq<string>, string>): Option<string>
  {
    if |cur| > 1 && cur[..|cur| - 1] in fm then Some(fm[cur[..|cur| - 1]]) else None
  }

  function NewFolder(id: string, cur: seq<string>, fm: map<seq<string>, string>, ws: string, now: int): FolderRecord
    requires |cur| >= 1
  {
    FolderRecord(id, cur[|cur| - 1], ParentId(cur, fm), ws, now, now, 1, None, false)
  }

  /** One step of the inner loop: the prefix `cur` gets a folder unless it has one. */
  function Visit(b: Build, cur: seq<string>, ws: string, now: int, uuid: nat -> string): (r: Build)
    requires |cur| >= 1
    ensures r.folderMap.Keys == b.folderMap.Keys + {cur}
    ensures forall p :: p in b.folderMap ==> r.folderMap[p] == b.folderMap[p]
  {
    if cur in b.folderMap then b
    else
      var id := uuid(b.next);
      Build(b.folderMap[cur := id], b.folders + [NewFolder(id, cur, b.folderMap, ws, now)], b.next + 1)
  }

  /** The inner loop over the first `k` prefixes of one directory path. */
  function VisitPrefixes(b: Build, parts: seq<string>, k: nat, ws: string, now: int, uuid: nat -> string): Build
    requires k <= |parts|
  {
    if k == 0 then b else Visit(VisitPrefixes(b, parts, k - 1, ws, now, uuid), parts[..k], ws, now, uuid)
  }

  /** The outer loop over the sorted directory entries. */
  function VisitDirs(b: Build, dirs: seq<Entry>, ws: string, now: int, uuid: nat -> string): Build
  {
    if dirs == [] then b
    else
      var parts := Parts(dirs[|dirs| - 1].path);
      VisitPrefixes(VisitDirs(b, dirs[..|dirs| - 1], ws, now, uuid), parts, |parts|, ws, now, uuid)
  }

  /** The inner loop adds exactly the prefixes of the path and keeps what was there. */
  lemma {:induction false} VisitPrefixesKeys(b: Build, parts: seq<string>, k: nat, ws: string, now: int,
                                             uuid: nat -> string, p: seq<string>)
    requires k <= |parts|
    ensures var r := VisitPrefixes(b, parts, k, ws, now, uuid);
            p in r.folderMap <==> p in b.folderMap || exists j :: 1 <= j <= k && p == parts[..j]
    ensures p in b.folderMap ==> p in VisitPrefixes(b, parts, k, ws, now, uuid).folderMap &&
                                 VisitPrefixes(b, parts, k, ws, now, uuid).folderMap[p] == b.folderMap[p]
  {
    if k > 0 {
      VisitPrefixesKeys(b, parts, k - 1, ws, now, uuid, p);
    }
  }

  /** The directory path prefixes of `dirs`: what `folder_map` ends up holding. */
  ghost predicate DirPrefix(p: seq<string>, dirs: seq<Entry>)
  {
    exists d, j :: d in dirs && 1 <= j <= |Parts(d.path)| && p == Parts(d.path)[..j]
  }

  /** `folder_map` ends up holding exactly the directory path prefixes, whatever the order of the entries. */
  lemma {:induction false} VisitDirsKeys(dirs: seq<Entry>, ws: string, now: int, uuid: nat -> string, p: seq<string>)
    ensures p in VisitDirs(Build(map[], [], 1), dirs, ws, now, uuid).folderMap <==> DirPrefix(p, dirs)
  {
    if dirs != [] {
      var front := dirs[..|dirs| - 1];
      var d := dirs[|dirs| - 1];
      var parts := Parts(d.path);
      VisitDirsKeys(front, ws, now, uuid, p);
      VisitPrefixesKeys(VisitDirs(Build(map[], [], 1), front, ws, now, uuid), parts, |parts|, ws, now, uuid, p);
      assert d in dirs;
      assert dirs == front + [d];
      if DirPrefix(p, front) {
        var d', j :| d' in front && 1 <= j <= |Parts(d'.path)| && p == Parts(d'.path)[..j];
        assert d' in dirs;
      }
    }
  }

  /**
   * `p` is a key of `fm`. The two invariants below quantify over this term
   * rather than over `p in fm`: the prefix they mention is itself a key, and a
   * trigger on membership would chase prefixes of prefixes without end.
   */
  predicate Keyed(fm: map<seq<string>, string>, p: seq<string>)
  {
    p in fm
  }

  /** Every key of the map is a non-empty path whose shorter prefixes are keys too. */
  ghost predicate PrefixClosed(fm: map<seq<string>, string>)
  {
    forall p {:trigger Keyed(fm, p)} :: Keyed(fm, p) ==> |p| >= 1 && (|p| > 1 ==> p[..|p| - 1] in fm)
  }

  /** Every key's folder has been written, under the parent the map gives it. */
  ghost predicate Recorded(b: Build, ws: string, now: int)
    requires PrefixClosed(b.folderMap)
  {
    forall p {:trigger Keyed(b.folderMap, p)} :: Keyed(b.folderMap, p) ==>
      NewFolder(b.folderMap[p], p, b.folderMap, ws, now) in b.folders
  }

  lemma VisitKeepsClosed(b: Build, cur: seq<string>, ws: string, now: int, uuid: nat -> string)
    requires PrefixClosed(b.folderMap) && |cur| >= 1
    requires |cur| > 1 ==> cur[..|cur| - 1] in b.folderMap
    ensures PrefixClosed(Visit(b, cur, ws, now, uuid).folderMap)
    ensures |Visit(b, cur, ws, now, uuid).folders| - |b.folders| == |Visit(b, cur, ws, now, uuid).folderMap| - |b.folderMap|
  {
    var r := Visit(b, cur, ws, now, uuid);
    forall p | Keyed(r.folderMap, p) ensures |p| >= 1 && (|p| > 1 ==> p[..|p| - 1] in r.folderMap) {
      if p != cur {
        assert Keyed(b.folderMap, p);
      }
    }
    if cur !in b.folderMap {
      assert r.folderMap.Keys == b.folderMap.Keys + {cur};
    }
  }

  lemma VisitKeepsRecorded(b: Build, cur: seq<string>, ws: string, now: int, uuid: nat -> string)
    requires PrefixClosed(b.folderMap) && Recorded(b, ws, now) && |cur| >= 1
    requires |cur| > 1 ==> cur[..|cur| - 1] in b.folderMap
    ensures PrefixClosed(Visit(b, cur, ws, now, uuid).folderMap) && Recorded(Visit(b, cur, ws, now, uuid), ws, now)
  {
    VisitKeepsClosed(b, cur, ws, now, uuid);
    if cur !in b.folderMap {
      var r := Visit(b, cur, ws, now, uuid);
      forall p | Keyed(r.folderMap, p) ensures NewFolder(r.folderMap[p], p, r.folderMap, ws, now) in r.folders {
        assert Keyed(r.folderMap, p);
        if p != cur {
          assert Keyed(b.folderMap, p);
          assert ParentId(p, r.folderMap) == ParentId(p, b.folderMap);
          assert NewFolder(r.folderMap[p], p, r.folderMap, ws, now) in b.folders;
        } else {
          assert ParentId(cur, r.folderMap) == ParentId(cur, b.folderMap) by {
            if |cur| > 1 {
              assert |cur[..|cur| - 1]| != |cur|;
            }
          }
        }
      }
    }
  }

  lemma {:induction false} VisitPrefixesKeeps(b: Build, parts: seq<string>, k: nat, ws: string, now: int,
                                              uuid: nat -> string)
    requires PrefixClosed(b.folderMap) && Recorded(b, ws, now) && |b.folders| == |b.folderMap| && k <= |parts|
    ensures var r := VisitPrefixes(b, parts, k, ws, now, uuid);
            PrefixClosed(r.folderMap) && Recorded(r, ws, now) && |r.folders| == |r.folderMap|
  {
    if k > 0 {
      VisitPrefixesKeeps(b, parts, k - 1, ws, now, uuid);
      if k > 1 {
        VisitPrefixesKeys(b, parts, k - 1, ws, now, uuid, parts[..k - 1]);
      }
      VisitPrefixKeeps(VisitPrefixes(b, parts, k - 1, ws, now, uuid), parts, k, ws, now, uuid);
    }
  }

  /** Visiting the prefix `parts[..k]` once the shorter prefix has its folder keeps the invariants. */
  lemma VisitPrefixKeeps(mid: Build, parts: seq<string>, k: nat, ws: string, now: int, uuid: nat -> string)
    requires PrefixClosed(mid.folderMap) && Recorded(mid, ws, now) && |mid.folders| == |mid.folderMap|
    requires 0 < k <= |parts| && (k > 1 ==> parts[..k - 1] in mid.folderMap)
    ensures var r := Visit(mid, parts[..k], ws, now, uuid);
            PrefixClosed(r.folderMap) && Recorded(r, ws, now) && |r.folders| == |r.folderMap|
  {
    var cur := parts[..k];
    assert |cur| == k;
    if k > 1 {
      assert cur[..|cur| - 1] == parts[..k - 1];
    }
    VisitKeepsRecorded(mid, cur, ws, now, uuid);
    VisitKeepsClosed(mid, cur, ws, now, uuid);
  }

  lemma {:induction false} VisitDirsKeeps(dirs: seq<Entry>, ws: string, now: int, uuid: nat -> string)
    ensures var r := VisitDirs(Build(map[], [], 1), dirs, ws, now, uuid);
            PrefixClosed(r.folderMap) && Recorded(r, ws, now) && |r.folders| == |r.folderMap|
  {
    if dirs != [] {
      VisitDirsKeeps(dirs[..|dirs| - 1], ws, now, uuid);
      var parts := Parts(dirs[|dirs| - 1].path);
      VisitPrefixesKeeps(VisitDirs(Build(map[], [], 1), dirs[..|dirs| - 1], ws, now, uuid), parts, |parts|, ws, now, uuid);
    }
  }

  /** One more round of the inner loop visits the next prefix. */
  lemma VisitPrefixesNext(b: Build, parts: seq<string>, j: nat, ws: string, now: int, uuid: nat -> string)
    requires j < |parts|
    ensures VisitPrefixes(b, parts, j + 1, ws, now, uuid) ==
            Visit(VisitPrefixes(b, parts, j, ws, now, uuid), parts[..j + 1], ws, now, uuid)
  {
  }

  /** One round of the inner loop: reuse the folder of `cur`, or create it under `parentId`. */
  method AddPrefix(folderMap: map<seq<string>, string>, folders: seq<FolderRecord>, next: nat, cur: seq<string>,
                   parentId: Option<string>, ws: string, now: int, uuid: nat -> string)
    returns (folderMap': map<seq<string>, string>, folders': seq<FolderRecord>, next': nat, id: string)
    requires |cur| >= 1 && ParentId(cur, folderMap) == parentId
    ensures Build(folderMap', folders', next') == Visit(Build(folderMap, folders, next), cur, ws, now, uuid)
    ensures cur in folderMap' && id == folderMap'[cur]
  {
    if cur in folderMap {
      folderMap', folders', next', id := folderMap, folders, next, folderMap[cur];
    } else {
      id := uuid(next);
      folderMap' := folderMap[cur := id];
      folders' := folders + [FolderRecord(id, cur[|cur| - 1], parentId, ws, now, now, 1, None, false)];
      next' := next + 1;
    }
  }

  /** The inner loop of the folder pass: every prefix of one directory path. */
  method AddPath(b: Build, parts: seq<string>, ws: string, now: int, uuid: nat -> string) returns (r: Build)
    ensures r == VisitPrefixes(b, parts, |parts|, ws, now, uuid)
  {
    var folderMap, folders, next := b.folderMap, b.folders, b.next;
    var parentId: Option<string> := None;
    var j := 0;
    while j < |parts|
      invariant 0 <= j <= |parts|
      invariant Build(folderMap, folders, next) == VisitPrefixes(b, parts, j, ws, now, uuid)
      invariant j > 0 ==> parts[..j] in folderMap && parentId == Some(folderMap[parts[..j]])
      invariant j == 0 ==> parentId.None?
    {
      var cur := parts[..j + 1];
      VisitPrefixesNext(b, parts, j, ws, now, uuid);
      assert ParentId(cur, folderMap) == parentId by {
        if j > 0 {
          assert cur[..|cur| - 1] == parts[..j];
        }
      }
      var id;
      folderMap, folders, next, id := AddPrefix(folderMap, folders, next, cur, parentId, ws, now, uuid);
      parentId := Some(id);
      j := j + 1;
    }
    r := Build(folderMap, folders, next);
  }

  /** The folder pass: the outer loop over the sorted directory entries. */
  method CreateFolders(dirs: seq<Entry>, ws: string, now: int, uuid: nat -> string, start: nat) returns (r: Build)
    ensures r == VisitDirs(Build(map[], [], start), dirs, ws, now, uuid)
  {
    r := Build(map[], [], start);
    var i := 0;
    while i < |dirs|
      invariant 0 <= i <= |dirs|
      invariant r == VisitDirs(Build(map[], [], start), dirs[..i], ws, now, uuid)
    {
      assert dirs[..i + 1][..i] == dirs[..i];
      r := AddPath(r, Parts(dirs[i].path), ws, now, uuid);
      i := i + 1;
    }
    assert dirs[..i] == dirs;
  }

  // ---------------------------------------------------------------------
  // Notes
  // ---------------------------------------------------------------------

  /** The title: the file name without any number of trailing `.md`, or "Untitled" if nothing is left. */
  function NoteTitle(name: string): (t: string)
    ensures t != ""
    ensures TrimEndMatches(name, ".md") != "" ==> t == TrimEndMatches(name, ".md")
  {
    var stem := TrimEndMatches(name, ".md");
    if stem == "" then UntitledNote else stem
  }

  /** The folder of a file: the one made for its directory path, none at the top level or without one. */
  function NoteFolder(path: string, fm: map<seq<string>, string>): (r: Option<string>)
    ensures r.Some? <==> |Parts(path)| > 1 && Parts(path)[..|Parts(path)| - 1] in fm
  {
    var parts := Parts(path);
    if |parts| > 1 && parts[..|parts| - 1] in fm then Some(fm[parts[..|parts| - 1]]) else None
  }

  function NoteOf(e: Entry, id: string, fm: map<seq<string>, string>, ws: string, now: int): NoteRecord
    requires e.content.Some?
  {
    NoteRecord(id, NoteTitle(e.name), e.content.value, NoteFolder(e.path, fm), ws, now, now, 1, false)
  }

  /** The note pass over the file entries, drawing ids from `next` on. */
  function NotesOf(files: seq<Entry>, fm: map<seq<string>, string>, ws: string, now: int, uuid: nat -> string,
                   next: nat): (r: seq<NoteRecord>)
    requires forall k :: 0 <= k < |files| ==> files[k].content.Some?
    ensures |r| == |files|
    ensures forall k :: 0 <= k < |r| ==> r[k] == NoteOf(files[k], uuid(next + k), fm, ws, now)
  {
    seq(|files|, k requires 0 <= k < |files| => NoteOf(files[k], uuid(next + k), fm, ws, now))
  }

  /** One more round of the note loop appends the note for the next file. */
  lemma NotesOfNext(files: seq<Entry>, i: nat, fm: map<seq<string>, string>, ws: string, now: int, uuid: nat -> string,
                    start: nat)
    requires i < |files|
    requires forall k :: 0 <= k < |files| ==> files[k].content.Some?
    ensures NotesOf(files[..i + 1], fm, ws, now, uuid, start) ==
            NotesOf(files[..i], fm, ws, now, uuid, start) + [NoteOf(files[i], uuid(start + i), fm, ws, now)]
  {
    var l := NotesOf(files[..i + 1], fm, ws, now, uuid, start);
    var r := NotesOf(files[..i], fm, ws, now, uuid, start) + [NoteOf(files[i], uuid(start + i), fm, ws, now)];
    assert forall k :: 0 <= k < |l| ==> l[k] == r[k];
  }

  /** One round of the note loop: the title, the folder looked up by directory path, the record. */
  method CreateNote(entry: Entry, fm: map<seq<string>, string>, ws: string, now: int, id: string)
    returns (note: NoteRecord)
    requires entry.content.Some?
    ensures note == NoteOf(entry, id, fm, ws, now)
  {
    var parts := Parts(entry.path);
    var filename := TrimEndMatches(entry.name, ".md");
    var title := if filename == "" then UntitledNote else filename;
    var folderId := None;
    if |parts| > 1 {
      var folderPath := parts[..|parts| - 1];
      if folderPath in fm {
        folderId := Some(fm[folderPath]);
      }
    }
    note := NoteRecord(id, title, entry.content.value, folderId, ws, now, now, 1, false);
  }

  method CreateNotes(files: seq<Entry>, fm: map<seq<string>, string>, ws: string, now: int, uuid: nat -> string,
                     start: nat) returns (notes: seq<NoteRecord>, next: nat)
    requires forall k :: 0 <= k < |files| ==> !files[k].isDir && files[k].content.Some?
    ensures notes == NotesOf(files, fm, ws, now, uuid, start) && next == start + |files|
  {
    notes, next := [], start;
    var i := 0;
    while i < |files|
      invariant 0 <= i <= |files| && next == start + i
      invariant notes == NotesOf(files[..i], fm, ws, now, uuid, start)
    {
      var note := CreateNote(files[i], fm, ws, now, uuid(next));
      NotesOfNext(files, i, fm, ws, now, uuid, start);
      notes := notes + [note];
      next := next + 1;
      i := i + 1;
    }
    assert files[..i] == files;
  }

  // ---------------------------------------------------------------------
  // The whole import
  // ---------------------------------------------------------------------

  function WorkspaceOf(id: string, workspaceName: Option<string>, zipStem: Option<string>, now: int): (w: WorkspaceRecord)
    ensures w.name == if workspaceName.Some? then workspaceName.value
                      else if zipStem.Some? then zipStem.value else DefaultWorkspaceName
    ensures w.color == WorkspaceColor && w.createdAt == now && w.updatedAt == now && w.version == 1 && !w.isDeleted
  {
    WorkspaceRecord(id, workspaceName.GetOr(zipStem.GetOr(DefaultWorkspaceName)), WorkspaceColor, now, now, 1, false)
  }
  function FolderPuts(folders: seq<FolderRecord>): (r: seq<Write>)
    ensures |r| == |folders| && forall k :: 0 <= k < |r| ==> r[k] == PutFolder(folders[k])
  {
    if folders == [] then [] else FolderPuts(folders[..|folders| - 1]) + [PutFolder(folders[|folders| - 1])]
  }

  function NotePuts(notes: seq<NoteRecord>): (r: seq<Write>)
    ensures |r| == |notes| && forall k :: 0 <= k < |r| ==> r[k] == PutNote(notes[k])
  {
    if notes == [] then [] else NotePuts(notes[..|notes| - 1]) + [PutNote(notes[|notes| - 1])]
  }

  /** The records the import writes, in order, and the new workspace id; or the error. */
  function ImportSpec(files: seq<ZipFile>, workspaceName: Option<string>, zipStem: Option<string>, now: int,
                      uuid: nat -> string): Result<(string, seq<Write>), ImportError>
  {
    match Extract(files)
    case Err(e) => Err(e)
    case Ok(entries) =>
      match Validation(entries)
      case Some(e) => Err(e)
      case None => Ok((uuid(0), ImportWrites(entries, workspaceName, zipStem, now, uuid)))
  }

  /** What a valid archive writes: the workspace, then the folders in creation order, then the notes. */
  function ImportWrites(entries: seq<Entry>, workspaceName: Option<string>, zipStem: Option<string>, now: int,
                        uuid: nat -> string): seq<Write>
    requires forall k :: 0 <= k < |entries| ==> entries[k].isDir || entries[k].content.Some?
  {
    var ws := uuid(0);
    var b := VisitDirs(Build(map[], [], 1), SortByDepth(Dirs(entries)), ws, now, uuid);
    var notes := NotesOf(Files(entries), b.folderMap, ws, now, uuid, b.next);
    [PutWorkspace(WorkspaceOf(ws, workspaceName, zipStem, now))] + FolderPuts(b.folders) + NotePuts(notes)
  }

  /** import_workspace_logic, as the sequence of calls the source makes. */
  method ImportWorkspace(files: seq<ZipFile>, workspaceName: Option<string>, zipStem: Option<string>, now: int,
                         uuid: nat -> string) returns (r: Result<(string, seq<Write>), ImportError>)
    ensures r == ImportSpec(files, workspaceName, zipStem, now, uuid)
  {
    var read := ReadEntries(files);
    if read.Err? {
      return Err(read.error);
    }
    var entries := read.value;
    var err := CheckEntries(entries);
    if err.Some? {
      return Err(err.value);
    }
    var ws := uuid(0);
    var writes := [PutWorkspace(WorkspaceOf(ws, workspaceName, zipStem, now))];
    var b := CreateFolders(SortByDepth(Dirs(entries)), ws, now, uuid, 1);
    writes := AppendFolders(writes, b.folders);
    var notes, _ := CreateNotes(Files(entries), b.folderMap, ws, now, uuid, b.next);
    writes := AppendNotes(writes, notes);
    return Ok((ws, writes));
  }

  /** The loop writing the folders, in creation order. */
  method AppendFolders(writes: seq<Write>, folders: seq<FolderRecord>) returns (r: seq<Write>)
    ensures r == writes + FolderPuts(folders)
  {
    r := writes;
    var k := 0;
    while k < |folders|
      invariant 0 <= k <= |folders| && r == writes + FolderPuts(folders[..k])
    {
      assert folders[..k + 1][..k] == folders[..k];
      r := r + [PutFolder(folders[k])];
      k := k + 1;
    }
    assert folders[..k] == folders;
  }

  /** The loop writing the notes, in the order of the files. */
  method AppendNotes(writes: seq<Write>, notes: seq<NoteRecord>) returns (r: seq<Write>)
    ensures r == writes + NotePuts(notes)
  {
    r := writes;
    var k := 0;
    while k < |notes|
      invariant 0 <= k <= |notes| && r == writes + NotePuts(notes[..k])
    {
      assert notes[..k + 1][..k] == notes[..k];
      r := r + [PutNote(notes[k])];
      k := k + 1;
    }
    assert notes[..k] == notes;
  }

  // ---------------------------------------------------------------------
  // Properties of the import
  // ---------------------------------------------------------------------

  /**
   * Every directory path prefix has a folder named after its last component,
   * whose parent is the folder of the prefix one shorter (none at the top);
   * there is one folder per prefix.
   */
  lemma FolderTree(dirs: seq<Entry>, ws: string, now: int, uuid: nat -> string, p: seq<string>)
    requires DirPrefix(p, dirs)
    ensures var b := VisitDirs(Build(map[], [], 1), dirs, ws, now, uuid);
            && p in b.folderMap && |p| >= 1
            && (|p| > 1 ==> p[..|p| - 1] in b.folderMap)
            && FolderRecord(b.folderMap[p], p[|p| - 1],
                            if |p| == 1 then None else Some(b.folderMap[p[..|p| - 1]]),
                            ws, now, now, 1, None, false) in b.folders
            && |b.folders| == |b.folderMap|
  {
    var b := VisitDirs(Build(map[], [], 1), dirs, ws, now, uuid);
    VisitDirsKeys(dirs, ws, now, uuid, p);
    VisitDirsKeeps(dirs, ws, now, uuid);
    assert Keyed(b.folderMap, p);
    assert NewFolder(b.folderMap[p], p, b.folderMap, ws, now) in b.folders;
  }

  /** A file sits in a folder exactly when a directory entry made its directory path. */
  lemma NotePlacement(e: Entry, dirs: seq<Entry>, ws: string, now: int, uuid: nat -> string)
    ensures var b := VisitDirs(Build(map[], [], 1), dirs, ws, now, uuid);
            var parts := Parts(e.path);
            NoteFolder(e.path, b.folderMap).Some? <==> |parts| > 1 && DirPrefix(parts[..|parts| - 1], dirs)
  {
    var parts := Parts(e.path);
    if |parts| > 1 {
      VisitDirsKeys(dirs, ws, now, uuid, parts[..|parts| - 1]);
    }
  }

  /** Members that are neither marked nor named as directories read as file entries only. */
  lemma {:induction false} ExtractFlat(files: seq<ZipFile>)
    requires forall k :: 0 <= k < |files| ==> !files[k].isDir && !EndsWith(files[k].name, "/")
    requires Extract(files).Ok?
    ensures Dirs(Extract(files).value) == []
  {
    if files != [] {
      ExtractFlat(files[..|files| - 1]);
      var es := Extract(files[..|files| - 1]).value;
      match EntryOf(files[|files| - 1])
      case Ok(None) =>
      case Ok(Some(e)) =>
        DirsSnoc(es, e);
    }
  }

  lemma {:induction false} DirsSnoc(es: seq<Entry>, e: Entry)
    ensures Dirs(es + [e]) == Dirs(es) + (if e.isDir then [e] else [])
  {
    if es != [] {
      assert (es + [e])[1..] == es[1..] + [e];
      DirsSnoc(es[1..], e);
    }
  }

  /** An archive without directory entries gives a flat workspace: no folder, every note at the top level. */
  lemma FlatArchive(files: seq<ZipFile>, workspaceName: Option<string>, zipStem: Option<string>, now: int,
                    uuid: nat -> string)
    requires forall k :: 0 <= k < |files| ==> !files[k].isDir && !EndsWith(files[k].name, "/")
    requires ImportSpec(files, workspaceName, zipStem, now, uuid).Ok?
    ensures var writes := ImportSpec(files, workspaceName, zipStem, now, uuid).value.1;
            forall k :: 0 <= k < |writes| ==> !writes[k].PutFolder? && (writes[k].PutNote? ==> writes[k].note.folderId.None?)
  {
    ExtractFlat(files);
    FlatWrites(Extract(files).value, workspaceName, zipStem, now, uuid);
  }

  lemma FlatWrites(entries: seq<Entry>, workspaceName: Option<string>, zipStem: Option<string>, now: int,
                   uuid: nat -> string)
    requires forall k :: 0 <= k < |entries| ==> entries[k].isDir || entries[k].content.Some?
    requires Dirs(entries) == []
    ensures var writes := ImportWrites(entries, workspaceName, zipStem, now, uuid);
            forall k :: 0 <= k < |writes| ==> !writes[k].PutFolder? && (writes[k].PutNote? ==> writes[k].note.folderId.None?)
  {
    var notes := NotesOf(Files(entries), map[], uuid(0), now, uuid, 1);
    FlatPlan(entries, workspaceName, zipStem, now, uuid);
    RootNotes(Files(entries), uuid(0), now, uuid, 1);
    RootPuts(PutWorkspace(WorkspaceOf(uuid(0), workspaceName, zipStem, now)), notes);
  }

  /** Without directory entries the folder pass writes nothing and leaves the map empty. */
  lemma FlatPlan(entries: seq<Entry>, workspaceName: Option<string>, zipStem: Option<string>, now: int,
                 uuid: nat -> string)
    requires forall k :: 0 <= k < |entries| ==> entries[k].isDir || entries[k].content.Some?
    requires Dirs(entries) == []
    ensures ImportWrites(entries, workspaceName, zipStem, now, uuid) ==
            [PutWorkspace(WorkspaceOf(uuid(0), workspaceName, zipStem, now))] + [] +
            NotePuts(NotesOf(Files(entries), map[], uuid(0), now, uuid, 1))
  {
    assert VisitDirs(Build(map[], [], 1), SortByDepth(Dirs(entries)), uuid(0), now, uuid) == Build(map[], [], 1);
    assert FolderPuts([]) == [];
  }

  /** With an empty folder map every note lands at the top level. */
  lemma RootNotes(files: seq<Entry>, ws: string, now: int, uuid: nat -> string, next: nat)
    requires forall k :: 0 <= k < |files| ==> files[k].content.Some?
    ensures var notes := NotesOf(files, map[], ws, now, uuid, next);
            forall k :: 0 <= k < |notes| ==> notes[k].folderId.None?
  {
  }

  /** The workspace followed by notes that all sit at the top level. */
  lemma RootPuts(w: Write, notes: seq<NoteRecord>)
    requires w.PutWorkspace?
    requires forall k :: 0 <= k < |notes| ==> notes[k].folderId.None?
    ensures var writes := [w] + [] + NotePuts(notes);
            forall k :: 0 <= k < |writes| ==> !writes[k].PutFolder? && (writes[k].PutNote? ==> writes[k].note.folderId.None?)
  {
    var writes := [w] + [] + NotePuts(notes);
    assert forall k :: 1 <= k < |writes| ==> writes[k] == NotePuts(notes)[k - 1];
  }
}
