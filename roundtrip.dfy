/**
 * Exporting a workspace and importing the archive again
 * (src-tauri/src/exporter.rs, src-tauri/src/importer.rs).  The exporter
 * writes one file member per note and no directory member; the importer
 * builds folders only from directory members.  So the round trip brings
 * every note back, with its content, but at the top level of a new
 * workspace: the folder tree is lost.
 */
module RoundTrip {
  import opened Util
  import Exporter
  import Importer

  /** The members of the written archive as the importer reads them: plain files, all readable. */
  function Members(items: seq<Exporter.ZipItem>): (r: seq<Importer.ZipFile>)
    ensures |r| == |items|
    ensures forall k :: 0 <= k < |r| ==> r[k] == Importer.ZipFile(items[k].path, false, Some(items[k].content))
  {
    seq(|items|, k requires 0 <= k < |items| => Importer.ZipFile(items[k].path, false, Some(items[k].content)))
  }

  /** The entry the importer makes of an exported file. */
  function EntryOfItem(item: Exporter.ZipItem): Importer.Entry
  {
    Importer.Entry(Importer.FileName(item.path), TrimEndMatches(item.path, "/"), false, Some(item.content))
  }

  /** The entries of the exported files, in order. */
  function ItemEntries(items: seq<Exporter.ZipItem>): (r: seq<Importer.Entry>)
    ensures |r| == |items|
    ensures forall k :: 0 <= k < |r| ==> r[k] == EntryOfItem(items[k]) && !r[k].isDir && r[k].content.Some?
  {
    seq(|items|, k requires 0 <= k < |items| => EntryOfItem(items[k]))
  }

  lemma SuffixAfter(a: string, f: string, suffix: string)
    requires EndsWith(f, suffix)
    ensures EndsWith(a + f, suffix)
  {
    assert (a + f)[|a + f| - |suffix|..] == f[|f| - |suffix|..];
  }

  /** Every exported path names a Markdown file, never a directory. */
  lemma ExportedPath(ws: string, notes: seq<Exporter.LocalDb.NoteRecord>, folders: seq<Exporter.LocalDb.FolderRecord>,
                     item: Exporter.ZipItem)
    requires Exporter.Keyed(Exporter.WorkspaceFolders(folders, ws))
    requires item in Exporter.ExportSpec(ws, notes, folders)
    ensures EndsWith(item.path, ".md") && !EndsWith(item.path, "/")
  {
    Exporter.ExportContents(ws, notes, folders, item);
    var n, chain :| n in notes && n.workspaceId == ws &&
                    Exporter.Linked(None, chain, n.folderId, Exporter.WorkspaceFolders(folders, ws)) &&
                    item == Exporter.TopItem(n, chain);
    var file := Exporter.NoteFileName(n.title);
    Exporter.NoteFileNameShape(n.title);
    var comps := Exporter.Components(chain);
    if comps == [] {
      assert [] + [file] == [file];
      assert item.path == file;
    } else {
      JoinSnoc(comps, file, '/');
      SuffixAfter(Join(comps, '/') + ['/'], file, ".md");
    }
    assert item.path[|item.path| - 1] == 'd';
  }

  /** Reading the members of such an archive gives one file entry per item, in order. */
  lemma {:induction false} ExtractItems(items: seq<Exporter.ZipItem>)
    requires forall k :: 0 <= k < |items| ==> EndsWith(items[k].path, ".md") && !EndsWith(items[k].path, "/")
    ensures Importer.Extract(Members(items)).Ok?
    ensures Importer.Extract(Members(items)).value == ItemEntries(items)
    decreases |items|
  {
    if items != [] {
      var n := |items| - 1;
      ExtractItems(items[..n]);
      MembersSnoc(items);
      EntryOfItemRead(items[n]);
      ItemEntriesSnoc(items);
      var files := Members(items);
      assert files[..n] == Members(items[..n]);
      assert files[n] == Importer.ZipFile(items[n].path, false, Some(items[n].content));
    }
  }

  lemma MembersSnoc(items: seq<Exporter.ZipItem>)
    requires items != []
    ensures Members(items)[..|items| - 1] == Members(items[..|items| - 1])
  {
  }

  lemma ItemEntriesSnoc(items: seq<Exporter.ZipItem>)
    requires items != []
    ensures ItemEntries(items[..|items| - 1]) + [EntryOfItem(items[|items| - 1])] == ItemEntries(items)
  {
  }

  /** An exported Markdown file is read as a file entry with its content. */
  lemma EntryOfItemRead(item: Exporter.ZipItem)
    requires EndsWith(item.path, ".md") && !EndsWith(item.path, "/")
    ensures Importer.EntryOf(Importer.ZipFile(item.path, false, Some(item.content))) == Ok(Some(EntryOfItem(item)))
  {
  }

  /** With no directory entry, the file entries are all the entries. */
  lemma {:induction false} AllFiles(entries: seq<Importer.Entry>)
    requires forall k :: 0 <= k < |entries| ==> !entries[k].isDir
    ensures Importer.Files(entries) == entries && Importer.Dirs(entries) == []
  {
    if entries != [] {
      AllFiles(entries[1..]);
      assert entries == [entries[0]] + entries[1..];
    }
  }

  /**
   * The writes of an import that brings back `items` flat: the workspace
   * `w`, then per item, in order, a note with the item's content, the title
   * taken from its file name, and no folder.
   */
  predicate FlatImport(items: seq<Exporter.ZipItem>, writes: seq<Importer.Write>, w: Importer.WorkspaceRecord)
  {
    |writes| == 1 + |items| && writes[0] == Importer.PutWorkspace(w) &&
    forall k :: 0 <= k < |items| ==>
      writes[k + 1].PutNote? &&
      writes[k + 1].note.content == items[k].content &&
      writes[k + 1].note.title == Importer.NoteTitle(Importer.FileName(items[k].path)) &&
      writes[k + 1].note.folderId.None?
  }

  /**
   * Importing an exported archive succeeds exactly when the workspace had a
   * note; it then writes the new workspace and one note per exported note,
   * in order, each with the exported content, the title taken from its file
   * name, and no folder.
   */
  lemma ExportThenImport(ws: string, notes: seq<Exporter.LocalDb.NoteRecord>,
                         folders: seq<Exporter.LocalDb.FolderRecord>,
                         workspaceName: Option<string>, zipStem: Option<string>, now: int, uuid: nat -> string)
    requires Exporter.Keyed(Exporter.WorkspaceFolders(folders, ws))
    ensures var items := Exporter.ExportSpec(ws, notes, folders);
            var r := Importer.ImportSpec(Members(items), workspaceName, zipStem, now, uuid);
            (r.Ok? <==> items != []) &&
            (r.Ok? ==> FlatImport(items, r.value.1, Importer.WorkspaceOf(uuid(0), workspaceName, zipStem, now)))
  {
    var items := Exporter.ExportSpec(ws, notes, folders);
    forall k | 0 <= k < |items| ensures EndsWith(items[k].path, ".md") && !EndsWith(items[k].path, "/") {
      ExportedPath(ws, notes, folders, items[k]);
    }
    ImportOfItems(items, workspaceName, zipStem, now, uuid);
    if items != [] {
      ItemWrites(items, workspaceName, zipStem, now, uuid);
    }
  }

  /** The import of such an archive succeeds exactly when it has a member, and then writes what its entries give. */
  lemma ImportOfItems(items: seq<Exporter.ZipItem>, workspaceName: Option<string>, zipStem: Option<string>, now: int,
                      uuid: nat -> string)
    requires forall k :: 0 <= k < |items| ==> EndsWith(items[k].path, ".md") && !EndsWith(items[k].path, "/")
    ensures var r := Importer.ImportSpec(Members(items), workspaceName, zipStem, now, uuid);
            (r.Ok? <==> items != []) &&
            (r.Ok? ==> r.value.1 == Importer.ImportWrites(ItemEntries(items), workspaceName, zipStem, now, uuid))
  {
    ExtractItems(items);
    ValidItems(items);
  }

  /** The entries of exported files pass both checks, unless there are none. */
  lemma ValidItems(items: seq<Exporter.ZipItem>)
    ensures Importer.Validation(ItemEntries(items)) == if items == [] then Some(Importer.NothingToImport) else None
  {
    var entries := ItemEntries(items);
    if items != [] {
      assert Importer.HasMarkdown(entries) by {
        assert !entries[0].isDir && entries[0].content.Some?;
      }
      assert Importer.FirstNonMarkdown(entries).None?;
    } else {
      assert !Importer.HasMarkdown(entries) && !Importer.HasFolders(entries);
    }
  }

  /** Those writes: the workspace, then one top-level note per item with the item's content and file name. */
  lemma ItemWrites(items: seq<Exporter.ZipItem>, workspaceName: Option<string>, zipStem: Option<string>, now: int,
                   uuid: nat -> string)
    ensures FlatImport(items, Importer.ImportWrites(ItemEntries(items), workspaceName, zipStem, now, uuid),
                       Importer.WorkspaceOf(uuid(0), workspaceName, zipStem, now))
  {
    var entries := ItemEntries(items);
    AllFiles(entries);
    ImportedNotes(entries, workspaceName, zipStem, now, uuid);
  }

  /** What the import writes for flat, readable entries. */
  lemma ImportedNotes(entries: seq<Importer.Entry>, workspaceName: Option<string>, zipStem: Option<string>, now: int,
                      uuid: nat -> string)
    requires forall k :: 0 <= k < |entries| ==> !entries[k].isDir && entries[k].content.Some?
    requires Importer.Files(entries) == entries && Importer.Dirs(entries) == []
    ensures var writes := Importer.ImportWrites(entries, workspaceName, zipStem, now, uuid);
            |writes| == 1 + |entries| &&
            writes[0] == Importer.PutWorkspace(Importer.WorkspaceOf(uuid(0), workspaceName, zipStem, now)) &&
            forall k :: 0 <= k < |entries| ==>
              writes[k + 1] == Importer.PutNote(Importer.NoteOf(entries[k], uuid(1 + k), map[], uuid(0), now))
  {
    var w := Importer.PutWorkspace(Importer.WorkspaceOf(uuid(0), workspaceName, zipStem, now));
    var ns := Importer.NotesOf(entries, map[], uuid(0), now, uuid, 1);
    Importer.FlatPlan(entries, workspaceName, zipStem, now, uuid);
    assert Importer.ImportWrites(entries, workspaceName, zipStem, now, uuid) == [w] + [] + Importer.NotePuts(ns);
    PutsAfter(w, ns);
  }

  /** The writes of a flat import: the workspace, then one per note. */
  lemma PutsAfter(w: Importer.Write, ns: seq<Importer.NoteRecord>)
    ensures var writes := [w] + [] + Importer.NotePuts(ns);
            |writes| == 1 + |ns| && writes[0] == w && forall k :: 0 <= k < |ns| ==> writes[k + 1] == Importer.PutNote(ns[k])
  {
    var puts := Importer.NotePuts(ns);
    var writes := [w] + [] + puts;
    forall k | 0 <= k < |ns| ensures writes[k + 1] == Importer.PutNote(ns[k]) {
      assert writes[k + 1] == puts[k];
    }
  }
}
