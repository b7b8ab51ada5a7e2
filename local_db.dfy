/**
 * The desktop app's local record store (src-tauri/src/db.rs, `Db`): the
 * notes and folders tables as maps from id to record, their upserts (refused
 * by the foreign keys when a folder or parent is missing) and deletes, and
 * the full-text query string built for search.
 */
module LocalDb {
  import opened Util

  datatype NoteRecord = NoteRecord(
    id: string,
    title: string,
    content: string,
    folderId: Option<string>,
    workspaceId: string,
    createdAt: int,
    updatedAt: int)

  datatype FolderRecord = FolderRecord(
    id: string,
    name: string,
    parentId: Option<string>,
    workspaceId: string,
    createdAt: int,
    color: Option<string>)

  datatype SearchResult = SearchResult(id: string, title: string, snippet: string)

  /** `LIMIT 20` of the search query. */
  const SearchLimit: nat := 20

  /** Every row is stored under its own id (the primary key). */
  predicate NotesKeyed(t: map<string, NoteRecord>)
  {
    forall id :: id in t ==> t[id].id == id
  }

  predicate FoldersKeyed(t: map<string, FolderRecord>)
  {
    forall id :: id in t ==> t[id].id == id
  }

  /**
   * upsert_note: a new id is inserted as given; an existing row takes every
   * column of the record except `created_at`, whatever the timestamps.
   */
  function NoteUpserted(t: map<string, NoteRecord>, n: NoteRecord): (u: map<string, NoteRecord>)
    ensures u.Keys == t.Keys + {n.id}
    ensures forall id :: id in t && id != n.id ==> u[id] == t[id]
    ensures n.id !in t ==> u[n.id] == n
    ensures n.id in t ==> u[n.id] == n.(createdAt := t[n.id].createdAt)
    ensures NotesKeyed(t) ==> NotesKeyed(u)
  {
    if n.id in t then t[n.id := n.(createdAt := t[n.id].createdAt)] else t[n.id := n]
  }

  /** upsert_folder: the same for folders, where the colour is overwritten too. */
  function FolderUpserted(t: map<string, FolderRecord>, f: FolderRecord): (u: map<string, FolderRecord>)
    ensures u.Keys == t.Keys + {f.id}
    ensures forall id :: id in t && id != f.id ==> u[id] == t[id]
    ensures f.id !in t ==> u[f.id] == f
    ensures f.id in t ==> u[f.id] == f.(createdAt := t[f.id].createdAt)
    ensures FoldersKeyed(t) ==> FoldersKeyed(u)
  {
    if f.id in t then t[f.id := f.(createdAt := t[f.id].createdAt)] else t[f.id := f]
  }

  /**
   * The foreign key `folder_id REFERENCES folders(id)`: a note outside any
   * folder, or in a stored folder.
   */
  predicate FolderOf(folders: map<string, FolderRecord>, n: NoteRecord)
  {
    n.folderId.None? || n.folderId.value in folders
  }

  /**
   * The foreign key `parent_id REFERENCES folders(id)`, checked once the row
   * is written: no parent, a stored parent, or the folder itself.
   */
  predicate ParentOf(folders: map<string, FolderRecord>, f: FolderRecord)
  {
    f.parentId.None? || f.parentId.value in folders || f.parentId.value == f.id
  }

  /** The rows `SELECT * FROM notes` returns, as a set since the query has no order. */
  function AllNotes(t: map<string, NoteRecord>): (s: set<NoteRecord>)
    requires NotesKeyed(t)
    ensures forall n :: n in s <==> n.id in t && t[n.id] == n
  {
    set id | id in t :: t[id]
  }

  function AllFolders(t: map<string, FolderRecord>): (s: set<FolderRecord>)
    requires FoldersKeyed(t)
    ensures forall f :: f in s <==> f.id in t && t[f.id] == f
  {
    set id | id in t :: t[id]
  }

  /** An older record still overwrites a newer stored one: the local upsert compares no timestamps. */
  lemma OlderNoteOverwrites(t: map<string, NoteRecord>, n: NoteRecord)
    requires n.id in t && n.updatedAt < t[n.id].updatedAt
    ensures NoteUpserted(t, n)[n.id].updatedAt == n.updatedAt
    ensures NoteUpserted(t, n)[n.id].title == n.title && NoteUpserted(t, n)[n.id].content == n.content
  {
  }

  /** Upserting a note and then deleting it gives back the table without that id. */
  lemma UpsertThenDelete(t: map<string, NoteRecord>, n: NoteRecord)
    ensures NoteUpserted(t, n) - {n.id} == t - {n.id}
    ensures n.id !in t ==> NoteUpserted(t, n) - {n.id} == t
  {
  }

  /** Upserting the same record twice is the same as once. */
  lemma NoteUpsertIdempotent(t: map<string, NoteRecord>, n: NoteRecord)
    ensures NoteUpserted(NoteUpserted(t, n), n) == NoteUpserted(t, n)
  {
  }

  // ---------------------------------------------------------------------
  // Search query string
  // ---------------------------------------------------------------------

  /** `replace("\"", "\"\"")`: every double quote doubled. */
  function DoubleQuotes(s: string): (r: string)
    ensures |r| == |s| + multiset(s)['"']
    ensures forall c :: c != '"' ==> multiset(r)[c] == multiset(s)[c]
  {
    if s == [] then []
    else
      assert s == [s[0]] + s[1..];
      (if s[0] == '"' then "\"\"" else [s[0]]) + DoubleQuotes(s[1..])
  }

  /** Reads a doubled-quote string back: `""` becomes `"`. */
  function UndoubleQuotes(s: string): string
  {
    if |s| >= 2 && s[0] == '"' && s[1] == '"' then "\"" + UndoubleQuotes(s[2..])
    else if s == [] then []
    else [s[0]] + UndoubleQuotes(s[1..])
  }

  /** The escaping is lossless: undoubling gives back the user's text. */
  lemma {:induction false} DoubleQuotesRoundTrip(s: string)
    ensures UndoubleQuotes(DoubleQuotes(s)) == s
  {
    if s != [] {
      DoubleQuotesRoundTrip(s[1..]);
      var rest := DoubleQuotes(s[1..]);
      if s[0] == '"' {
        assert DoubleQuotes(s) == "\"\"" + rest;
        assert ("\"\"" + rest)[2..] == rest;
      } else {
        assert DoubleQuotes(s) == [s[0]] + rest;
        assert ([s[0]] + rest)[1..] == rest;
      }
      assert [s[0]] + s[1..] == s;
    }
  }

  /** The text handed to `MATCH`: the escaped query with `*` appended for prefix matching. */
  function FtsQuery(query: string): (q: string)
    ensures |q| == |query| + multiset(query)['"'] + 1
    ensures q[|q| - 1] == '*'
    ensures UndoubleQuotes(q[..|q| - 1]) == query
  {
    var body := DoubleQuotes(query);
    DoubleQuotesRoundTrip(query);
    assert (body + "*")[..|body|] == body;
    body + "*"
  }

  /** `LIMIT 20` over the matches in rank order, which the full-text engine supplies. */
  function Limited(ranked: seq<SearchResult>): (r: seq<SearchResult>)
    ensures |r| <= SearchLimit
    ensures |r| <= |ranked| && r == ranked[..|r|]
    ensures |ranked| <= SearchLimit ==> r == ranked
  {
    if |ranked| <= SearchLimit then ranked else ranked[..SearchLimit]
  }

  // ---------------------------------------------------------------------
  // The database
  // ---------------------------------------------------------------------

  class Db {
    var notes: map<string, NoteRecord>
    var folders: map<string, FolderRecord>

    predicate Valid()
      reads this
    {
      NotesKeyed(notes) && FoldersKeyed(folders)
    }

    constructor ()
      ensures Valid() && notes == map[] && folders == map[]
    {
      notes, folders := map[], map[];
    }

    method GetNotes() returns (r: set<NoteRecord>)
      requires Valid()
      ensures forall n :: n in r <==> n.id in notes && notes[n.id] == n
    {
      r := set id | id in notes :: notes[id];
    }

    method GetFolders() returns (r: set<FolderRecord>)
      requires Valid()
      ensures forall f :: f in r <==> f.id in folders && folders[f.id] == f
    {
      r := set id | id in folders :: folders[id];
    }

    /**
     * upsert_note.  The schema's foreign key on `folder_id` rejects a note
     * whose folder is not stored; the statement then fails and changes nothing.
     */
    method UpsertNote(note: NoteRecord) returns (ok: bool)
      requires Valid()
      modifies this`notes
      ensures ok <==> FolderOf(folders, note)
      ensures Valid() && notes == (if ok then NoteUpserted(old(notes), note) else old(notes))
    {
      ok := note.folderId.None? || note.folderId.value in folders;
      if ok {
        notes := NoteUpserted(notes, note);
      }
    }

    method DeleteNote(id: string)
      requires Valid()
      modifies this`notes
      ensures Valid() && notes == old(notes) - {id}
    {
      notes := notes - {id};
    }

    /**
     * upsert_folder.  The foreign key on `parent_id` rejects a parent that is
     * not stored; a folder may name itself, since the row is its own parent
     * once written.
     */
    method UpsertFolder(folder: FolderRecord) returns (ok: bool)
      requires Valid()
      modifies this`folders
      ensures ok <==> ParentOf(old(folders), folder)
      ensures Valid() && folders == (if ok then FolderUpserted(old(folders), folder) else old(folders))
    {
      ok := folder.parentId.None? || folder.parentId.value in folders || folder.parentId.value == folder.id;
      if ok {
        folders := FolderUpserted(folders, folder);
      }
    }

    /**
     * Removes the folder row.  In the program the schema's `ON DELETE CASCADE`
     * also removes the folder's subfolders and their notes; the model keeps them.
     */
    method DeleteFolder(id: string)
      requires Valid()
      modifies this`folders
      ensures Valid() && folders == old(folders) - {id}
    {
      folders := folders - {id};
    }

    /** search_notes, given the ranked matches of the engine for the query `FtsQuery(query)`. */
    method SearchNotes(query: string, ranked: seq<SearchResult>) returns (matchText: string, r: seq<SearchResult>)
      ensures matchText == FtsQuery(query)
      ensures |r| <= SearchLimit && r == Limited(ranked)
    {
      matchText := DoubleQuotes(query) + "*";
      r := Limited(ranked);
    }
  }

  /** After upserting a new note, reading the notes returns exactly that record among the others. */
  lemma UpsertThenGet(t: map<string, NoteRecord>, n: NoteRecord)
    requires NotesKeyed(t) && n.id !in t
    ensures AllNotes(NoteUpserted(t, n)) == AllNotes(t) + {n}
  {
  }
}
