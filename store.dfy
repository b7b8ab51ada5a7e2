/**
 * The front end's in-memory store (src/store/useStore.ts): the note and
 * folder lists, the active note and the view mode.  Every action replaces
 * one or more of those fields with a `map` or `filter` of the old value; the
 * list transforms are the functions below and the `AppStore` class applies them.
 * Fresh ids and the clock are passed in by the caller.
 */
module Store {
  import opened Util
  import opened Entities
  import opened SidebarTree

  const NewNoteTitle: string := "Ghi chú mới"

  const WelcomeTitle: string := "Chào mừng bạn đến với Lumenote"

  const WelcomeContent: string :=
    "# Chào mừng bạn đến với Lumenote\n\nĐây là ghi chú đầu tiên của bạn. Hãy thử viết gì đó nhé!\n\n"
    + "- **Calm**: Giao diện tối giản giúp bạn tập trung.\n- **Modern**: Sử dụng công nghệ mới nhất.\n"
    + "- **Markdown**: Định dạng văn bản nhanh chóng."

  // ---------------------------------------------------------------------
  // List transforms
  // ---------------------------------------------------------------------

  /** updateNoteContent: the notes with that id get the new content and time; nothing else changes. */
  function WithContent(notes: seq<Note>, id: string, content: string, now: int): (r: seq<Note>)
    ensures |r| == |notes|
    ensures forall i :: 0 <= i < |r| ==> r[i] == notes[i].(content := r[i].content, updatedAt := r[i].updatedAt)
    ensures forall i :: 0 <= i < |r| && notes[i].id == id ==> r[i].content == content && r[i].updatedAt == now
    ensures forall i :: 0 <= i < |r| && notes[i].id != id ==> r[i] == notes[i]
  {
    seq(|notes|, i requires 0 <= i < |notes| =>
      if notes[i].id == id then notes[i].(content := content, updatedAt := now) else notes[i])
  }

  /** The notes whose id differs from `id`, in their order. */
  function WithoutNote(notes: seq<Note>, id: string): (r: seq<Note>)
    ensures forall n :: n in r ==> n.id != id
    ensures |r| <= |notes|
  {
    if notes == [] then []
    else
      var rest := WithoutNote(notes[1..], id);
      assert notes == [notes[0]] + notes[1..];
      if notes[0].id != id then [notes[0]] + rest else rest
  }

  /** The folders whose id differs from `id`, in their order. */
  function WithoutFolder(folders: seq<Folder>, id: string): (r: seq<Folder>)
    ensures forall f :: f in r ==> f.id != id
    ensures |r| <= |folders|
  {
    if folders == [] then []
    else
      var rest := WithoutFolder(folders[1..], id);
      assert folders == [folders[0]] + folders[1..];
      if folders[0].id != id then [folders[0]] + rest else rest
  }

  /** The filter looks at the first note and goes on with the rest. */
  lemma WithoutNoteCons(x: Note, rest: seq<Note>, id: string)
    ensures WithoutNote([x] + rest, id) == (if x.id != id then [x] else []) + WithoutNote(rest, id)
  {
    assert ([x] + rest)[0] == x && ([x] + rest)[1..] == rest;
  }

  /** Every note whose id differs from `id` is kept, as many times as it occurs. */
  lemma {:induction false} WithoutNoteCounts(notes: seq<Note>, id: string, n: Note)
    requires n.id != id
    ensures multiset(WithoutNote(notes, id))[n] == multiset(notes)[n]
    decreases |notes|
  {
    if notes != [] {
      var x := notes[0];
      var tail := notes[1..];
      assert notes == [x] + tail;
      WithoutNoteCons(x, tail, id);
      WithoutNoteCounts(tail, id, n);
      var head := if x.id != id then [x] else [];
      assert multiset(WithoutNote(notes, id)) == multiset(head) + multiset(WithoutNote(tail, id));
      assert multiset(notes) == multiset([x]) + multiset(tail);
      assert multiset(head)[n] == multiset([x])[n];
    }
  }

  /** Removing a note keeps the others in their order: the filter goes element by element. */
  lemma {:induction false} WithoutNoteOrder(a: seq<Note>, b: seq<Note>, id: string)
    ensures WithoutNote(a + b, id) == WithoutNote(a, id) + WithoutNote(b, id)
    ensures |a| == 1 ==> WithoutNote(a, id) == if a[0].id == id then [] else a
    decreases |a|
  {
    if a == [] {
      assert a + b == b;
    } else {
      var x := a[0];
      var tail := a[1..];
      assert a == [x] + tail && a + b == [x] + (tail + b);
      WithoutNoteCons(x, tail + b, id);
      WithoutNoteCons(x, tail, id);
      WithoutNoteOrder(tail, b, id);
      var t := WithoutNote(tail, id);
      var u := WithoutNote(b, id);
      if x.id != id {
        assert WithoutNote(a + b, id) == [x] + (t + u);
        assert WithoutNote(a, id) == [x] + t;
        Util.AppendAssoc([x], t, u);
      } else {
        assert WithoutNote(a + b, id) == [] + (t + u) == t + u;
        assert WithoutNote(a, id) == [] + t == t;
      }
      if |a| == 1 {
        assert tail == [] && t == [];
      }
    }
  }

  /** The filter looks at the first folder and goes on with the rest. */
  lemma WithoutFolderCons(x: Folder, rest: seq<Folder>, id: string)
    ensures WithoutFolder([x] + rest, id) == (if x.id != id then [x] else []) + WithoutFolder(rest, id)
  {
    assert ([x] + rest)[0] == x && ([x] + rest)[1..] == rest;
  }

  /** Every folder whose id differs from `id` is kept, as many times as it occurs. */
  lemma {:induction false} WithoutFolderCounts(folders: seq<Folder>, id: string, f: Folder)
    requires f.id != id
    ensures multiset(WithoutFolder(folders, id))[f] == multiset(folders)[f]
    decreases |folders|
  {
    if folders != [] {
      var x := folders[0];
      var tail := folders[1..];
      assert folders == [x] + tail;
      WithoutFolderCons(x, tail, id);
      WithoutFolderCounts(tail, id, f);
      var head := if x.id != id then [x] else [];
      assert multiset(WithoutFolder(folders, id)) == multiset(head) + multiset(WithoutFolder(tail, id));
      assert multiset(folders) == multiset([x]) + multiset(tail);
      assert multiset(head)[f] == multiset([x])[f];
    }
  }

  /** Removing a folder keeps the others in their order: the filter goes element by element. */
  lemma {:induction false} WithoutFolderOrder(a: seq<Folder>, b: seq<Folder>, id: string)
    ensures WithoutFolder(a + b, id) == WithoutFolder(a, id) + WithoutFolder(b, id)
    ensures |a| == 1 ==> WithoutFolder(a, id) == if a[0].id == id then [] else a
    decreases |a|
  {
    if a == [] {
      assert a + b == b;
    } else {
      var x := a[0];
      var tail := a[1..];
      assert a == [x] + tail && a + b == [x] + (tail + b);
      WithoutFolderCons(x, tail + b, id);
      WithoutFolderCons(x, tail, id);
      WithoutFolderOrder(tail, b, id);
      var t := WithoutFolder(tail, id);
      var u := WithoutFolder(b, id);
      if x.id != id {
        assert WithoutFolder(a + b, id) == [x] + (t + u);
        assert WithoutFolder(a, id) == [x] + t;
        Util.AppendAssoc([x], t, u);
      } else {
        assert WithoutFolder(a + b, id) == [] + (t + u) == t + u;
        assert WithoutFolder(a, id) == [] + t == t;
      }
      if |a| == 1 {
        assert tail == [] && t == [];
      }
    }
  }

  /** deleteFolder's note update: notes filed directly in folder `id` move to the root. */
  function Unfiled(notes: seq<Note>, id: string): (r: seq<Note>)
    ensures |r| == |notes|
    ensures forall i :: 0 <= i < |r| ==> r[i] == notes[i].(folderId := r[i].folderId)
    ensures forall i :: 0 <= i < |r| ==> r[i].folderId == if notes[i].folderId == Id(id) then Null else notes[i].folderId
  {
    seq(|notes|, i requires 0 <= i < |notes| =>
      if notes[i].folderId == Id(id) then notes[i].(folderId := Null) else notes[i])
  }

  /** toggleFolder: `isExpanded` of the folders with that id becomes the negation of its truthiness. */
  function Toggled(folders: seq<Folder>, id: string): (r: seq<Folder>)
    ensures |r| == |folders|
    ensures forall i :: 0 <= i < |r| ==> r[i] == folders[i].(isExpanded := r[i].isExpanded)
    ensures forall i :: 0 <= i < |r| && folders[i].id == id ==> r[i].isExpanded == Some(!Expanded(folders[i]))
    ensures forall i :: 0 <= i < |r| && folders[i].id != id ==> r[i] == folders[i]
  {
    seq(|folders|, i requires 0 <= i < |folders| =>
      if folders[i].id == id then folders[i].(isExpanded := Some(!Expanded(folders[i]))) else folders[i])
  }

  /** renameNote: only the title of the notes with that id changes; `updatedAt` is left alone. */
  function Retitled(notes: seq<Note>, id: string, title: string): (r: seq<Note>)
    ensures |r| == |notes|
    ensures forall i :: 0 <= i < |r| ==> r[i] == notes[i].(title := r[i].title)
    ensures forall i :: 0 <= i < |r| ==> r[i].title == if notes[i].id == id then title else notes[i].title
  {
    seq(|notes|, i requires 0 <= i < |notes| => if notes[i].id == id then notes[i].(title := title) else notes[i])
  }

  /** renameFolder: only the name of the folders with that id changes. */
  function Renamed(folders: seq<Folder>, id: string, name: string): (r: seq<Folder>)
    ensures |r| == |folders|
    ensures forall i :: 0 <= i < |r| ==> r[i] == folders[i].(name := r[i].name)
    ensures forall i :: 0 <= i < |r| ==> r[i].name == if folders[i].id == id then name else folders[i].name
  {
    seq(|folders|, i requires 0 <= i < |folders| => if folders[i].id == id then folders[i].(name := name) else folders[i])
  }

  /** A missing or null optional id argument becomes `null`. */
  function NullIfNone(id: Option<string>): (r: Ref)
    ensures r == Null <==> id.None?
    ensures id.Some? ==> r == Id(id.value)
  {
    if id.Some? then Id(id.value) else Null
  }

  // ---------------------------------------------------------------------
  // Properties of the transforms
  // ---------------------------------------------------------------------

  /** After updateNoteContent, looking the note up gives the new content, as long as it existed. */
  lemma {:induction false} ContentAfterUpdate(notes: seq<Note>, id: string, content: string, now: int)
    ensures IsNote(id, WithContent(notes, id, content, now)) == IsNote(id, notes)
    ensures IsNote(id, notes) ==> FindNote(id, WithContent(notes, id, content, now)).value.content == content
    decreases |notes|
  {
    if notes != [] {
      var r := WithContent(notes, id, content, now);
      ContentAfterUpdate(notes[1..], id, content, now);
      assert r[1..] == WithContent(notes[1..], id, content, now);
    }
  }

  /** Toggling twice gives back every folder whose `isExpanded` was defined. */
  lemma ToggleTwice(folders: seq<Folder>, id: string)
    requires forall i :: 0 <= i < |folders| && folders[i].id == id ==> folders[i].isExpanded.Some?
    ensures Toggled(Toggled(folders, id), id) == folders
  {
    var r := Toggled(Toggled(folders, id), id);
    forall i | 0 <= i < |folders| ensures r[i] == folders[i] {
      if folders[i].id == id {
        var f := folders[i];
        var once := Toggled(folders, id)[i];
        assert once == f.(isExpanded := Some(!Expanded(f)));
        assert f.isExpanded.Some?;
        var b := f.isExpanded.value;
        assert f.isExpanded == Some(b);
      }
    }
  }

  /** ... and a folder without it ends up with `isExpanded` defined as `false`. */
  lemma ToggleTwiceDefines(folders: seq<Folder>, id: string, i: nat)
    requires i < |folders| && folders[i].id == id && folders[i].isExpanded.None?
    ensures Toggled(Toggled(folders, id), id)[i] == folders[i].(isExpanded := Some(false))
  {
  }

  /** Removing the folders with one id does not change which folder any other id finds. */
  lemma {:induction false} FindAfterRemoval(folders: seq<Folder>, id: string, other: string)
    requires other != id
    ensures FindFolder(other, WithoutFolder(folders, id)) == FindFolder(other, folders)
    decreases |folders|
  {
    if folders != [] {
      FindAfterRemoval(folders[1..], id, other);
    }
  }

  /**
   * deleteFolder leaves child folders pointing at the removed folder, so on
   * acyclic data each such child comes out at depth 1 wherever it was before.
   */
  lemma OrphanedChildDepth(folders: seq<Folder>, notes: seq<Note>, id: string, c: Folder)
    requires UniqueFolderIds(folders) && id != ""
    requires c in folders && c.parentId == Id(id) && c.id != id
    requires !IsNote(id, notes)
    requires Acyclic(WithoutFolder(folders, id), Unfiled(notes, id))
    ensures Depth(c.id, WithoutFolder(folders, id), Unfiled(notes, id)) == 1
  {
    var fs := WithoutFolder(folders, id);
    var ns := Unfiled(notes, id);
    var i :| 0 <= i < |folders| && folders[i] == c;
    FindUnique(folders, i);
    FindAfterRemoval(folders, id, c.id);
    assert ParentOf(c.id, fs, ns) == Some(id);
    DanglingParentDepth(c.id, id, fs, ns);
  }

  // ---------------------------------------------------------------------
  // The store
  // ---------------------------------------------------------------------

  class AppStore {
    var notes: seq<Note>
    var folders: seq<Folder>
    var activeNoteId: Option<string>
    var viewMode: ViewMode

    /** The initial state: one welcome note with id "1", active, shown in view mode. */
    constructor (now: int)
      ensures |notes| == 1 && notes[0].id == "1" && notes[0].folderId == Null
      ensures notes[0].createdAt == now && notes[0].updatedAt == now
      ensures folders == [] && activeNoteId == Some("1") && viewMode == View
    {
      notes := [Note("1", WelcomeTitle, WelcomeContent, Null, now, now, Absent, Absent)];
      folders := [];
      activeNoteId := Some("1");
      viewMode := View;
    }

    method SetNotes(ns: seq<Note>)
      modifies this`notes
      ensures notes == ns
    {
      notes := ns;
    }

    method SetActiveNoteId(id: Option<string>)
      modifies this`activeNoteId
      ensures activeNoteId == id
    {
      activeNoteId := id;
    }

    method SetViewMode(mode: ViewMode)
      modifies this`viewMode
      ensures viewMode == mode
    {
      viewMode := mode;
    }

    method UpdateNoteContent(id: string, content: string, now: int)
      modifies this`notes
      ensures notes == WithContent(old(notes), id, content, now)
    {
      notes := WithContent(notes, id, content, now);
    }

    /** addNote: appends an empty note, makes it active and switches to editing. */
    method AddNote(folderId: Option<string>, newId: string, now: int)
      modifies this`notes, this`activeNoteId, this`viewMode
      ensures notes == old(notes) + [Note(newId, NewNoteTitle, "", NullIfNone(folderId), now, now, Absent, Absent)]
      ensures activeNoteId == Some(newId) && viewMode == Edit
    {
      var note := Note(newId, NewNoteTitle, "", NullIfNone(folderId), now, now, Absent, Absent);
      notes := notes + [note];
      activeNoteId := Some(note.id);
      viewMode := Edit;
    }

    /** deleteNote: removes every note with that id and clears the active note only if it was that one. */
    method DeleteNote(id: string)
      modifies this`notes, this`activeNoteId
      ensures notes == WithoutNote(old(notes), id)
      ensures activeNoteId == if old(activeNoteId) == Some(id) then None else old(activeNoteId)
    {
      notes := WithoutNote(notes, id);
      if activeNoteId == Some(id) {
        activeNoteId := None;
      }
    }

    /** addFolder: appends an expanded folder; there is no depth check. */
    method AddFolder(name: string, parentId: Option<string>, newId: string, now: int)
      modifies this`folders
      ensures folders == old(folders) + [Folder(newId, name, NullIfNone(parentId), Some(true), now, Absent, Absent)]
    {
      folders := folders + [Folder(newId, name, NullIfNone(parentId), Some(true), now, Absent, Absent)];
    }

    /** deleteFolder: removes the folder and moves its direct notes to the root; subfolders are untouched. */
    method DeleteFolder(id: string)
      modifies this`folders, this`notes
      ensures folders == WithoutFolder(old(folders), id)
      ensures notes == Unfiled(old(notes), id)
    {
      folders := WithoutFolder(folders, id);
      notes := Unfiled(notes, id);
    }

    method ToggleFolder(id: string)
      modifies this`folders
      ensures folders == Toggled(old(folders), id)
    {
      folders := Toggled(folders, id);
    }

    method RenameNote(id: string, title: string)
      modifies this`notes
      ensures notes == Retitled(old(notes), id, title)
    {
      notes := Retitled(notes, id, title);
    }

    method RenameFolder(id: string, name: string)
      modifies this`folders
      ensures folders == Renamed(old(folders), id, name)
    {
      folders := Renamed(folders, id, name);
    }
  }
}
