/**
 * The sidebar's tree logic (src/components/sidebar/Sidebar.tsx): the
 * workspace filter, the flattened visual order used as the drag-and-drop
 * item list, the hover-position classifier, the drop decision, and the
 * component state the drag and rename handlers update.
 */
module Sidebar {
  import opened Util
  import opened Entities
  import opened SidebarTree
  import opened SidebarTypes

  // ---------------------------------------------------------------------
  // Workspace filter and visual order
  // ---------------------------------------------------------------------

  /** `notes.filter(n => n.workspaceId === ws)` */
  function WorkspaceNotes(notes: seq<Note>, ws: Ref): (r: seq<Note>)
    ensures forall n :: n in r <==> n in notes && n.workspaceId == ws
    ensures |r| <= |notes|
  {
    if notes == [] then []
    else
      var rest := WorkspaceNotes(notes[1..], ws);
      if notes[0].workspaceId == ws then [notes[0]] + rest else rest
  }

  /** `folders.filter(f => f.workspaceId === ws)` */
  function WorkspaceFolders(folders: seq<Folder>, ws: Ref): (r: seq<Folder>)
    ensures forall f :: f in r <==> f in folders && f.workspaceId == ws
    ensures |r| <= |folders|
  {
    if folders == [] then []
    else
      var rest := WorkspaceFolders(folders[1..], ws);
      if folders[0].workspaceId == ws then [folders[0]] + rest else rest
  }

  /** `notes.filter(n => n.folderId === parent)` */
  function ChildNotes(parent: Ref, notes: seq<Note>): (r: seq<Note>)
    ensures forall n :: n in r <==> n in notes && n.folderId == parent
  {
    if notes == [] then []
    else
      var rest := ChildNotes(parent, notes[1..]);
      if notes[0].folderId == parent then [notes[0]] + rest else rest
  }

  function NoteIds(ns: seq<Note>): (ids: seq<string>)
    ensures |ids| == |ns| && forall k :: 0 <= k < |ns| ==> ids[k] == ns[k].id
  {
    if ns == [] then [] else [ns[0].id] + NoteIds(ns[1..])
  }

  /**
   * getVisualOrder(parent): the child folders of `parent` in list order, each
   * followed by its own visual order when it is expanded, then the child notes.
   */
  function VisualOrder(parent: Ref, folders: seq<Folder>, notes: seq<Note>): seq<string>
    requires Forest(folders)
    decreases Measure(parent, folders), 1, 0
  {
    var cs := ChildFolders(parent, folders);
    FoldersOrder(parent, cs, folders, notes) + NoteIds(ChildNotes(parent, notes))
  }

  /**
   * The part of VisualOrder contributed by the sibling folders `cs`: for each
   * one its id, then its own visual order when it is expanded.
   */
  function FoldersOrder(parent: Ref, cs: seq<Folder>, folders: seq<Folder>, notes: seq<Note>): seq<string>
    requires Forest(folders)
    requires forall c :: c in cs ==> c in folders && c.parentId == parent
    decreases Measure(parent, folders), 0, |cs|
  {
    if cs == [] then []
    else
      var last := cs[|cs| - 1];
      ChildMeasure(last, parent, folders);
      FoldersOrder(parent, cs[..|cs| - 1], folders, notes)
      + ([last.id] + (if Expanded(last) then VisualOrder(Id(last.id), folders, notes) else []))
  }

  /**
   * The `allItemIds` list: builds the order with pushes inside `forEach`
   * loops, recursing into expanded folders, as the component does.
   */
  method GetVisualOrder(parent: Ref, folders: seq<Folder>, notes: seq<Note>) returns (result: seq<string>)
    requires Forest(folders)
    ensures result == VisualOrder(parent, folders, notes)
    decreases Measure(parent, folders), 1
  {
    result := [];
    var cs := ChildFolders(parent, folders);
    var i := 0;
    while i < |cs|
      invariant 0 <= i <= |cs|
      invariant result == FoldersOrder(parent, cs[..i], folders, notes)
    {
      FoldersOrderStep(parent, cs, i, folders, notes);
      var pushed := PushFolder(parent, cs, i, folders, notes);
      result := result + pushed;
      i := i + 1;
    }
    assert cs[..i] == cs;
    result := PushNoteIds(result, ChildNotes(parent, notes));
  }

  /** One round of the folder loop: the folder's id, then its own order when it is expanded. */
  method PushFolder(parent: Ref, cs: seq<Folder>, i: nat, folders: seq<Folder>, notes: seq<Note>)
    returns (pushed: seq<string>)
    requires Forest(folders)
    requires i < |cs| && Measure(Id(cs[i].id), folders) < Measure(parent, folders)
    ensures pushed == [cs[i].id] + (if Expanded(cs[i]) then VisualOrder(Id(cs[i].id), folders, notes) else [])
    decreases Measure(parent, folders), 0
  {
    var folder := cs[i];
    pushed := [folder.id];
    if folder.isExpanded == Some(true) {
      var sub := GetVisualOrder(Id(folder.id), folders, notes);
      pushed := pushed + sub;
    }
  }

  lemma PrefixNext(ids: seq<string>, j: nat)
    requires j < |ids|
    ensures ids[..j + 1] == ids[..j] + [ids[j]]
  {
  }

  /** `ns.forEach(note => result.push(note.id))` */
  method PushNoteIds(start: seq<string>, ns: seq<Note>) returns (result: seq<string>)
    ensures result == start + NoteIds(ns)
  {
    result := start;
    var j := 0;
    while j < |ns|
      invariant 0 <= j <= |ns|
      invariant result == start + NoteIds(ns)[..j]
    {
      PrefixNext(NoteIds(ns), j);
      result := result + [ns[j].id];
      j := j + 1;
    }
    assert NoteIds(ns)[..j] == NoteIds(ns);
  }

  lemma FoldersOrderStep(parent: Ref, cs: seq<Folder>, i: nat, folders: seq<Folder>, notes: seq<Note>)
    requires Forest(folders)
    requires forall c :: c in cs ==> c in folders && c.parentId == parent
    requires i < |cs|
    ensures Measure(Id(cs[i].id), folders) < Measure(parent, folders)
    ensures FoldersOrder(parent, cs[..i + 1], folders, notes)
            == FoldersOrder(parent, cs[..i], folders, notes)
               + ([cs[i].id] + (if Expanded(cs[i]) then VisualOrder(Id(cs[i].id), folders, notes) else []))
  {
    assert cs[..i + 1][..i] == cs[..i];
    ChildMeasure(cs[i], parent, folders);
  }

  /** The sidebar's item list for the active workspace. */
  function AllItemIds(folders: seq<Folder>, notes: seq<Note>, ws: Ref): seq<string>
    requires Forest(WorkspaceFolders(folders, ws))
  {
    VisualOrder(Null, WorkspaceFolders(folders, ws), WorkspaceNotes(notes, ws))
  }

  lemma {:induction false} VisualOrderItems(parent: Ref, folders: seq<Folder>, notes: seq<Note>)
    requires Forest(folders)
    ensures forall x :: x in VisualOrder(parent, folders, notes) ==> IsFolder(x, folders) || IsNote(x, notes)
    decreases Measure(parent, folders), 1, 0
  {
    var cs := ChildFolders(parent, folders);
    FoldersOrderItems(parent, cs, folders, notes);
    var ns := ChildNotes(parent, notes);
    forall x | x in NoteIds(ns) ensures IsNote(x, notes) {
      var k :| 0 <= k < |ns| && NoteIds(ns)[k] == x;
      assert ns[k] in notes;
    }
  }

  lemma {:induction false} FoldersOrderItems(parent: Ref, cs: seq<Folder>, folders: seq<Folder>, notes: seq<Note>)
    requires Forest(folders)
    requires forall c :: c in cs ==> c in folders && c.parentId == parent
    ensures forall x :: x in FoldersOrder(parent, cs, folders, notes) ==> IsFolder(x, folders) || IsNote(x, notes)
    decreases Measure(parent, folders), 0, |cs|
  {
    if cs != [] {
      var last := cs[|cs| - 1];
      ChildMeasure(last, parent, folders);
      if Expanded(last) {
        VisualOrderItems(Id(last.id), folders, notes);
      }
      FoldersOrderItems(parent, cs[..|cs| - 1], folders, notes);
    }
  }

  /** Only folders and notes of the active workspace appear in the item list. */
  lemma ActiveWorkspaceOnly(folders: seq<Folder>, notes: seq<Note>, ws: Ref, x: string)
    requires Forest(WorkspaceFolders(folders, ws))
    requires x in AllItemIds(folders, notes, ws)
    ensures (exists f :: f in folders && f.id == x && f.workspaceId == ws)
         || (exists n :: n in notes && n.id == x && n.workspaceId == ws)
  {
    var wf := WorkspaceFolders(folders, ws);
    var wn := WorkspaceNotes(notes, ws);
    VisualOrderItems(Null, wf, wn);
    if IsFolder(x, wf) {
      var i :| 0 <= i < |wf| && wf[i].id == x;
      assert wf[i] in wf;
    } else {
      var i :| 0 <= i < |wn| && wn[i].id == x;
      assert wn[i] in wn;
    }
  }

  /** Folder ids unique, note ids unique, and no id names both a folder and a note. */
  ghost predicate DistinctItems(folders: seq<Folder>, notes: seq<Note>)
  {
    UniqueFolderIds(folders)
    && (forall i, j :: 0 <= i < |notes| && 0 <= j < |notes| && notes[i].id == notes[j].id ==> i == j)
    && (forall i, j :: 0 <= i < |folders| && 0 <= j < |notes| ==> folders[i].id != notes[j].id)
  }

  /** The parent reference of the item `x` (folder entry first), `Absent` for an unknown id. */
  function ParentRef(x: string, folders: seq<Folder>, notes: seq<Note>): Ref
  {
    match FindFolder(x, folders)
    case Some(f) => f.parentId
    case None =>
      match FindNote(x, notes)
      case Some(n) => n.folderId
      case None => Absent
  }

  /**
   * `x` is an item reached from `target` by descending only through expanded
   * folders: its parent is `target`, or an expanded folder that is itself
   * reached that way.
   */
  ghost predicate ShownUnder(x: string, target: Ref, folders: seq<Folder>, notes: seq<Note>)
    requires Forest(folders) && Acyclic(folders, notes)
    decreases Depth(x, folders, notes)
  {
    (IsFolder(x, folders) || IsNote(x, notes))
    && (ParentRef(x, folders, notes) == target
        || (var p := ParentRef(x, folders, notes);
            p.Id? && IsFolder(p.id, folders) && Expanded(FindFolder(p.id, folders).value)
            && (ParentStep(x, p.id, folders, notes); ShownUnder(p.id, target, folders, notes))))
  }

  /** `x` lies (at any depth) inside the folder `a`. */
  ghost predicate Descends(x: string, a: string, folders: seq<Folder>, notes: seq<Note>)
    requires Forest(folders) && Acyclic(folders, notes)
    decreases Depth(x, folders, notes)
  {
    var p := ParentRef(x, folders, notes);
    p.Id? && IsFolder(p.id, folders)
    && (p.id == a || (ParentStep(x, p.id, folders, notes); Descends(p.id, a, folders, notes)))
  }

  lemma ParentStep(x: string, p: string, folders: seq<Folder>, notes: seq<Note>)
    requires Forest(folders) && Acyclic(folders, notes)
    requires ParentRef(x, folders, notes) == Id(p) && IsFolder(p, folders)
    ensures Depth(p, folders, notes) < Depth(x, folders, notes)
  {
    var k :| 0 <= k < |folders| && folders[k].id == p;
    assert p != "";
    DepthStep(x, folders, notes);
  }

  lemma {:induction false} ShownUnderThrough(x: string, c: Folder, parent: Ref, folders: seq<Folder>, notes: seq<Note>)
    requires Forest(folders) && Acyclic(folders, notes)
    requires c in folders && c.parentId == parent && Expanded(c)
    requires ShownUnder(x, Id(c.id), folders, notes)
    ensures ShownUnder(x, parent, folders, notes)
    decreases Depth(x, folders, notes)
  {
    var i :| 0 <= i < |folders| && folders[i] == c;
    FindUnique(folders, i);
    var p := ParentRef(x, folders, notes);
    if p == Id(c.id) {
      ParentStep(x, c.id, folders, notes);
      assert ShownUnder(c.id, parent, folders, notes);
    } else {
      ParentStep(x, p.id, folders, notes);
      ShownUnderThrough(p.id, c, parent, folders, notes);
    }
  }

  lemma {:induction false} VisibleIsShownUnder(parent: Ref, folders: seq<Folder>, notes: seq<Note>)
    requires Forest(folders) && Acyclic(folders, notes) && DistinctItems(folders, notes)
    ensures forall x :: x in VisualOrder(parent, folders, notes) ==> ShownUnder(x, parent, folders, notes)
    decreases Measure(parent, folders), 1, 0
  {
    var cs := ChildFolders(parent, folders);
    FoldersShownUnder(parent, cs, folders, notes);
    var ns := ChildNotes(parent, notes);
    forall x | x in NoteIds(ns) ensures ShownUnder(x, parent, folders, notes) {
      var k :| 0 <= k < |ns| && NoteIds(ns)[k] == x;
      var j :| 0 <= j < |notes| && notes[j] == ns[k];
      assert !IsFolder(x, folders);
      FindNoteUnique(notes, j);
    }
  }

  lemma {:induction false} FoldersShownUnder(parent: Ref, cs: seq<Folder>, folders: seq<Folder>, notes: seq<Note>)
    requires Forest(folders) && Acyclic(folders, notes) && DistinctItems(folders, notes)
    requires forall c :: c in cs ==> c in folders && c.parentId == parent
    ensures forall x :: x in FoldersOrder(parent, cs, folders, notes) ==> ShownUnder(x, parent, folders, notes)
    decreases Measure(parent, folders), 0, |cs|
  {
    if cs != [] {
      var c := cs[|cs| - 1];
      ChildMeasure(c, parent, folders);
      var i :| 0 <= i < |folders| && folders[i] == c;
      FindUnique(folders, i);
      assert ShownUnder(c.id, parent, folders, notes);
      if Expanded(c) {
        VisibleIsShownUnder(Id(c.id), folders, notes);
        forall x | x in VisualOrder(Id(c.id), folders, notes) ensures ShownUnder(x, parent, folders, notes) {
          ShownUnderThrough(x, c, parent, folders, notes);
        }
      }
      FoldersShownUnder(parent, cs[..|cs| - 1], folders, notes);
    }
  }

  lemma {:induction false} DescendantNotShown(x: string, c: Folder, folders: seq<Folder>, notes: seq<Note>)
    requires Forest(folders) && Acyclic(folders, notes)
    requires c in folders && !Expanded(c)
    requires Descends(x, c.id, folders, notes)
    ensures !ShownUnder(x, Null, folders, notes)
    decreases Depth(x, folders, notes)
  {
    var i :| 0 <= i < |folders| && folders[i] == c;
    FindUnique(folders, i);
    var p := ParentRef(x, folders, notes);
    ParentStep(x, p.id, folders, notes);
    if p.id != c.id {
      DescendantNotShown(p.id, c, folders, notes);
    }
  }

  /** No item inside a collapsed folder appears in the visual order from the root. */
  lemma CollapsedHidesDescendants(x: string, c: Folder, folders: seq<Folder>, notes: seq<Note>)
    requires Forest(folders) && Acyclic(folders, notes) && DistinctItems(folders, notes)
    requires c in folders && !Expanded(c)
    requires Descends(x, c.id, folders, notes)
    ensures x !in VisualOrder(Null, folders, notes)
  {
    VisibleIsShownUnder(Null, folders, notes);
    DescendantNotShown(x, c, folders, notes);
  }

  /** An item whose parent reference is missing (undefined, not null) is never listed. */
  lemma AbsentParentNotShown(x: string, folders: seq<Folder>, notes: seq<Note>)
    requires Forest(folders) && Acyclic(folders, notes) && DistinctItems(folders, notes)
    requires ParentRef(x, folders, notes) == Absent
    ensures x !in VisualOrder(Null, folders, notes)
  {
    VisibleIsShownUnder(Null, folders, notes);
  }

  // ---------------------------------------------------------------------
  // Hover classification and drop decision
  // ---------------------------------------------------------------------

  /** A vertical extent on screen, in whole pixels. */
  datatype Rect = Rect(top: int, height: int)

  /**
   * onDragOver's position: on a folder, the upper 30% means above and the rest
   * inside when the folder is at depth 0 or 1 (else above); on anything else
   * the midpoint splits above from below.  Centres are compared scaled by 10.
   */
  function HoverPosition(overId: string, active: Rect, over: Rect, folders: seq<Folder>, notes: seq<Note>): (p: Position)
    requires Acyclic(folders, notes)
    ensures p == Inside ==> IsFolder(overId, folders) && Depth(overId, folders, notes) <= 1
    ensures p == Below ==> !IsFolder(overId, folders)
    ensures IsFolder(overId, folders) ==>
              (p == Inside <==> 10 * active.top + 5 * active.height >= 10 * over.top + 3 * over.height
                                && Depth(overId, folders, notes) <= 1)
    ensures !IsFolder(overId, folders) ==>
              (p == Above <==> 2 * active.top + active.height < 2 * over.top + over.height)
  {
    if IsFolder(overId, folders) then
      if 10 * active.top + 5 * active.height < 10 * over.top + 3 * over.height then Above
      else if Depth(overId, folders, notes) <= 1 then Inside
      else Above
    else if 2 * active.top + active.height < 2 * over.top + over.height then Above
    else Below
  }

  /** `null` or a folder id, as a parent reference. */
  function RefOf(parent: Option<string>): Ref
  {
    if parent.Some? then Id(parent.value) else Null
  }

  /** The parent an above/below drop moves into: the over-item's parent, `null` when falsy. */
  function SiblingParent(overId: string, folders: seq<Folder>, notes: seq<Note>): (p: Option<string>)
    ensures p.Some? ==> p.value != ""
  {
    if IsNote(overId, notes) then Truthy(FindNote(overId, notes).value.folderId)
    else
      match FindFolder(overId, folders)
      case Some(f) => Truthy(f.parentId)
      case None => None
  }

  /** Where a drop at `position` on `overId` moves the dragged item: into the folder, or beside the item. */
  function DropDest(overId: string, position: Position, folders: seq<Folder>, notes: seq<Note>): Option<string>
  {
    if IsFolder(overId, folders) && position == Inside then Some(overId) else SiblingParent(overId, folders, notes)
  }

  /**
   * The rule every store action of a drop obeys: a move takes the dragged
   * item to the drop destination and keeps it within two levels of nesting
   * (its subtree included); a reorder pairs two notes or two folders.
   */
  ghost predicate DropRule(i: Intent, activeId: string, overId: string, position: Position,
                           folders: seq<Folder>, notes: seq<Note>)
    requires Forest(folders) && Acyclic(folders, notes)
  {
    match i
    case MoveNoteToFolder(x, d) =>
      x == activeId && IsNote(activeId, notes) && d == DropDest(overId, position, folders, notes)
      && (d.Some? ==> Depth(d.value, folders, notes) + 1 <= 2)
    case MoveFolderToFolder(x, d) =>
      x == activeId && !IsNote(activeId, notes) && d == DropDest(overId, position, folders, notes)
      && (d.Some? ==> Depth(d.value, folders, notes) + 1 + SubtreeHeight(activeId, folders) <= 2)
    case ReorderNotes(x, y) =>
      x == activeId && y == overId && IsNote(activeId, notes) && IsNote(overId, notes)
      && !(IsFolder(overId, folders) && position == Inside)
    case ReorderFolders(x, y) =>
      x == activeId && y == overId && !IsNote(activeId, notes) && IsFolder(overId, folders) && position != Inside
    case _ => false
  }

  /**
   * The store actions onDragEnd issues for a drop of `activeId` on `overId`
   * with the position recorded during the hover.
   */
  function DropIntents(activeId: string, overId: string, position: Position, folders: seq<Folder>, notes: seq<Note>)
    : (r: seq<Intent>)
    requires Forest(folders) && Acyclic(folders, notes)
    ensures activeId == overId ==> r == []
    ensures |r| <= 2
    ensures forall k :: 0 <= k < |r| ==> DropRule(r[k], activeId, overId, position, folders, notes)
  {
    if activeId == overId then []
    else if IsFolder(overId, folders) && position == Inside then InsideDrop(activeId, overId, folders, notes)
    else SiblingDrop(activeId, overId, position, folders, notes)
  }

  /** The inside-a-folder branch: at most one move, never a reorder. */
  function InsideDrop(activeId: string, overId: string, folders: seq<Folder>, notes: seq<Note>): (r: seq<Intent>)
    requires Forest(folders) && Acyclic(folders, notes)
    requires IsFolder(overId, folders)
    ensures |r| <= 1
    ensures forall k :: 0 <= k < |r| ==> DropRule(r[k], activeId, overId, Inside, folders, notes)
  {
    var targetDepth := Depth(overId, folders, notes);
    if IsNote(activeId, notes) then
      if targetDepth <= 1 then [MoveNoteToFolder(activeId, Some(overId))] else []
    else if targetDepth + 1 + SubtreeHeight(activeId, folders) <= 2 then [MoveFolderToFolder(activeId, Some(overId))]
    else []
  }

  /** The above/below branch: a move when the parent changes and the depth allows, then a reorder of like kinds. */
  function SiblingDrop(activeId: string, overId: string, position: Position, folders: seq<Folder>, notes: seq<Note>)
    : (r: seq<Intent>)
    requires Forest(folders) && Acyclic(folders, notes)
    requires !(IsFolder(overId, folders) && position == Inside)
    ensures |r| <= 2
    ensures forall k :: 0 <= k < |r| ==> DropRule(r[k], activeId, overId, position, folders, notes)
  {
    var newParent := SiblingParent(overId, folders, notes);
    var parentDepth: int := if newParent.Some? then Depth(newParent.value, folders, notes) else -1;
    if IsNote(activeId, notes) then NoteSiblingDrop(activeId, overId, position, newParent, parentDepth, folders, notes)
    else FolderSiblingDrop(activeId, overId, position, newParent, parentDepth, folders, notes)
  }

  /** A dragged note: a move when its folder changes and the depth allows, then a reorder beside a note. */
  function NoteSiblingDrop(activeId: string, overId: string, position: Position, newParent: Option<string>,
                           parentDepth: int, folders: seq<Folder>, notes: seq<Note>): (r: seq<Intent>)
    requires Forest(folders) && Acyclic(folders, notes)
    requires !(IsFolder(overId, folders) && position == Inside) && IsNote(activeId, notes)
    requires newParent == SiblingParent(overId, folders, notes)
    requires parentDepth == if newParent.Some? then Depth(newParent.value, folders, notes) else -1
    ensures |r| <= 2
    ensures forall k :: 0 <= k < |r| ==> DropRule(r[k], activeId, overId, position, folders, notes)
  {
    var activeNote := FindNote(activeId, notes).value;
    (if activeNote.folderId != RefOf(newParent) && parentDepth + 1 <= 2
     then [MoveNoteToFolder(activeId, newParent)] else [])
    + (if IsNote(overId, notes) then [ReorderNotes(activeId, overId)] else [])
  }

  /** A dragged folder: a move when its parent changes and the depth allows, then a reorder beside a folder. */
  function FolderSiblingDrop(activeId: string, overId: string, position: Position, newParent: Option<string>,
                             parentDepth: int, folders: seq<Folder>, notes: seq<Note>): (r: seq<Intent>)
    requires Forest(folders) && Acyclic(folders, notes)
    requires !(IsFolder(overId, folders) && position == Inside) && !IsNote(activeId, notes)
    requires newParent == SiblingParent(overId, folders, notes)
    requires parentDepth == if newParent.Some? then Depth(newParent.value, folders, notes) else -1
    ensures |r| <= 2
    ensures forall k :: 0 <= k < |r| ==> DropRule(r[k], activeId, overId, position, folders, notes)
  {
    var current := match FindFolder(activeId, folders) case Some(f) => f.parentId case None => Absent;
    (if current != RefOf(newParent) && parentDepth + 1 + SubtreeHeight(activeId, folders) <= 2
     then [MoveFolderToFolder(activeId, newParent)] else [])
    + (if IsFolder(overId, folders) then [ReorderFolders(activeId, overId)] else [])
  }

  /** No drop, on either path, moves a folder into a folder nested inside it. */
  lemma NeverIntoDescendant(activeId: string, overId: string, position: Position, chain: seq<Folder>,
                            folders: seq<Folder>, notes: seq<Note>)
    requires Forest(folders) && Acyclic(folders, notes)
    requires activeId != "" && Chain(activeId, chain, folders)
    ensures MoveFolderToFolder(activeId, Some(chain[|chain| - 1].id)) !in DropIntents(activeId, overId, position, folders, notes)
  {
    DescendantDepth(activeId, chain, folders, notes);
    DescendantHeight(activeId, chain, folders);
  }

  /**
   * The only way an above/below drop moves a folder into itself: the item
   * under it is a direct child of the dragged folder, and the folder is
   * shallow enough for the depth check to pass.
   */
  lemma SelfParentOnlyBesideOwnChild(activeId: string, overId: string, position: Position,
                                     folders: seq<Folder>, notes: seq<Note>)
    requires Forest(folders) && Acyclic(folders, notes)
    requires MoveFolderToFolder(activeId, Some(activeId)) in DropIntents(activeId, overId, position, folders, notes)
    ensures !(IsFolder(overId, folders) && position == Inside)
    ensures SiblingParent(overId, folders, notes) == Some(activeId)
    ensures Depth(activeId, folders, notes) + 1 + SubtreeHeight(activeId, folders) <= 2
  {
    var r := DropIntents(activeId, overId, position, folders, notes);
    var k :| 0 <= k < |r| && r[k] == MoveFolderToFolder(activeId, Some(activeId));
  }

  /**
   * Concretely: a root folder "a" with one child folder "c"; dropping "a"
   * above "c" asks the store to make "a" its own parent.  During a real drag
   * the children of the dragged folder are not rendered, which keeps "c" out
   * of reach.
   */
  /** The facts about the two-folder example that the drop consults. */
  lemma SelfParentFacts()
    ensures var a := Folder("a", "A", Null, Some(true), 0, Absent, Absent);
            var c := Folder("c", "C", Id("a"), Some(true), 0, Absent, Absent);
            var fs := [a, c];
            Forest(fs) && Acyclic(fs, []) && FindFolder("a", fs) == Some(a) && Depth("a", fs, []) == 0
            && SubtreeHeight("a", fs) == 1 && SiblingParent("c", fs, []) == Some("a")
  {
    var a := Folder("a", "A", Null, Some(true), 0, Absent, Absent);
    var c := Folder("c", "C", Id("a"), Some(true), 0, Absent, Absent);
    var fs := [a, c];
    assert FindFolder("a", fs) == Some(a);
    assert FindFolder("c", fs) == Some(c);
    assert ParentOf("a", fs, []) == None;
    assert ParentOf("c", fs, []) == Some("a");
    assert DepthWithin("c", fs, [], 2) == Some(1);
    forall id ensures DepthWithin(id, fs, [], Bound(fs, [])).Some? {
      if id != "a" && id != "c" {
        assert !IsFolder(id, fs);
      }
    }
    assert Acyclic(fs, []);
    assert Depth("a", fs, []) == 0;
    assert ChildFolders(Id("c"), fs) == [];
    assert SubtreeHeight("c", fs) == 0;
    HeightAboveChild("a", c, fs);
    HeightOfTallestChild("a", fs);
    assert SubtreeHeight("a", fs) == 1;
    assert SiblingParent("c", fs, []) == Some("a");
  }

  lemma SelfParentExample()
    ensures var a := Folder("a", "A", Null, Some(true), 0, Absent, Absent);
            var c := Folder("c", "C", Id("a"), Some(true), 0, Absent, Absent);
            Forest([a, c]) && Acyclic([a, c], [])
            && DropIntents("a", "c", Above, [a, c], []) == [MoveFolderToFolder("a", Some("a")), ReorderFolders("a", "c")]
  {
    SelfParentFacts();
    var a := Folder("a", "A", Null, Some(true), 0, Absent, Absent);
    var c := Folder("c", "C", Id("a"), Some(true), 0, Absent, Absent);
    assert IsFolder("c", [a, c]) && !IsNote("a", []);
  }

  // ---------------------------------------------------------------------
  // Component state and handlers
  // ---------------------------------------------------------------------

  /** The trimmed rename text and the store action it leads to (note, then folder, then workspace). */
  function RenameIntents(editingId: string, editValue: string, notes: seq<Note>, folders: seq<Folder>,
                         workspaces: seq<Workspace>): (r: seq<Intent>)
    ensures |r| <= 1
    ensures Trim(editValue, JsSpace) == [] ==> r == []
    ensures Trim(editValue, JsSpace) != [] && IsNote(editingId, notes) ==>
              r == [RenameNote(editingId, Trim(editValue, JsSpace))]
    ensures Trim(editValue, JsSpace) != [] && !IsNote(editingId, notes) && IsFolder(editingId, folders) ==>
              r == [RenameFolder(editingId, Trim(editValue, JsSpace))]
    ensures Trim(editValue, JsSpace) != [] && !IsNote(editingId, notes) && !IsFolder(editingId, folders) ==>
              (r != [] <==> exists w :: w in workspaces && w.id == editingId)
    ensures r != [] && r[0].RenameWorkspace? ==> r[0] == RenameWorkspace(editingId, Trim(editValue, JsSpace))
  {
    var trimmed := Trim(editValue, JsSpace);
    if trimmed == [] then []
    else if IsNote(editingId, notes) then [RenameNote(editingId, trimmed)]
    else if IsFolder(editingId, folders) then [RenameFolder(editingId, trimmed)]
    else if exists w :: w in workspaces && w.id == editingId then [RenameWorkspace(editingId, trimmed)]
    else []
  }

  /** The sidebar component's drag, timer and rename state, and the store actions it has issued. */
  class SidebarState {
    var draggedId: Option<string>
    var draggedWidth: Option<int>
    var dropTarget: Option<DropTarget>
    /** The folder a pending auto-expand timer will open, if a timer is pending. */
    var expandTimer: Option<string>
    var editingId: Option<string>
    var editValue: string
    var contextMenu: Option<MenuRequest>
    var intents: seq<Intent>

    constructor ()
      ensures draggedId.None? && draggedWidth.None? && dropTarget.None? && expandTimer.None?
      ensures editingId.None? && editValue == "" && contextMenu.None? && intents == []
    {
      draggedId, draggedWidth, dropTarget, expandTimer := None, None, None, None;
      editingId, editValue, contextMenu, intents := None, "", None, [];
    }

    /** onDragStart: remember the dragged item and collapse it when it is a folder. */
    method OnDragStart(id: string, width: Option<int>, folders: seq<Folder>)
      modifies this
      ensures draggedId == Some(id)
      ensures draggedWidth == if width.Some? && width.value != 0 then width else old(draggedWidth)
      ensures intents == old(intents) + if IsFolder(id, folders) then [ToggleFolder(id, Some(false))] else []
      ensures dropTarget == old(dropTarget) && expandTimer == old(expandTimer)
      ensures editingId == old(editingId) && editValue == old(editValue) && contextMenu == old(contextMenu)
    {
      draggedId := Some(id);
      if width.Some? && width.value != 0 {
        draggedWidth := width;
      }
      if IsFolder(id, folders) {
        intents := intents + [ToggleFolder(id, Some(false))];
      }
    }

    /**
     * onDragOver.  `over` is the hovered item with its extent, `active` the
     * dragged item's translated extent when known.
     */
    method OnDragOver(activeId: string, over: Option<(string, Rect)>, active: Option<Rect>,
                      folders: seq<Folder>, notes: seq<Note>)
      requires Acyclic(folders, notes)
      modifies this
      ensures draggedId == old(draggedId) && draggedWidth == old(draggedWidth) && intents == old(intents)
      ensures editingId == old(editingId) && editValue == old(editValue) && contextMenu == old(contextMenu)
      ensures over.None? ==> dropTarget.None? && expandTimer.None?
      ensures over.Some? && (over.value.0 == activeId || active.None?) ==>
                dropTarget.None? && expandTimer == old(expandTimer)
      ensures over.Some? && over.value.0 != activeId && active.Some? ==>
                dropTarget == Some(DropTarget(over.value.0, HoverPosition(over.value.0, active.value, over.value.1, folders, notes)))
      // the timer is started only for a collapsed folder hovered inside, and never replaces a pending one
      ensures expandTimer.Some? && old(expandTimer).None? ==>
                over.Some? && expandTimer == Some(over.value.0) && dropTarget == Some(DropTarget(over.value.0, Inside))
                && IsFolder(over.value.0, folders) && !Expanded(FindFolder(over.value.0, folders).value)
      ensures expandTimer.Some? ==> expandTimer == old(expandTimer) || old(expandTimer).None?
      ensures (over.Some? && over.value.0 != activeId && active.Some? && old(expandTimer).None?
               && dropTarget == Some(DropTarget(over.value.0, Inside))
               && !Expanded(FindFolder(over.value.0, folders).value)) ==> expandTimer == Some(over.value.0)
      // any hover that is not inside a folder clears it
      ensures over.Some? && over.value.0 != activeId && active.Some? && dropTarget.value.position != Inside ==>
                expandTimer.None?
      // a pending timer survives a hover inside a folder
      ensures (over.Some? && over.value.0 != activeId && active.Some? && dropTarget.value.position == Inside
               && old(expandTimer).Some?) ==> expandTimer == old(expandTimer)
    {
      if over.None? {
        expandTimer := None;
        dropTarget := None;
        return;
      }
      var (overId, overRect) := over.value;
      if activeId == overId {
        dropTarget := None;
        return;
      }
      if active.None? {
        dropTarget := None;
        return;
      }
      var position := HoverPosition(overId, active.value, overRect, folders, notes);
      dropTarget := Some(DropTarget(overId, position));
      if IsFolder(overId, folders) && position == Inside {
        var folder := FindFolder(overId, folders);
        if folder.Some? && folder.value.isExpanded != Some(true) && expandTimer.None? {
          expandTimer := Some(overId);
        }
      } else {
        expandTimer := None;
      }
    }

    /** The auto-expand timer fires: the pending folder is expanded. */
    method OnExpandTimer()
      modifies this
      ensures old(expandTimer).Some? ==> intents == old(intents) + [ToggleFolder(old(expandTimer).value, Some(true))]
      ensures old(expandTimer).None? ==> intents == old(intents)
      ensures expandTimer.None?
      ensures draggedId == old(draggedId) && draggedWidth == old(draggedWidth) && dropTarget == old(dropTarget)
      ensures editingId == old(editingId) && editValue == old(editValue) && contextMenu == old(contextMenu)
    {
      if expandTimer.Some? {
        intents := intents + [ToggleFolder(expandTimer.value, Some(true))];
        expandTimer := None;
      }
    }

    /** onDragEnd: clears the drag state and issues the drop's store actions. */
    method OnDragEnd(activeId: string, over: Option<string>, folders: seq<Folder>, notes: seq<Note>)
      requires Forest(folders) && Acyclic(folders, notes)
      modifies this
      ensures draggedId.None? && dropTarget.None? && expandTimer.None?
      ensures over.None? || old(dropTarget).None? ==> intents == old(intents)
      ensures over.Some? && old(dropTarget).Some? ==>
                intents == old(intents) + DropIntents(activeId, over.value, old(dropTarget).value.position, folders, notes)
      ensures draggedWidth == old(draggedWidth)
      ensures editingId == old(editingId) && editValue == old(editValue) && contextMenu == old(contextMenu)
    {
      draggedId := None;
      expandTimer := None;
      if over.None? || dropTarget.None? {
        dropTarget := None;
        return;
      }
      var position := dropTarget.value.position;
      dropTarget := None;
      intents := intents + DropIntents(activeId, over.value, position, folders, notes);
    }

    method OnDragCancel()
      modifies this
      ensures draggedId.None? && dropTarget.None? && expandTimer.None?
      ensures intents == old(intents) && draggedWidth == old(draggedWidth)
      ensures editingId == old(editingId) && editValue == old(editValue) && contextMenu == old(contextMenu)
    {
      draggedId := None;
      dropTarget := None;
      expandTimer := None;
    }

    method OnRenameStart(id: string, initialValue: string)
      modifies this`editingId, this`editValue, this`contextMenu
      ensures editingId == Some(id) && editValue == initialValue && contextMenu.None?
    {
      editingId := Some(id);
      editValue := initialValue;
      contextMenu := None;
    }

    /** handleRenameSave: renames the edited item when the trimmed text is non-empty, then ends editing. */
    method OnRenameSave(notes: seq<Note>, folders: seq<Folder>, workspaces: seq<Workspace>)
      modifies this`editingId, this`editValue, this`intents
      ensures !Given(old(editingId)) ==>
                editingId == old(editingId) && editValue == old(editValue) && intents == old(intents)
      ensures Given(old(editingId)) ==>
                editingId.None? && editValue == ""
                && intents == old(intents) + RenameIntents(old(editingId).value, old(editValue), notes, folders, workspaces)
    {
      if !Given(editingId) {
        return;
      }
      intents := intents + RenameIntents(editingId.value, editValue, notes, folders, workspaces);
      editingId := None;
      editValue := "";
    }

    method OnRenameCancel()
      modifies this`editingId
      ensures editingId.None?
    {
      editingId := None;
    }

    method OpenContextMenu(x: int, y: int, kind: MenuKind, itemId: Option<string>)
      modifies this`contextMenu
      ensures contextMenu == Some(MenuRequest(x, y, kind, itemId))
    {
      contextMenu := Some(MenuRequest(x, y, kind, itemId));
    }
  }
}
