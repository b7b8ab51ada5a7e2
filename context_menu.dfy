/**
 * The sidebar's right-click menu (src/components/sidebar/components/ContextMenu.tsx):
 * its placement inside the window, the entry table per menu type with the
 * depth gate on "new folder", and what each entry, each preset colour and
 * the custom colour picker call.  Store actions and the `onClose`,
 * `onRename` and `onExport` callbacks are recorded as `Intent` values.
 */
module ContextMenu {
  import opened Util
  import opened Entities
  import opened SidebarTree
  import opened SidebarTypes

  /** The preset swatches, in display order; the first one clears the colour. */
  const PresetColors: seq<Option<string>> :=
    [None, Some("#4F7DF3"), Some("#10B981"), Some("#EF4444"), Some("#F59E0B"), Some("#8B5CF6")]

  /** The picker's colour when the item has none. */
  const DefaultPickerColor: string := "#4F7DF3"

  /**
   * One axis of the placement effect: a menu of extent `size` opened at `v`
   * that would cross `limit` is moved to end 8 pixels before it.
   */
  function Clamp(v: int, size: int, limit: int): (r: int)
    ensures r <= v
    ensures v + size <= limit ==> r == v
    ensures r != v ==> r + size + 8 == limit
    ensures r + size <= limit
  {
    if v + size > limit then limit - size - 8 else v
  }

  /** Placing an already placed menu again does not move it. */
  lemma ClampIdempotent(v: int, size: int, limit: int)
    requires size >= 0
    ensures Clamp(Clamp(v, size, limit), size, limit) == Clamp(v, size, limit)
  {
  }

  /** `workspaces.find(w => w.id === id)` */
  function FindWorkspace(id: string, workspaces: seq<Workspace>): (r: Option<Workspace>)
    ensures r.None? <==> forall w :: w in workspaces ==> w.id != id
    ensures r.Some? ==> r.value.id == id && r.value in workspaces
  {
    if workspaces == [] then None
    else if workspaces[0].id == id then Some(workspaces[0])
    else FindWorkspace(id, workspaces[1..])
  }

  datatype Action = Rename | Appearance | Delete | NewNote | NewFolder | Export | NewWorkspace

  /** A row of the menu. */
  datatype Entry = Separator | Button(action: Action, disabled: bool)

  /** The actions of the buttons, in order, separators skipped. */
  function Actions(entries: seq<Entry>): (r: seq<Action>)
    ensures |r| <= |entries|
  {
    if entries == [] then []
    else if entries[0].Separator? then Actions(entries[1..])
    else [entries[0].action] + Actions(entries[1..])
  }

  /** "New folder" under a folder is offered only for a given folder at depth 0 or 1. */
  predicate NewFolderAllowed(itemId: Option<string>, folders: seq<Folder>, notes: seq<Note>)
    requires Acyclic(folders, notes)
  {
    Given(itemId) && Depth(itemId.value, folders, notes) < 2
  }

  /** The entry table for a menu type. */
  function Entries(kind: MenuKind, itemId: Option<string>, folders: seq<Folder>, notes: seq<Note>): (r: seq<Entry>)
    requires Acyclic(folders, notes)
    ensures forall k :: 0 <= k < |r| && r[k].Separator? ==> kind == SidebarMenu
    // the only entry that can be disabled is a folder's "new folder", exactly when the depth gate fails
    ensures forall k :: 0 <= k < |r| && r[k].Button? ==>
              (r[k].disabled <==> kind == FolderMenu && r[k].action == NewFolder && !NewFolderAllowed(itemId, folders, notes))
  {
    match kind
    case NoteMenu => [Button(Rename, false), Button(Appearance, false), Button(Delete, false)]
    case FolderMenu =>
      [Button(NewNote, false), Button(NewFolder, !NewFolderAllowed(itemId, folders, notes)),
       Button(Appearance, false), Button(Rename, false), Button(Delete, false)]
    case WorkspaceMenu => [Button(Rename, false), Button(Appearance, false), Button(Export, false), Button(Delete, false)]
    case SidebarMenu => [Button(NewNote, false), Button(NewFolder, false), Separator, Button(NewWorkspace, false)]
  }

  /** The buttons of each menu type, in display order. */
  lemma EntryTable(kind: MenuKind, itemId: Option<string>, folders: seq<Folder>, notes: seq<Note>)
    requires Acyclic(folders, notes)
    ensures var r := Entries(kind, itemId, folders, notes);
            && (kind == NoteMenu ==> Actions(r) == [Rename, Appearance, Delete])
            && (kind == FolderMenu ==> Actions(r) == [NewNote, NewFolder, Appearance, Rename, Delete])
            && (kind == WorkspaceMenu ==> Actions(r) == [Rename, Appearance, Export, Delete])
            && (kind == SidebarMenu ==> Actions(r) == [NewNote, NewFolder, NewWorkspace])
  {
    match kind
    case NoteMenu =>
      var actions := [Rename, Appearance, Delete];
      ButtonRow(actions);
      assert Entries(kind, itemId, folders, notes) == seq(3, k requires 0 <= k < 3 => Button(actions[k], false));
    case FolderMenu =>
      var gate := !NewFolderAllowed(itemId, folders, notes);
      FolderRow(gate);
    case WorkspaceMenu =>
      var actions := [Rename, Appearance, Export, Delete];
      ButtonRow(actions);
      assert Entries(kind, itemId, folders, notes) == seq(4, k requires 0 <= k < 4 => Button(actions[k], false));
    case SidebarMenu => SidebarRow();
  }

  /** A row of enabled buttons lists their actions. */
  lemma {:induction false} ButtonRow(actions: seq<Action>)
    ensures Actions(seq(|actions|, k requires 0 <= k < |actions| => Button(actions[k], false))) == actions
    decreases |actions|
  {
    if actions != [] {
      var r := seq(|actions|, k requires 0 <= k < |actions| => Button(actions[k], false));
      ButtonRow(actions[1..]);
      assert r[1..] == seq(|actions[1..]|, k requires 0 <= k < |actions[1..]| => Button(actions[1..][k], false));
      assert actions == [actions[0]] + actions[1..];
    }
  }

  /** The folder row lists its five actions, whether "new folder" is disabled or not. */
  lemma FolderRow(gate: bool)
    ensures Actions([Button(NewNote, false), Button(NewFolder, gate), Button(Appearance, false), Button(Rename, false),
                     Button(Delete, false)]) == [NewNote, NewFolder, Appearance, Rename, Delete]
  {
    var r := [Button(NewNote, false), Button(NewFolder, gate), Button(Appearance, false), Button(Rename, false),
              Button(Delete, false)];
    ButtonRow([Appearance, Rename, Delete]);
    assert r[2..] == seq(3, k requires 0 <= k < 3 => Button([Appearance, Rename, Delete][k], false));
    ActionsAt(r, 1);
    ActionsAt(r, 0);
    assert r[0..] == r;
  }

  /** The separator of the sidebar row is skipped. */
  lemma SidebarRow()
    ensures Actions([Button(NewNote, false), Button(NewFolder, false), Separator, Button(NewWorkspace, false)])
            == [NewNote, NewFolder, NewWorkspace]
  {
    var r := [Button(NewNote, false), Button(NewFolder, false), Separator, Button(NewWorkspace, false)];
    ActionsAt(r, 3);
    ActionsAt(r, 2);
    ActionsAt(r, 1);
    ActionsAt(r, 0);
    assert r[4..] == [] && r[0..] == r;
  }

  /** `Actions` reads the entry at `k` and then the rest. */
  lemma ActionsAt(r: seq<Entry>, k: nat)
    requires k < |r|
    ensures Actions(r[k..]) == (if r[k].Separator? then [] else [r[k].action]) + Actions(r[k + 1..])
  {
    assert r[k..][1..] == r[k + 1..];
  }

  /** A folder menu whose "new folder" entry is enabled belongs to a folder at depth at most 1. */
  lemma NewFolderGate(itemId: Option<string>, folders: seq<Folder>, notes: seq<Note>, k: nat)
    requires Acyclic(folders, notes)
    requires k < |Entries(FolderMenu, itemId, folders, notes)|
    requires Entries(FolderMenu, itemId, folders, notes)[k] == Button(NewFolder, false)
    ensures Given(itemId) && Depth(itemId.value, folders, notes) <= 1
  {
  }

  /**
   * handleRename: nothing without an item id; otherwise the editor is seeded
   * with the title or name of the item of the menu's type, when found, and
   * the menu closes.
   */
  function RenameEffects(kind: MenuKind, itemId: Option<string>, notes: seq<Note>, folders: seq<Folder>,
                         workspaces: seq<Workspace>): (r: seq<Intent>)
    ensures !Given(itemId) ==> r == []
    ensures Given(itemId) ==> 1 <= |r| <= 2 && r[|r| - 1] == CloseMenu
    ensures |r| == 2 ==> r[0].StartRename? && r[0].id == itemId.value
    ensures Given(itemId) && kind == NoteMenu ==>
              (|r| == 2 <==> IsNote(itemId.value, notes))
              && (|r| == 2 ==> exists n :: n in notes && n.id == itemId.value && r[0].value == n.title)
    ensures Given(itemId) && kind == FolderMenu ==>
              (|r| == 2 <==> IsFolder(itemId.value, folders))
              && (|r| == 2 ==> exists f :: f in folders && f.id == itemId.value && r[0].value == f.name)
    ensures Given(itemId) && kind == WorkspaceMenu ==>
              (|r| == 2 <==> exists w :: w in workspaces && w.id == itemId.value)
              && (|r| == 2 ==> exists w :: w in workspaces && w.id == itemId.value && r[0].value == w.name)
    ensures kind == SidebarMenu ==> |r| <= 1
  {
    if !Given(itemId) then []
    else
      var id := itemId.value;
      var seed: Option<string> :=
        match kind
        case NoteMenu => (match FindNote(id, notes) case Some(n) => Some(n.title) case None => None)
        case FolderMenu => (match FindFolder(id, folders) case Some(f) => Some(f.name) case None => None)
        case WorkspaceMenu => (match FindWorkspace(id, workspaces) case Some(w) => Some(w.name) case None => None)
        case SidebarMenu => None;
      (if seed.Some? then [StartRename(id, seed.value)] else []) + [CloseMenu]
  }

  /** handleSetColor: the setter of the menu's type, then close; nothing at all without an item id. */
  function ColorEffects(kind: MenuKind, itemId: Option<string>, color: Option<string>): (r: seq<Intent>)
    ensures !Given(itemId) ==> r == []
    ensures Given(itemId) ==> |r| >= 1 && r[|r| - 1] == CloseMenu
    ensures Given(itemId) && kind == NoteMenu ==> r == [SetNoteColor(itemId.value, color), CloseMenu]
    ensures Given(itemId) && kind == FolderMenu ==> r == [SetFolderColor(itemId.value, color), CloseMenu]
    ensures Given(itemId) && kind == WorkspaceMenu ==> r == [SetWorkspaceColor(itemId.value, color), CloseMenu]
    ensures kind == SidebarMenu ==> |r| <= 1
  {
    if !Given(itemId) then []
    else
      var id := itemId.value;
      match kind
      case NoteMenu => [SetNoteColor(id, color), CloseMenu]
      case FolderMenu => [SetFolderColor(id, color), CloseMenu]
      case WorkspaceMenu => [SetWorkspaceColor(id, color), CloseMenu]
      case SidebarMenu => [CloseMenu]
  }

  /** The custom picker: a note's colour for a note menu, a folder's colour for every other type; the menu stays open. */
  function PickerEffects(kind: MenuKind, itemId: Option<string>, color: string): (r: seq<Intent>)
    ensures |r| <= 1 && (r != [] <==> Given(itemId))
    ensures r != [] && kind == NoteMenu ==> r[0] == SetNoteColor(itemId.value, Some(color))
    ensures r != [] && kind != NoteMenu ==> r[0] == SetFolderColor(itemId.value, Some(color))
  {
    if !Given(itemId) then []
    else if kind == NoteMenu then [SetNoteColor(itemId.value, Some(color))]
    else [SetFolderColor(itemId.value, Some(color))]
  }

  /** An action that only touches an existing item names it. */
  predicate TargetsItem(e: Intent, id: string)
  {
    match e
    case DeleteNote(x) => x == id
    case DeleteFolder(x) => x == id
    case DeleteWorkspace(x) => x == id
    case ExportWorkspace(x) => x == id
    case StartRename(x, _) => x == id
    case AddNote(p) => p == Some(id)
    case AddFolder(_, p) => p == Some(id)
    case _ => false
  }

  /**
   * What clicking an enabled button other than "appearance" calls.  New
   * folders and workspaces get the localised default names passed in.
   */
  function ActionEffects(action: Action, kind: MenuKind, itemId: Option<string>, notes: seq<Note>,
                         folders: seq<Folder>, workspaces: seq<Workspace>,
                         folderName: string, workspaceName: string): (r: seq<Intent>)
    requires action != Appearance
    // every click closes the menu, except a rename without an item id, which does nothing
    ensures r == [] <==> action == Rename && !Given(itemId)
    ensures r != [] ==> r[|r| - 1] == CloseMenu && |r| <= 2
    // without an item id only creations at the root happen
    ensures !Given(itemId) ==>
              forall e :: e in r ==> e == CloseMenu || e == AddNote(None) || e == AddFolder(folderName, None)
                                     || e == AddWorkspace(workspaceName)
    // with one, everything the item's own menu offers is about that item
    ensures Given(itemId) && kind != SidebarMenu && action != NewWorkspace
            && (action in {NewNote, NewFolder} ==> kind == FolderMenu) ==>
              forall k :: 0 <= k < |r| - 1 ==> TargetsItem(r[k], itemId.value)
  {
    match action
    case Rename => RenameEffects(kind, itemId, notes, folders, workspaces)
    case Delete =>
      var del: seq<Intent> :=
        if !Given(itemId) then []
        else if kind == NoteMenu then [DeleteNote(itemId.value)]
        else if kind == FolderMenu then [DeleteFolder(itemId.value)]
        else if kind == WorkspaceMenu then [DeleteWorkspace(itemId.value)]
        else [];
      del + [CloseMenu]
    case Export => (if Given(itemId) then [ExportWorkspace(itemId.value)] else []) + [CloseMenu]
    case NewNote =>
      var under := if kind == FolderMenu && Given(itemId) then itemId else None;
      [AddNote(under), CloseMenu]
    case NewFolder =>
      var under := if kind == FolderMenu && Given(itemId) then itemId else None;
      [AddFolder(folderName, under), CloseMenu]
    case NewWorkspace => [AddWorkspace(workspaceName), CloseMenu]
  }

  /** The colour shown on the "appearance" swatch: the item's own colour, `null` without an item id. */
  function CurrentColor(kind: MenuKind, itemId: Option<string>, notes: seq<Note>, folders: seq<Folder>,
                        workspaces: seq<Workspace>): (c: Ref)
    ensures !Given(itemId) || kind == SidebarMenu ==> c == Null
    ensures Given(itemId) && kind == NoteMenu && !IsNote(itemId.value, notes) ==> c == Absent
    ensures c.Id? ==> Given(itemId)
  {
    if !Given(itemId) then Null
    else
      match kind
      case NoteMenu => (match FindNote(itemId.value, notes) case Some(n) => n.color case None => Absent)
      case FolderMenu => (match FindFolder(itemId.value, folders) case Some(f) => f.color case None => Absent)
      case WorkspaceMenu => (match FindWorkspace(itemId.value, workspaces) case Some(w) => w.color case None => Absent)
      case SidebarMenu => Null
  }

  /** The colour the custom picker starts from. */
  function PickerStart(current: Ref): (s: string)
    ensures s == DefaultPickerColor <==> current.Id? ==> current.id == "" || current.id == DefaultPickerColor
    ensures current.Id? && current.id != "" ==> s == current.id
  {
    if current.Id? && current.id != "" then current.id else DefaultPickerColor
  }

  /** An open context menu. */
  class Menu {
    const x: int
    const y: int
    const kind: MenuKind
    const itemId: Option<string>
    /** Where the menu is drawn. */
    var pos: (int, int)
    var showColorPicker: bool
    /** The store actions and callbacks called so far, in order. */
    var effects: seq<Intent>

    constructor (x: int, y: int, kind: MenuKind, itemId: Option<string>)
      ensures this.x == x && this.y == y && this.kind == kind && this.itemId == itemId
      ensures pos == (x, y) && !showColorPicker && effects == []
    {
      this.x, this.y, this.kind, this.itemId := x, y, kind, itemId;
      pos := (x, y);
      showColorPicker := false;
      effects := [];
    }

    /** The placement effect, given the rendered extent of the menu and of the window. */
    method Place(width: int, height: int, innerWidth: int, innerHeight: int)
      modifies this`pos
      ensures pos == (Clamp(x, width, innerWidth), Clamp(y, height, innerHeight))
    {
      var nx := x;
      var ny := y;
      if x + width > innerWidth {
        nx := innerWidth - width - 8;
      }
      if y + height > innerHeight {
        ny := innerHeight - height - 8;
      }
      pos := (nx, ny);
    }

    /** A click on row `k`: disabled buttons and separators do nothing. */
    method Click(k: nat, notes: seq<Note>, folders: seq<Folder>, workspaces: seq<Workspace>,
                 folderName: string, workspaceName: string)
      requires Acyclic(folders, notes)
      requires k < |Entries(kind, itemId, folders, notes)|
      modifies this`showColorPicker, this`effects
      ensures var e := Entries(kind, itemId, folders, notes)[k];
              if e.Separator? || e.disabled then
                showColorPicker == old(showColorPicker) && effects == old(effects)
              else if e.action == Appearance then
                showColorPicker == !old(showColorPicker) && effects == old(effects)
              else
                showColorPicker == old(showColorPicker)
                && effects == old(effects) + ActionEffects(e.action, kind, itemId, notes, folders, workspaces,
                                                           folderName, workspaceName)
    {
      var e := Entries(kind, itemId, folders, notes)[k];
      if e.Separator? || e.disabled {
        return;
      }
      if e.action == Appearance {
        showColorPicker := !showColorPicker;
      } else {
        effects := effects + ActionEffects(e.action, kind, itemId, notes, folders, workspaces, folderName, workspaceName);
      }
    }

    /** A click on preset swatch `k`. */
    method PickPreset(k: nat)
      requires k < |PresetColors|
      modifies this`effects
      ensures effects == old(effects) + ColorEffects(kind, itemId, PresetColors[k])
    {
      effects := effects + ColorEffects(kind, itemId, PresetColors[k]);
    }

    /** A change in the custom colour picker. */
    method PickCustom(color: string)
      modifies this`effects
      ensures effects == old(effects) + PickerEffects(kind, itemId, color)
    {
      effects := effects + PickerEffects(kind, itemId, color);
    }
  }

  /** Choosing the first preset on an item clears that item's colour with the setter of its type. */
  lemma FirstPresetClears(kind: MenuKind, id: string)
    requires id != "" && kind != SidebarMenu
    ensures var r := ColorEffects(kind, Some(id), PresetColors[0]);
            |r| == 2 && r[1] == CloseMenu
            && (r[0] == SetNoteColor(id, None) || r[0] == SetFolderColor(id, None) || r[0] == SetWorkspaceColor(id, None))
  {
  }

  /** The custom picker on a workspace menu sets a folder colour, unlike the presets of the same menu. */
  lemma WorkspacePickerUsesFolderSetter(id: string, color: string)
    requires id != ""
    ensures PickerEffects(WorkspaceMenu, Some(id), color) == [SetFolderColor(id, Some(color))]
    ensures ColorEffects(WorkspaceMenu, Some(id), Some(color))[0] == SetWorkspaceColor(id, Some(color))
  {
  }
}
