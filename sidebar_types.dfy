/**
 * Values shared by the sidebar and its context menu
 * (src/components/sidebar/types.ts), and the store actions those components
 * call.  Several of those actions are not part of the store in this model, so
 * a call is recorded as an `Intent` value rather than performed.
 */
module SidebarTypes {
  import opened Util

  /** Where a dragged item would land relative to the item under it. */
  datatype Position = Above | Inside | Below

  datatype DropTarget = DropTarget(id: string, position: Position)

  datatype MenuKind = SidebarMenu | NoteMenu | FolderMenu | WorkspaceMenu

  /** What right-clicking opens: screen position, menu type and the clicked item. */
  datatype MenuRequest = MenuRequest(x: int, y: int, kind: MenuKind, itemId: Option<string>)

  /** A store action or component callback invoked by the sidebar or the context menu. */
  datatype Intent =
    | MoveNoteToFolder(noteId: string, dest: Option<string>)
    | MoveFolderToFolder(folderId: string, dest: Option<string>)
    | ReorderNotes(activeId: string, overId: string)
    | ReorderFolders(activeId: string, overId: string)
    | ToggleFolder(id: string, expanded: Option<bool>)
    | RenameNote(id: string, title: string)
    | RenameFolder(id: string, name: string)
    | RenameWorkspace(id: string, name: string)
    | SetNoteColor(id: string, color: Option<string>)
    | SetFolderColor(id: string, color: Option<string>)
    | SetWorkspaceColor(id: string, color: Option<string>)
    | AddNote(inFolder: Option<string>)
    | AddFolder(name: string, parentId: Option<string>)
    | AddWorkspace(name: string)
    | DeleteNote(id: string)
    | DeleteFolder(id: string)
    | DeleteWorkspace(id: string)
    | ExportWorkspace(id: string)
    | StartRename(id: string, value: string)
    | CloseMenu

  /** JavaScript truthiness of an optional string id. */
  predicate Given(itemId: Option<string>)
  {
    itemId.Some? && itemId.value != ""
  }
}
