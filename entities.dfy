/**
 * The front end's records (src/types/index.ts), as the sidebar and the store
 * see them.  An optional `string | null` property of a JavaScript object has
 * three states that strict equality tells apart, so it is a `Ref`.
 */
module Entities {
  import opened Util

  /** An optional nullable string property: missing (`undefined`), `null`, or a string. */
  datatype Ref = Absent | Null | Id(id: string)

  /** JavaScript truthiness of a `Ref`: only a non-empty string is truthy. */
  function Truthy(r: Ref): (o: Option<string>)
    ensures o.Some? <==> r.Id? && r.id != ""
    ensures o.Some? ==> o.value == r.id
  {
    if r.Id? && r.id != "" then Some(r.id) else None
  }

  /**
   * A note.  `workspaceId` and `color` are read by the sidebar and the context
   * menu but are not declared in the shared type; a note created by the store
   * has them `Absent`.
   */
  datatype Note = Note(
    id: string,
    title: string,
    content: string,
    folderId: Ref,
    createdAt: int,
    updatedAt: int,
    workspaceId: Ref,
    color: Ref)

  /** A folder; `isExpanded` is an optional boolean, `None` when missing. */
  datatype Folder = Folder(
    id: string,
    name: string,
    parentId: Ref,
    isExpanded: Option<bool>,
    createdAt: int,
    workspaceId: Ref,
    color: Ref)

  /** A workspace as the sidebar and the context menu read it. */
  datatype Workspace = Workspace(id: string, name: string, color: Ref)

  datatype ViewMode = Edit | View

  /** A folder is shown expanded only when `isExpanded` is literally `true`. */
  predicate Expanded(f: Folder)
  {
    f.isExpanded == Some(true)
  }
}
