/**
 * Tree queries the sidebar runs over the flat note and folder lists
 * (src/components/sidebar/utils.ts): membership, the depth of an item, and
 * the height of the folder subtree below a folder.
 *
 * The source recurses without a bound, so on cyclic parent links it never
 * returns.  Here the depth walk carries fuel, and `Acyclic` says that every
 * parent chain ends within as many steps as there are items; `Depth` and
 * `SubtreeHeight` are defined under that condition.
 */
module SidebarTree {
  import opened Util
  import opened Entities

  /** `notes.some(n => n.id === id)` */
  function IsNote(id: string, notes: seq<Note>): (b: bool)
    ensures b <==> exists i :: 0 <= i < |notes| && notes[i].id == id
  {
    if notes == [] then false
    else if notes[0].id == id then true
    else
      var b := IsNote(id, notes[1..]);
      assert b ==> exists i :: 0 <= i < |notes| && notes[i].id == id by {
        if b {
          var j :| 0 <= j < |notes| - 1 && notes[1..][j].id == id;
          assert notes[j + 1].id == id;
        }
      }
      b
  }

  /** `folders.some(f => f.id === id)` */
  function IsFolder(id: string, folders: seq<Folder>): (b: bool)
    ensures b <==> exists i :: 0 <= i < |folders| && folders[i].id == id
  {
    if folders == [] then false
    else if folders[0].id == id then true
    else
      var b := IsFolder(id, folders[1..]);
      assert b ==> exists i :: 0 <= i < |folders| && folders[i].id == id by {
        if b {
          var j :| 0 <= j < |folders| - 1 && folders[1..][j].id == id;
          assert folders[j + 1].id == id;
        }
      }
      b
  }

  /** `folders.find(f => f.id === id)`: the first folder with that id. */
  function FindFolder(id: string, folders: seq<Folder>): (r: Option<Folder>)
    ensures r.None? <==> !IsFolder(id, folders)
    ensures r.Some? ==> r.value.id == id && r.value in folders
  {
    if folders == [] then None
    else if folders[0].id == id then Some(folders[0])
    else FindFolder(id, folders[1..])
  }

  /** `notes.find(n => n.id === id)`: the first note with that id. */
  function FindNote(id: string, notes: seq<Note>): (r: Option<Note>)
    ensures r.None? <==> !IsNote(id, notes)
    ensures r.Some? ==> r.value.id == id && r.value in notes
  {
    if notes == [] then None
    else if notes[0].id == id then Some(notes[0])
    else FindNote(id, notes[1..])
  }

  /** With unique note ids, `find` returns the one note carrying the id. */
  lemma {:induction false} FindNoteUnique(notes: seq<Note>, i: nat)
    requires forall a, b :: 0 <= a < |notes| && 0 <= b < |notes| && notes[a].id == notes[b].id ==> a == b
    requires i < |notes|
    ensures FindNote(notes[i].id, notes) == Some(notes[i])
  {
    if i > 0 {
      var tail := notes[1..];
      assert notes[0].id != notes[i].id;
      assert tail[i - 1] == notes[i];
      FindNoteUnique(tail, i - 1);
    }
  }

  /**
   * The parent that the depth walk follows from `id`: the first folder with
   * that id decides, else the first note; a missing, null or empty parent
   * reference ends the walk.
   */
  function ParentOf(id: string, folders: seq<Folder>, notes: seq<Note>): Option<string>
  {
    match FindFolder(id, folders)
    case Some(f) => Truthy(f.parentId)
    case None =>
      match FindNote(id, notes)
      case Some(n) => Truthy(n.folderId)
      case None => None
  }

  /** The depth walk cut off after `fuel` parent steps (`None` when cut off). */
  function DepthWithin(id: string, folders: seq<Folder>, notes: seq<Note>, fuel: nat): (r: Option<nat>)
    ensures r.Some? ==> r.value <= fuel
    decreases fuel
  {
    match ParentOf(id, folders, notes)
    case None => Some(0)
    case Some(p) =>
      if fuel == 0 then None
      else
        match DepthWithin(p, folders, notes, fuel - 1)
        case None => None
        case Some(d) => Some(d + 1)
  }

  function Bound(folders: seq<Folder>, notes: seq<Note>): nat
  {
    |folders| + |notes|
  }

  /** Every parent chain ends within `Bound` steps, i.e. the parent links have no cycle. */
  ghost predicate Acyclic(folders: seq<Folder>, notes: seq<Note>)
  {
    forall id :: DepthWithin(id, folders, notes, Bound(folders, notes)).Some?
  }

  /** `getItemDepth(id, folders, notes)` on acyclic data. */
  function Depth(id: string, folders: seq<Folder>, notes: seq<Note>): (d: nat)
    requires Acyclic(folders, notes)
    ensures d <= Bound(folders, notes)
  {
    DepthWithin(id, folders, notes, Bound(folders, notes)).value
  }

  lemma {:induction false} DepthWithinMore(id: string, folders: seq<Folder>, notes: seq<Note>, k: nat, m: nat)
    requires k <= m && DepthWithin(id, folders, notes, k).Some?
    ensures DepthWithin(id, folders, notes, m) == DepthWithin(id, folders, notes, k)
    decreases k
  {
    match ParentOf(id, folders, notes)
    case None =>
    case Some(p) =>
      DepthWithinMore(p, folders, notes, k - 1, m - 1);
  }

  /** One step of the depth walk: an item with a truthy parent is one deeper than the parent. */
  lemma DepthStep(id: string, folders: seq<Folder>, notes: seq<Note>)
    requires Acyclic(folders, notes)
    ensures ParentOf(id, folders, notes).None? ==> Depth(id, folders, notes) == 0
    ensures ParentOf(id, folders, notes).Some? ==>
              Depth(id, folders, notes) == Depth(ParentOf(id, folders, notes).value, folders, notes) + 1
  {
    var n := Bound(folders, notes);
    if ParentOf(id, folders, notes).Some? {
      var p := ParentOf(id, folders, notes).value;
      assert DepthWithin(id, folders, notes, n).Some?;
      DepthWithinMore(p, folders, notes, n - 1, n);
    }
  }

  /**
   * `Depth` satisfies the three branches of getItemDepth: a folder entry wins
   * over a note entry with the same id, a truthy parent adds one, anything
   * else is at depth 0.
   */
  lemma DepthUnfolds(id: string, folders: seq<Folder>, notes: seq<Note>)
    requires Acyclic(folders, notes)
    ensures FindFolder(id, folders).Some? ==>
              var f := FindFolder(id, folders).value;
              Depth(id, folders, notes) ==
                if f.parentId.Id? && f.parentId.id != "" then Depth(f.parentId.id, folders, notes) + 1 else 0
    ensures FindFolder(id, folders).None? && FindNote(id, notes).Some? ==>
              var n := FindNote(id, notes).value;
              Depth(id, folders, notes) ==
                if n.folderId.Id? && n.folderId.id != "" then Depth(n.folderId.id, folders, notes) + 1 else 0
    ensures !IsFolder(id, folders) && !IsNote(id, notes) ==> Depth(id, folders, notes) == 0
  {
    DepthStep(id, folders, notes);
  }

  /** An item whose parent reference names no folder and no note sits at depth 1. */
  lemma DanglingParentDepth(id: string, p: string, folders: seq<Folder>, notes: seq<Note>)
    requires Acyclic(folders, notes)
    requires ParentOf(id, folders, notes) == Some(p)
    requires !IsFolder(p, folders) && !IsNote(p, notes)
    ensures Depth(id, folders, notes) == 1
  {
    DepthStep(id, folders, notes);
    DepthStep(p, folders, notes);
  }

  /** The folders at positions `i` and `j` carry different ids unless they are the same position. */
  predicate DistinctAt(folders: seq<Folder>, i: int, j: int)
  {
    0 <= i < |folders| && 0 <= j < |folders| ==> (folders[i].id == folders[j].id ==> i == j)
  }

  /** No two folders share an id (the trigger keeps the pairwise fact from firing on every pair of lookups). */
  predicate UniqueFolderIds(folders: seq<Folder>)
  {
    forall i, j {:trigger DistinctAt(folders, i, j)} :: 0 <= i < |folders| && 0 <= j < |folders| ==> DistinctAt(folders, i, j)
  }

  /** Folder lists the subtree height is defined on: unique non-empty ids and no parent cycle. */
  ghost predicate Forest(folders: seq<Folder>)
  {
    UniqueFolderIds(folders)
    && (forall i :: 0 <= i < |folders| ==> folders[i].id != "")
    && Acyclic(folders, [])
  }

  /** With unique folder ids, `find` returns the one folder carrying the id. */
  lemma {:induction false} FindUnique(folders: seq<Folder>, i: nat)
    requires UniqueFolderIds(folders) && i < |folders|
    ensures FindFolder(folders[i].id, folders) == Some(folders[i])
  {
    if i > 0 {
      var tail := folders[1..];
      assert DistinctAt(folders, 0, i);
      assert UniqueFolderIds(tail) by {
        forall a, b ensures DistinctAt(tail, a, b) {
          assert DistinctAt(folders, a + 1, b + 1);
        }
      }
      assert tail[i - 1] == folders[i];
      FindUnique(tail, i - 1);
    }
  }

  /** `folders.filter(f => f.parentId === parent)`, order kept. */
  function ChildFolders(parent: Ref, folders: seq<Folder>): (cs: seq<Folder>)
    ensures forall c :: c in cs <==> c in folders && c.parentId == parent
    ensures |cs| <= |folders|
  {
    if folders == [] then []
    else
      var rest := ChildFolders(parent, folders[1..]);
      if folders[0].parentId == parent then [folders[0]] + rest else rest
  }

  /** Distance from the roots, used as the termination measure of the downward walks. */
  function Measure(parent: Ref, folders: seq<Folder>): nat
    requires Forest(folders)
  {
    if parent.Id? && IsFolder(parent.id, folders) then |folders| - Depth(parent.id, folders, [])
    else |folders| + 1
  }

  lemma ChildMeasure(c: Folder, parent: Ref, folders: seq<Folder>)
    requires Forest(folders)
    requires c in folders && c.parentId == parent
    ensures Measure(Id(c.id), folders) < Measure(parent, folders)
  {
    var i :| 0 <= i < |folders| && folders[i] == c;
    FindUnique(folders, i);
    DepthUnfolds(c.id, folders, []);
    if parent.Id? && IsFolder(parent.id, folders) {
      var k :| 0 <= k < |folders| && folders[k].id == parent.id;
      assert parent.id != "";
    }
  }

  /** `getSubtreeMaxDepth(id, folders)`: 0 without child folders, else one more than the tallest child. */
  function SubtreeHeight(id: string, folders: seq<Folder>): (h: nat)
    requires Forest(folders)
    ensures h == 0 <==> forall i :: 0 <= i < |folders| ==> folders[i].parentId != Id(id)
    decreases Measure(Id(id), folders), 1, 0
  {
    var cs := ChildFolders(Id(id), folders);
    if |cs| == 0 then
      assert forall i :: 0 <= i < |folders| ==> folders[i] !in cs;
      0
    else
      assert cs[0] in folders;
      1 + MaxHeight(Id(id), cs, folders)
  }

  /** `Math.max` over the subtree heights of the sibling folders `cs` (0 when there are none). */
  function MaxHeight(parent: Ref, cs: seq<Folder>, folders: seq<Folder>): nat
    requires Forest(folders)
    requires forall c :: c in cs ==> c in folders && c.parentId == parent
    decreases Measure(parent, folders), 0, |cs|
  {
    if |cs| == 0 then 0
    else
      ChildMeasure(cs[0], parent, folders);
      var a := SubtreeHeight(cs[0].id, folders);
      var b := MaxHeight(parent, cs[1..], folders);
      if a >= b then a else b
  }

  lemma {:induction false} MaxHeightBounds(parent: Ref, cs: seq<Folder>, folders: seq<Folder>)
    requires Forest(folders)
    requires forall c :: c in cs ==> c in folders && c.parentId == parent
    ensures forall c :: c in cs ==> SubtreeHeight(c.id, folders) <= MaxHeight(parent, cs, folders)
    ensures |cs| > 0 ==> exists c :: c in cs && SubtreeHeight(c.id, folders) == MaxHeight(parent, cs, folders)
    decreases |cs|
  {
    if |cs| > 0 {
      MaxHeightBounds(parent, cs[1..], folders);
      forall c | c in cs ensures SubtreeHeight(c.id, folders) <= MaxHeight(parent, cs, folders) {
        if c != cs[0] {
          assert c in cs[1..];
        }
      }
      if |cs| > 1 && SubtreeHeight(cs[0].id, folders) < MaxHeight(parent, cs[1..], folders) {
        var c :| c in cs[1..] && SubtreeHeight(c.id, folders) == MaxHeight(parent, cs[1..], folders);
        assert c in cs;
      }
    }
  }

  /** A folder's subtree is at least one taller than the subtree of each child folder. */
  lemma HeightAboveChild(id: string, c: Folder, folders: seq<Folder>)
    requires Forest(folders)
    requires c in folders && c.parentId == Id(id)
    ensures SubtreeHeight(id, folders) >= 1 + SubtreeHeight(c.id, folders)
  {
    var cs := ChildFolders(Id(id), folders);
    assert c in cs;
    MaxHeightBounds(Id(id), cs, folders);
  }

  /** ... and exactly one taller than its tallest child. */
  lemma HeightOfTallestChild(id: string, folders: seq<Folder>)
    requires Forest(folders)
    requires SubtreeHeight(id, folders) > 0
    ensures exists c :: c in folders && c.parentId == Id(id) && SubtreeHeight(id, folders) == 1 + SubtreeHeight(c.id, folders)
  {
    var cs := ChildFolders(Id(id), folders);
    MaxHeightBounds(Id(id), cs, folders);
  }

  /**
   * `chain` is a downward path of folders starting below folder `top`: each
   * element's parent is the previous element (the first one's parent is `top`).
   */
  predicate Chain(top: string, chain: seq<Folder>, folders: seq<Folder>)
    decreases |chain|
  {
    && |chain| >= 1
    && chain[0] in folders
    && chain[0].parentId == Id(top)
    && (|chain| == 1 || Chain(chain[0].id, chain[1..], folders))
  }

  /** A folder directly below folder `top` is one level deeper than `top`. */
  lemma ChildDepth(top: string, c: Folder, folders: seq<Folder>, notes: seq<Note>)
    requires Forest(folders) && Acyclic(folders, notes)
    requires top != "" && c in folders && c.parentId == Id(top)
    ensures c.id != "" && Depth(c.id, folders, notes) == Depth(top, folders, notes) + 1
  {
    var i :| 0 <= i < |folders| && folders[i] == c;
    FindUnique(folders, i);
    DepthUnfolds(c.id, folders, notes);
  }

  /** A folder `|chain|` levels below `top` is `|chain|` deeper than `top`. */
  lemma {:induction false} DescendantDepth(top: string, chain: seq<Folder>, folders: seq<Folder>, notes: seq<Note>)
    requires Forest(folders) && Acyclic(folders, notes)
    requires top != ""
    requires Chain(top, chain, folders)
    ensures Depth(chain[|chain| - 1].id, folders, notes) == Depth(top, folders, notes) + |chain|
    decreases |chain|
  {
    var c := chain[0];
    ChildDepth(top, c, folders, notes);
    if |chain| > 1 {
      var rest := chain[1..];
      DescendantDepth(c.id, rest, folders, notes);
      assert rest[|rest| - 1] == chain[|chain| - 1];
    }
  }

  /** The subtree below `top` is at least as tall as any downward chain from it. */
  lemma {:induction false} DescendantHeight(top: string, chain: seq<Folder>, folders: seq<Folder>)
    requires Forest(folders)
    requires Chain(top, chain, folders)
    ensures SubtreeHeight(top, folders) >= |chain|
    decreases |chain|
  {
    var c := chain[0];
    HeightAboveChild(top, c, folders);
    if |chain| > 1 {
      DescendantHeight(c.id, chain[1..], folders);
    }
  }
}
