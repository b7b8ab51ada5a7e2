/**
 * Exporting one workspace as a zip archive of Markdown files
 * (src-tauri/src/exporter.rs): the workspace filter, the recursive walk that
 * writes each folder's notes and then its subfolders, and the file-name
 * sanitiser.  The archive is a `ZipSink` holding the (path, content) pairs
 * written so far; compression and file I/O are outside the model.
 */
module Exporter {
  import opened Util
  import opened Entities
  import LocalDb

  type NoteRecord = LocalDb.NoteRecord
  type FolderRecord = LocalDb.FolderRecord

  datatype ZipItem = ZipItem(path: string, content: string)

  const UntitledFile: string := "Untitled.md"
  const UntitledFolder: string := "Untitled Folder"

  // ---------------------------------------------------------------------
  // sanitize_filename
  // ---------------------------------------------------------------------

  /**
   * `char::is_alphanumeric` on the Latin script: ASCII letters and digits,
   * the letters and numerals of Latin-1, and the Latin Extended-A, -B and
   * Extended Additional blocks (which hold the Vietnamese letters).
   */
  predicate IsAlphanumeric(c: char)
  {
    || ('0' <= c <= '9') || ('A' <= c <= 'Z') || ('a' <= c <= 'z')
    || c == '\U{00AA}' || c == '\U{00B2}' || c == '\U{00B3}' || c == '\U{00B5}' || c == '\U{00B9}' || c == '\U{00BA}'
    || ('\U{00BC}' <= c <= '\U{00BE}')
    || ('\U{00C0}' <= c <= '\U{00FF}' && c != '\U{00D7}' && c != '\U{00F7}')
    || ('\U{0100}' <= c <= '\U{024F}')
    || ('\U{1E00}' <= c <= '\U{1EFF}')
  }

  /** The characters a sanitised name may hold. */
  predicate Kept(c: char)
  {
    IsAlphanumeric(c) || c == ' ' || c == '-' || c == '_'
  }

  function SanitizeChar(c: char): (d: char)
    ensures Kept(d)
    ensures Kept(c) <==> d == c
  {
    if Kept(c) then c else '_'
  }

  /** Every character of `s` is kept. */
  predicate AllKept(s: string)
  {
    forall k :: 0 <= k < |s| ==> Kept(s[k])
  }

  /** The character map of `sanitize_filename`. */
  function SanitizeChars(name: string): string
  {
    seq(|name|, k requires 0 <= k < |name| => SanitizeChar(name[k]))
  }

  /** `sanitize_filename`: every character outside `Kept` becomes `_`, then white space is trimmed. */
  function Sanitize(name: string): string
  {
    Trim(SanitizeChars(name), RustSpace)
  }

  /** A kept character is never a separator, a dot, or white space other than the space itself. */
  lemma KeptIsPlain(c: char)
    requires Kept(c)
    ensures c != '/' && c != '.' && c != '\\'
    ensures c != ' ' ==> c !in RustSpace
  {
  }

  /**
   * A sanitised name is made of kept characters, is no longer than the name,
   * holds no path separator and no dot, and does not start or end with white space.
   */
  lemma SanitizeSafe(name: string)
    ensures AllKept(Sanitize(name)) && |Sanitize(name)| <= |name|
    ensures '/' !in Sanitize(name) && '.' !in Sanitize(name)
    ensures Sanitize(name) == [] || (Sanitize(name)[0] !in RustSpace && Sanitize(name)[|Sanitize(name)| - 1] !in RustSpace)
  {
    var m := SanitizeChars(name);
    var r := Sanitize(name);
    TrimSpec(m, RustSpace);
    assert forall c :: c in m ==> Kept(c);
    assert forall c :: c in r ==> Kept(c);
    if '/' in r {
      KeptIsPlain('/');
    }
    if '.' in r {
      KeptIsPlain('.');
    }
  }

  /** Sanitising a sanitised name changes nothing. */
  lemma SanitizeIdempotent(name: string)
    ensures Sanitize(Sanitize(name)) == Sanitize(name)
  {
    var r := Sanitize(name);
    SanitizeSafe(name);
    assert SanitizeChars(r) == r;
    TrimUnchanged(r, RustSpace);
  }

  /** A name made only of kept characters, without surrounding spaces, is left as it is. */
  lemma SanitizeKeepsClean(name: string)
    requires AllKept(name)
    requires name == [] || (name[0] != ' ' && name[|name| - 1] != ' ')
    ensures Sanitize(name) == name
  {
    assert SanitizeChars(name) == name;
    if name != [] {
      KeptIsPlain(name[0]);
      KeptIsPlain(name[|name| - 1]);
    }
    TrimUnchanged(name, RustSpace);
  }

  /** Sanitising keeps exactly the names made only of kept characters and without surrounding spaces. */
  lemma SanitizeFixedPoints(name: string)
    ensures Sanitize(name) == name <==> AllKept(name) && (name == [] || (name[0] != ' ' && name[|name| - 1] != ' '))
  {
    SanitizeSafe(name);
    if AllKept(name) && (name == [] || (name[0] != ' ' && name[|name| - 1] != ' ')) {
      SanitizeKeepsClean(name);
    }
  }

  /** The file name of a note: its sanitised title with `.md`, or `Untitled.md`. */
  function NoteFileName(title: string): string
  {
    var safeTitle := Sanitize(title);
    if safeTitle == "" then UntitledFile else safeTitle + ".md"
  }

  /** The path component of a folder: its sanitised name, or `Untitled Folder`. */
  function FolderComponent(name: string): string
  {
    var safeName := Sanitize(name);
    if safeName == "" then UntitledFolder else safeName
  }

  /** A note's file name ends in `.md` and holds no `/`, and it is `Untitled.md` exactly when the title sanitises to nothing. */
  lemma NoteFileNameShape(title: string)
    ensures EndsWith(NoteFileName(title), ".md") && '/' !in NoteFileName(title)
    ensures Sanitize(title) != "" ==> NoteFileName(title) == Sanitize(title) + ".md"
    ensures Sanitize(title) == "" ==> NoteFileName(title) == UntitledFile
  {
    SanitizeSafe(title);
  }

  /** A folder's path component is never empty and holds no `/`. */
  lemma FolderComponentShape(name: string)
    ensures FolderComponent(name) != "" && '/' !in FolderComponent(name)
    ensures Sanitize(name) != "" ==> FolderComponent(name) == Sanitize(name)
  {
    SanitizeSafe(name);
  }

  /** `name` under `current`, which is the empty string at the top of the archive. */
  function SubPath(current: string, name: string): string
  {
    if current == "" then name else current + "/" + name
  }

  // ---------------------------------------------------------------------
  // The walk
  // ---------------------------------------------------------------------

  /**
   * No two folder records share an id.  The folder table's primary key
   * guarantees this for the rows `get_folders` returns.
   */
  predicate Keyed(folders: seq<FolderRecord>)
  {
    forall i, j :: 0 <= i < |folders| && 0 <= j < |folders| && folders[i].id == folders[j].id ==> i == j
  }

  /**
   * The walk has reached `parent` from the top level through the folders
   * `above`, outermost first.  Every call of `export_folder_recursive` is of
   * this kind: the first is for the top level, and each further one is for a
   * child of the folder being walked.
   */
  ghost predicate Reached(parent: Option<string>, above: seq<FolderRecord>, folders: seq<FolderRecord>)
  {
    Keyed(folders) && Linked(None, above, parent, folders)
  }

  /** Two different records of a keyed list have different ids. */
  lemma KeyedIds(folders: seq<FolderRecord>, f: FolderRecord, g: FolderRecord)
    requires Keyed(folders) && f in folders && g in folders && f != g
    ensures f.id != g.id
  {
    var x :| 0 <= x < |folders| && folders[x] == f;
    var y :| 0 <= y < |folders| && folders[y] == g;
    assert x != y;
  }

  /** A chain of folders read position by position. */
  lemma {:induction false} LinkedSteps(parent: Option<string>, chain: seq<FolderRecord>, folderId: Option<string>,
                                       folders: seq<FolderRecord>)
    requires Linked(parent, chain, folderId, folders)
    ensures forall k :: 0 <= k < |chain| ==> chain[k] in folders
    ensures chain != [] ==> chain[0].parentId == parent
    ensures forall k :: 0 < k < |chain| ==> chain[k].parentId == Some(chain[k - 1].id)
    ensures chain == [] ==> folderId == parent
    ensures chain != [] ==> folderId == Some(chain[|chain| - 1].id)
    decreases |chain|
  {
    if chain != [] {
      var rest := chain[1..];
      LinkedSteps(Some(chain[0].id), rest, folderId, folders);
      forall k | 0 < k < |chain|
        ensures chain[k] in folders && chain[k].parentId == Some(chain[k - 1].id)
      {
        assert chain[k] == rest[k - 1];
        if k > 1 {
          assert chain[k - 1] == rest[k - 2];
        }
      }
      if rest != [] {
        assert chain[|chain| - 1] == rest[|rest| - 1];
      }
    }
  }

  /** A chain from the top level never comes back to a folder it has passed. */
  lemma {:induction false} ChainNoRepeat(chain: seq<FolderRecord>, folders: seq<FolderRecord>, i: nat, j: nat)
    requires Keyed(folders) && forall k :: 0 <= k < |chain| ==> chain[k] in folders
    requires chain != [] ==> chain[0].parentId.None?
    requires forall k :: 0 < k < |chain| ==> chain[k].parentId == Some(chain[k - 1].id)
    requires i < j < |chain|
    ensures chain[i] != chain[j]
    decreases i
  {
    if i > 0 {
      ChainNoRepeat(chain, folders, i - 1, j - 1);
      KeyedIds(folders, chain[i - 1], chain[j - 1]);
      assert chain[i].parentId != chain[j].parentId;
    } else {
      assert chain[j].parentId.Some?;
    }
  }

  /** Distinct elements of `s`, as many as `c` holds, are no more than `s` holds. */
  lemma {:induction false} DistinctFits(c: seq<FolderRecord>, s: seq<FolderRecord>)
    requires forall i, j :: 0 <= i < j < |c| ==> c[i] != c[j]
    requires forall k :: 0 <= k < |c| ==> c[k] in s
    ensures |c| <= |s|
    decreases |c|
  {
    if c != [] {
      var x :| 0 <= x < |s| && s[x] == c[0];
      var rest := s[..x] + s[x + 1..];
      var tail := c[1..];
      forall k | 0 <= k < |tail|
        ensures tail[k] in rest
      {
        var y :| 0 <= y < |s| && s[y] == c[k + 1];
        assert c[0] != c[k + 1];
        if y < x {
          assert rest[y] == s[y];
        } else {
          assert rest[y - 1] == s[y];
        }
      }
      forall i, j | 0 <= i < j < |tail|
        ensures tail[i] != tail[j]
      {
        assert tail[i] == c[i + 1] && tail[j] == c[j + 1];
      }
      DistinctFits(tail, rest);
    }
  }

  /** A chain from the top level of a keyed list is no longer than the list. */
  lemma ChainFits(above: seq<FolderRecord>, parent: Option<string>, folders: seq<FolderRecord>)
    requires Reached(parent, above, folders)
    ensures |above| <= |folders|
  {
    LinkedSteps(None, above, parent, folders);
    forall i, j | 0 <= i < j < |above|
      ensures above[i] != above[j]
    {
      ChainNoRepeat(above, folders, i, j);
    }
    DistinctFits(above, folders);
  }

  /** A chain extended by one more folder at its lower end. */
  lemma {:induction false} LinkedSnoc(parent: Option<string>, chain: seq<FolderRecord>, folderId: Option<string>,
                                      f: FolderRecord, folders: seq<FolderRecord>)
    requires Linked(parent, chain, folderId, folders) && f in folders && f.parentId == folderId
    ensures Linked(parent, chain + [f], Some(f.id), folders)
    decreases |chain|
  {
    if chain == [] {
      assert ([f])[1..] == [];
    } else {
      LinkedSnoc(Some(chain[0].id), chain[1..], folderId, f, folders);
      assert (chain + [f])[1..] == chain[1..] + [f];
    }
  }

  /**
   * Walking on from `parent` into its child `folders[i]` keeps the walk on a
   * chain from the top level, one folder longer, which still fits in the
   * list: the recursion ends whatever parent links the rows hold.
   */
  lemma ChildReached(parent: Option<string>, above: seq<FolderRecord>, folders: seq<FolderRecord>, i: nat)
    requires Reached(parent, above, folders) && i < |folders| && folders[i].parentId == parent
    ensures Reached(Some(folders[i].id), above + [folders[i]], folders)
    ensures |above| < |folders|
  {
    LinkedSnoc(None, above, parent, folders[i], folders);
    ChainFits(above + [folders[i]], Some(folders[i].id), folders);
  }

  /**
   * A note the walk writes, with the folders it descends through from the
   * folder where the walk started, outermost first.
   */
  datatype Placement = Placement(note: NoteRecord, chain: seq<FolderRecord>)

  /** The first loop of `export_folder_recursive`: the notes whose folder is `parent`, in order. */
  function NotePlacements(parent: Option<string>, notes: seq<NoteRecord>): (r: seq<Placement>)
    ensures |r| <= |notes|
  {
    if notes == [] then []
    else
      var n := notes[|notes| - 1];
      NotePlacements(parent, notes[..|notes| - 1]) + if n.folderId == parent then [Placement(n, [])] else []
  }

  /** What the walk of the subfolder `f` writes, seen from its parent: `f` heads every chain. */
  function Beneath(f: FolderRecord, ps: seq<Placement>): (r: seq<Placement>)
    ensures |r| == |ps|
  {
    if ps == [] then []
    else
      var last := ps[|ps| - 1];
      Beneath(f, ps[..|ps| - 1]) + [Placement(last.note, [f] + last.chain)]
  }

  /** Beneath `f`, the `k`-th placement is the `k`-th of `ps` with `f` in front of its chain. */
  lemma {:induction false} BeneathAt(f: FolderRecord, ps: seq<Placement>, k: nat)
    requires k < |ps|
    ensures Beneath(f, ps)[k] == Placement(ps[k].note, [f] + ps[k].chain)
    decreases |ps|
  {
    var front := ps[..|ps| - 1];
    if k < |ps| - 1 {
      BeneathAt(f, front, k);
    }
  }

  /** Everything the walk writes for the folder `parent` (`None` for the top level), in order. */
  function Placed(parent: Option<string>, above: seq<FolderRecord>, notes: seq<NoteRecord>, folders: seq<FolderRecord>)
    : seq<Placement>
    decreases |folders| - |above|, 1, 0
  {
    NotePlacements(parent, notes) + SubfolderPlacements(parent, above, |folders|, notes, folders)
  }

  /**
   * The second loop, over the first `k` folders: each child of `parent` is
   * walked in turn.  The walk reached `parent` through the folders `above`.
   */
  function SubfolderPlacements(parent: Option<string>, above: seq<FolderRecord>, k: nat, notes: seq<NoteRecord>,
                               folders: seq<FolderRecord>): seq<Placement>
    requires k <= |folders|
    decreases |folders| - |above|, 0, k
  {
    if k == 0 then []
    else SubfolderPlacements(parent, above, k - 1, notes, folders) + ChildPlacements(parent, above, k - 1, notes, folders)
  }

  /**
   * The round of the second loop on `folders[i]`: the walk of that folder,
   * beneath it, when it is a child of `parent`.  On a walk from the top
   * level `above` is shorter than the folder list whenever `parent` has a
   * child (`ChildReached`), so the length test never cuts the walk short;
   * it only makes the definition end on every input.
   */
  function ChildPlacements(parent: Option<string>, above: seq<FolderRecord>, i: nat, notes: seq<NoteRecord>,
                           folders: seq<FolderRecord>): seq<Placement>
    requires i < |folders|
    decreases |folders| - |above|, 0, 0
  {
    var f := folders[i];
    if f.parentId == parent && |above| < |folders| then Beneath(f, Placed(Some(f.id), above + [f], notes, folders))
    else []
  }

  /** On a walk from the top level, the length test in `ChildPlacements` always passes. */
  lemma ChildPlacementsOf(parent: Option<string>, above: seq<FolderRecord>, i: nat, notes: seq<NoteRecord>,
                          folders: seq<FolderRecord>)
    requires Reached(parent, above, folders) && i < |folders|
    ensures folders[i].parentId == parent ==>
              ChildPlacements(parent, above, i, notes, folders) ==
              Beneath(folders[i], Placed(Some(folders[i].id), above + [folders[i]], notes, folders))
    ensures folders[i].parentId != parent ==> ChildPlacements(parent, above, i, notes, folders) == []
  {
    if folders[i].parentId == parent {
      ChildReached(parent, above, folders, i);
    }
  }

  // ---------------------------------------------------------------------
  // Paths
  // ---------------------------------------------------------------------

  function Components(chain: seq<FolderRecord>): (r: seq<string>)
    ensures |r| == |chain| && forall k :: 0 <= k < |r| ==> r[k] == FolderComponent(chain[k].name)
  {
    seq(|chain|, k requires 0 <= k < |chain| => FolderComponent(chain[k].name))
  }

  /** The path of `file` below the components `comps` below `current`. */
  function PathUnder(current: string, comps: seq<string>, file: string): string
    decreases |comps|
  {
    if comps == [] then SubPath(current, file) else PathUnder(SubPath(current, comps[0]), comps[1..], file)
  }

  /** The archive entry of a placement when the walk started at `current`. */
  function ItemOf(current: string, p: Placement): ZipItem
  {
    ZipItem(PathUnder(current, Components(p.chain), NoteFileName(p.note.title)), p.note.content)
  }

  function ItemAt(current: string): Placement -> ZipItem
  {
    p => ItemOf(current, p)
  }

  /** The archive entries of `ps`, in order. */
  function Render(item: Placement -> ZipItem, ps: seq<Placement>): (r: seq<ZipItem>)
    ensures |r| == |ps|
  {
    if ps == [] then [] else Render(item, ps[..|ps| - 1]) + [item(ps[|ps| - 1])]
  }

  /** What `export_folder_recursive(parent, current)` adds to the archive. */
  function ExportedUnder(parent: Option<string>, above: seq<FolderRecord>, notes: seq<NoteRecord>, folders: seq<FolderRecord>, current: string)
    : seq<ZipItem>
  {
    Render(ItemAt(current), Placed(parent, above, notes, folders))
  }

  lemma {:induction false} RenderAppend(item: Placement -> ZipItem, a: seq<Placement>, b: seq<Placement>)
    ensures Render(item, a + b) == Render(item, a) + Render(item, b)
    decreases |b|
  {
    if b != [] {
      var front := b[..|b| - 1];
      assert (a + b)[..|a + b| - 1] == a + front;
      assert (a + b)[|a + b| - 1] == b[|b| - 1];
      RenderAppend(item, a, front);
      var last := [item(b[|b| - 1])];
      assert Render(item, a + b) == Render(item, a + front) + last;
      assert Render(item, b) == Render(item, front) + last;
    } else {
      assert a + b == a;
    }
  }

  /** Rendering two sequences element by element to the same entries gives the same archive. */
  lemma {:induction false} RenderPointwise(f: Placement -> ZipItem, ps: seq<Placement>, g: Placement -> ZipItem,
                                           qs: seq<Placement>)
    requires |ps| == |qs| && forall k :: 0 <= k < |ps| ==> f(ps[k]) == g(qs[k])
    ensures Render(f, ps) == Render(g, qs)
    decreases |ps|
  {
    if ps != [] {
      RenderPointwise(f, ps[..|ps| - 1], g, qs[..|qs| - 1]);
    }
  }

  /** A note placed beneath `f` is written where the walk of `f` itself writes it. */
  lemma ItemBeneath(current: string, f: FolderRecord, p: Placement)
    ensures ItemOf(current, Placement(p.note, [f] + p.chain)) == ItemOf(SubPath(current, FolderComponent(f.name)), p)
  {
    var comps := Components([f] + p.chain);
    assert comps[0] == FolderComponent(f.name) && comps[1..] == Components(p.chain);
  }

  /** Walking a subfolder from its own path writes what its parent sees beneath it. */
  lemma RenderBeneath(current: string, f: FolderRecord, ps: seq<Placement>)
    ensures Render(ItemAt(current), Beneath(f, ps)) == Render(ItemAt(SubPath(current, FolderComponent(f.name))), ps)
  {
    var below := SubPath(current, FolderComponent(f.name));
    forall k | 0 <= k < |ps|
      ensures ItemAt(current)(Beneath(f, ps)[k]) == ItemAt(below)(ps[k])
    {
      BeneathAt(f, ps, k);
      ItemBeneath(current, f, ps[k]);
    }
    RenderPointwise(ItemAt(current), Beneath(f, ps), ItemAt(below), ps);
  }

  lemma {:induction false} RenderMembers(item: Placement -> ZipItem, ps: seq<Placement>, x: ZipItem)
    ensures x in Render(item, ps) <==> exists p :: p in ps && x == item(p)
    decreases |ps|
  {
    if ps != [] {
      var front := ps[..|ps| - 1];
      RenderMembers(item, front, x);
      assert forall p :: p in ps <==> p in front || p == ps[|ps| - 1] by {
        assert ps == front + [ps[|ps| - 1]];
      }
    }
  }

  /** One more note of the first loop. */
  lemma NoteStep(parent: Option<string>, notes: seq<NoteRecord>, i: nat, item: Placement -> ZipItem)
    requires i < |notes|
    ensures notes[i].folderId == parent ==>
              Render(item, NotePlacements(parent, notes[..i + 1])) ==
              Render(item, NotePlacements(parent, notes[..i])) + [item(Placement(notes[i], []))]
    ensures notes[i].folderId != parent ==>
              Render(item, NotePlacements(parent, notes[..i + 1])) == Render(item, NotePlacements(parent, notes[..i]))
  {
    assert notes[..i + 1][..i] == notes[..i];
    var n := notes[i];
    if n.folderId == parent {
      RenderAppend(item, NotePlacements(parent, notes[..i]), [Placement(n, [])]);
    } else {
      assert NotePlacements(parent, notes[..i + 1]) == NotePlacements(parent, notes[..i]) + [];
      assert NotePlacements(parent, notes[..i]) + [] == NotePlacements(parent, notes[..i]);
    }
  }

  /** A note of the folder being walked is written at its file name below `current`. */
  lemma NoteEntry(current: string, n: NoteRecord)
    ensures ItemAt(current)(Placement(n, [])) == ZipItem(SubPath(current, NoteFileName(n.title)), n.content)
  {
    assert Components([]) == [];
  }

  /** One more folder of the second loop. */
  lemma SubfolderStep(parent: Option<string>, above: seq<FolderRecord>, k: nat, notes: seq<NoteRecord>, folders: seq<FolderRecord>,
                      item: Placement -> ZipItem)
    requires Reached(parent, above, folders) && 0 < k <= |folders|
    ensures var f := folders[k - 1];
            f.parentId == parent ==>
              Render(item, SubfolderPlacements(parent, above, k, notes, folders)) ==
              Render(item, SubfolderPlacements(parent, above, k - 1, notes, folders)) +
              Render(item, Beneath(f, Placed(Some(f.id), above + [f], notes, folders)))
    ensures folders[k - 1].parentId != parent ==>
              Render(item, SubfolderPlacements(parent, above, k, notes, folders)) ==
              Render(item, SubfolderPlacements(parent, above, k - 1, notes, folders))
  {
    var f := folders[k - 1];
    var before := SubfolderPlacements(parent, above, k - 1, notes, folders);
    ChildPlacementsOf(parent, above, k - 1, notes, folders);
    if f.parentId == parent {
      RenderAppend(item, before, Beneath(f, Placed(Some(f.id), above + [f], notes, folders)));
    } else {
      assert SubfolderPlacements(parent, above, k, notes, folders) == before + [] == before;
    }
  }

  /**
   * Walking the child folder `folders[k - 1]` below its own path writes exactly
   * what the second loop places beneath that child.
   */
  lemma SubfolderChildStep(parent: Option<string>, above: seq<FolderRecord>, k: nat, notes: seq<NoteRecord>, folders: seq<FolderRecord>,
                           current: string)
    requires Reached(parent, above, folders) && 0 < k <= |folders| && folders[k - 1].parentId == parent
    ensures Render(ItemAt(current), SubfolderPlacements(parent, above, k, notes, folders)) ==
            Render(ItemAt(current), SubfolderPlacements(parent, above, k - 1, notes, folders)) +
            ExportedUnder(Some(folders[k - 1].id), above + [folders[k - 1]], notes, folders,
                          SubPath(current, FolderComponent(folders[k - 1].name)))
  {
    var f := folders[k - 1];
    SubfolderStep(parent, above, k, notes, folders, ItemAt(current));
    RenderBeneath(current, f, Placed(Some(f.id), above + [f], notes, folders));
  }

  /** What the second loop has written after its first `k` rounds, round by round. */
  ghost function SubfolderItems(parent: Option<string>, above: seq<FolderRecord>, k: nat, notes: seq<NoteRecord>, folders: seq<FolderRecord>,
                                current: string): seq<ZipItem>
    requires k <= |folders|
  {
    if k == 0 then []
    else
      var f := folders[k - 1];
      SubfolderItems(parent, above, k - 1, notes, folders, current) +
      if f.parentId == parent then ExportedUnder(Some(f.id), above + [f], notes, folders, SubPath(current, FolderComponent(f.name)))
      else []
  }

  /** Each round of the loop writes the rendering of what the second loop places in that round. */
  lemma SubfolderItemsStep(parent: Option<string>, above: seq<FolderRecord>, k: nat, notes: seq<NoteRecord>,
                           folders: seq<FolderRecord>, current: string)
    requires Reached(parent, above, folders) && 0 < k <= |folders|
    requires SubfolderItems(parent, above, k - 1, notes, folders, current) ==
             Render(ItemAt(current), SubfolderPlacements(parent, above, k - 1, notes, folders))
    ensures SubfolderItems(parent, above, k, notes, folders, current) ==
            Render(ItemAt(current), SubfolderPlacements(parent, above, k, notes, folders))
  {
    if folders[k - 1].parentId == parent {
      ChildItemsStep(parent, above, k, notes, folders, current);
    } else {
      OtherItemsStep(parent, above, k, notes, folders, current);
    }
  }

  lemma ChildItemsStep(parent: Option<string>, above: seq<FolderRecord>, k: nat, notes: seq<NoteRecord>,
                       folders: seq<FolderRecord>, current: string)
    requires Reached(parent, above, folders) && 0 < k <= |folders| && folders[k - 1].parentId == parent
    requires SubfolderItems(parent, above, k - 1, notes, folders, current) ==
             Render(ItemAt(current), SubfolderPlacements(parent, above, k - 1, notes, folders))
    ensures SubfolderItems(parent, above, k, notes, folders, current) ==
            Render(ItemAt(current), SubfolderPlacements(parent, above, k, notes, folders))
  {
    SubfolderChildStep(parent, above, k, notes, folders, current);
    ChildItems(parent, above, k, notes, folders, current);
  }

  /** A round on a child folder appends the child's subtree under the child's path. */
  lemma ChildItems(parent: Option<string>, above: seq<FolderRecord>, k: nat, notes: seq<NoteRecord>,
                   folders: seq<FolderRecord>, current: string)
    requires Reached(parent, above, folders) && 0 < k <= |folders| && folders[k - 1].parentId == parent
    ensures SubfolderItems(parent, above, k, notes, folders, current) ==
            SubfolderItems(parent, above, k - 1, notes, folders, current) +
            ExportedUnder(Some(folders[k - 1].id), above + [folders[k - 1]], notes, folders,
                          SubPath(current, FolderComponent(folders[k - 1].name)))
  {
  }

  lemma OtherItemsStep(parent: Option<string>, above: seq<FolderRecord>, k: nat, notes: seq<NoteRecord>,
                       folders: seq<FolderRecord>, current: string)
    requires Reached(parent, above, folders) && 0 < k <= |folders| && folders[k - 1].parentId != parent
    requires SubfolderItems(parent, above, k - 1, notes, folders, current) ==
             Render(ItemAt(current), SubfolderPlacements(parent, above, k - 1, notes, folders))
    ensures SubfolderItems(parent, above, k, notes, folders, current) ==
            Render(ItemAt(current), SubfolderPlacements(parent, above, k, notes, folders))
  {
    var before := SubfolderItems(parent, above, k - 1, notes, folders, current);
    SubfolderStep(parent, above, k, notes, folders, ItemAt(current));
    assert SubfolderItems(parent, above, k, notes, folders, current) == before + [] == before;
  }

  class ZipSink {
    var entries: seq<ZipItem>

    constructor ()
      ensures entries == []
    {
      entries := [];
    }
  }

  /** export_folder_recursive: appends what `ExportedUnder` describes to the archive. */
  method ExportFolder(parent: Option<string>, ghost above: seq<FolderRecord>, notes: seq<NoteRecord>,
                      folders: seq<FolderRecord>, zip: ZipSink, current: string)
    requires Reached(parent, above, folders)
    modifies zip
    ensures zip.entries == old(zip.entries) + ExportedUnder(parent, above, notes, folders, current)
    decreases |folders| - |above|, 1, 0
  {
    ghost var start := zip.entries;
    var i := 0;
    assert notes[..0] == [];
    assert Render(ItemAt(current), NotePlacements(parent, notes[..0])) == [];
    assert start + [] == start;
    while i < |notes|
      invariant 0 <= i <= |notes|
      invariant zip.entries == start + Render(ItemAt(current), NotePlacements(parent, notes[..i]))
    {
      NoteStep(parent, notes, i, ItemAt(current));
      NoteEntry(current, notes[i]);
      var note := notes[i];
      if note.folderId == parent {
        var safeTitle := Sanitize(note.title);
        var filename := if safeTitle == "" then UntitledFile else safeTitle + ".md";
        var zipPath := if current == "" then filename else current + "/" + filename;
        assert zipPath == SubPath(current, NoteFileName(note.title));
        AppendAssoc(start, Render(ItemAt(current), NotePlacements(parent, notes[..i])), [ZipItem(zipPath, note.content)]);
        zip.entries := zip.entries + [ZipItem(zipPath, note.content)];
        assert ItemAt(current)(Placement(notes[i], [])) == ZipItem(zipPath, note.content);
        assert zip.entries == start + (Render(ItemAt(current), NotePlacements(parent, notes[..i])) + [ZipItem(zipPath, note.content)]);
      }
      assert zip.entries == start + Render(ItemAt(current), NotePlacements(parent, notes[..i + 1]));
      i := i + 1;
    }
    assert notes[..i] == notes;
    ghost var ns := Render(ItemAt(current), NotePlacements(parent, notes));
    ExportSubfolders(parent, above, notes, folders, zip, current);
    ghost var ss := Render(ItemAt(current), SubfolderPlacements(parent, above, |folders|, notes, folders));
    RenderAppend(ItemAt(current), NotePlacements(parent, notes), SubfolderPlacements(parent, above, |folders|, notes, folders));
    AppendAssoc(start, ns, ss);
  }

  /** The path of a child folder's directory: the parent path, `/`, and the sanitised name or `Untitled Folder`. */
  method ChildFolderPath(current: string, name: string) returns (subfolderPath: string)
    ensures subfolderPath == SubPath(current, FolderComponent(name))
  {
    var safeName := Sanitize(name);
    var folderName := if safeName == "" then UntitledFolder else safeName;
    subfolderPath := if current == "" then folderName else current + "/" + folderName;
  }

  /** The second loop of export_folder_recursive: each child folder of `parent`, recursively. */
  method ExportSubfolders(parent: Option<string>, ghost above: seq<FolderRecord>, notes: seq<NoteRecord>, folders: seq<FolderRecord>, zip: ZipSink,
                          current: string)
    requires Reached(parent, above, folders)
    modifies zip
    ensures zip.entries == old(zip.entries) + Render(ItemAt(current), SubfolderPlacements(parent, above, |folders|, notes, folders))
    decreases |folders| - |above|, 0, 1
  {
    ghost var start := zip.entries;
    assert start + [] == start;
    for j := 0 to |folders|
      invariant zip.entries == start + SubfolderItems(parent, above, j, notes, folders, current)
      invariant SubfolderItems(parent, above, j, notes, folders, current) ==
                Render(ItemAt(current), SubfolderPlacements(parent, above, j, notes, folders))
    {
      ExportSubfolder(parent, above, j, notes, folders, zip, current, start);
      SubfolderItemsStep(parent, above, j + 1, notes, folders, current);
    }
  }

  /**
   * One round of the second loop: when `folders[j]` is a child of `parent`, its
   * subtree goes into the archive under the child's own path; otherwise nothing.
   */
  method ExportSubfolder(parent: Option<string>, ghost above: seq<FolderRecord>, j: nat, notes: seq<NoteRecord>, folders: seq<FolderRecord>,
                         zip: ZipSink, current: string, ghost start: seq<ZipItem>)
    requires Reached(parent, above, folders) && j < |folders|
    requires zip.entries == start + SubfolderItems(parent, above, j, notes, folders, current)
    modifies zip
    ensures zip.entries == start + SubfolderItems(parent, above, j + 1, notes, folders, current)
    decreases |folders| - |above|, 0, 0
  {
    var folder := folders[j];
    if folder.parentId == parent {
      var subfolderPath := ChildFolderPath(current, folder.name);
      ChildReached(parent, above, folders, j);
      ExportFolder(Some(folder.id), above + [folder], notes, folders, zip, subfolderPath);
      AppendAssoc(start, SubfolderItems(parent, above, j, notes, folders, current),
                  ExportedUnder(Some(folder.id), above + [folder], notes, folders, subfolderPath));
    } else {
      assert SubfolderItems(parent, above, j + 1, notes, folders, current) == SubfolderItems(parent, above, j, notes, folders, current) + [];
    }
  }

  // ---------------------------------------------------------------------
  // The workspace
  // ---------------------------------------------------------------------

  function WorkspaceNotes(notes: seq<NoteRecord>, ws: string): (r: seq<NoteRecord>)
    ensures forall n :: n in r <==> n in notes && n.workspaceId == ws
  {
    if notes == [] then []
    else
      var rest := WorkspaceNotes(notes[1..], ws);
      assert forall n :: n in notes <==> n == notes[0] || n in notes[1..];
      if notes[0].workspaceId == ws then [notes[0]] + rest else rest
  }

  function WorkspaceFolders(folders: seq<FolderRecord>, ws: string): (r: seq<FolderRecord>)
    ensures forall f :: f in r <==> f in folders && f.workspaceId == ws
  {
    if folders == [] then []
    else
      var rest := WorkspaceFolders(folders[1..], ws);
      assert forall f :: f in folders <==> f == folders[0] || f in folders[1..];
      if folders[0].workspaceId == ws then [folders[0]] + rest else rest
  }

  /** The archive `export_workspace_logic` writes for the workspace `ws`. */
  function ExportSpec(ws: string, notes: seq<NoteRecord>, folders: seq<FolderRecord>): seq<ZipItem>
  {
    ExportedUnder(None, [], WorkspaceNotes(notes, ws), WorkspaceFolders(folders, ws), "")
  }

  /**
   * export_workspace_logic, given the rows `get_notes` and `get_folders`
   * return.  The folder ids are unique (the table's primary key); the parent
   * links may form cycles, and the walk still ends.
   */
  method ExportWorkspace(ws: string, notes: seq<NoteRecord>, folders: seq<FolderRecord>) returns (zip: ZipSink)
    requires Keyed(WorkspaceFolders(folders, ws))
    ensures fresh(zip) && zip.entries == ExportSpec(ws, notes, folders)
  {
    var wsNotes := WorkspaceNotes(notes, ws);
    var wsFolders := WorkspaceFolders(folders, ws);
    zip := new ZipSink();
    ExportFolder(None, [], wsNotes, wsFolders, zip, "");
  }

  // ---------------------------------------------------------------------
  // What the archive holds
  // ---------------------------------------------------------------------

  /**
   * `chain` is a path of folders from `parent` down to the folder `folderId`
   * (empty when `folderId` is `parent` itself).
   */
  ghost predicate Linked(parent: Option<string>, chain: seq<FolderRecord>, folderId: Option<string>,
                         folders: seq<FolderRecord>)
    decreases |chain|
  {
    if chain == [] then folderId == parent
    else chain[0] in folders && chain[0].parentId == parent && Linked(Some(chain[0].id), chain[1..], folderId, folders)
  }

  /** A chain from a child folder, with that child in front, is a chain from its parent. */
  lemma LinkedCons(parent: Option<string>, f: FolderRecord, chain: seq<FolderRecord>, folderId: Option<string>,
                   folders: seq<FolderRecord>)
    requires f in folders && f.parentId == parent && Linked(Some(f.id), chain, folderId, folders)
    ensures Linked(parent, [f] + chain, folderId, folders)
  {
    assert ([f] + chain)[1..] == chain;
  }

  /** One more folder of the second loop adds what its round places. */
  lemma SubfolderMembers(parent: Option<string>, above: seq<FolderRecord>, k: nat, notes: seq<NoteRecord>,
                         folders: seq<FolderRecord>, p: Placement)
    requires 0 < k <= |folders|
    ensures p in SubfolderPlacements(parent, above, k, notes, folders) <==>
              p in SubfolderPlacements(parent, above, k - 1, notes, folders) ||
              p in ChildPlacements(parent, above, k - 1, notes, folders)
  {
  }

  /** Beneath `f` are exactly the placements of `ps` with `f` put in front of their chains. */
  lemma BeneathMembers(f: FolderRecord, ps: seq<Placement>, p: Placement)
    ensures p in Beneath(f, ps) <==> p.chain != [] && p.chain[0] == f && Placement(p.note, p.chain[1..]) in ps
  {
    var b := Beneath(f, ps);
    if p in b {
      var idx :| 0 <= idx < |b| && b[idx] == p;
      BeneathAt(f, ps, idx);
      assert p.chain[1..] == ps[idx].chain;
    }
    if p.chain != [] && p.chain[0] == f && Placement(p.note, p.chain[1..]) in ps {
      var idx :| 0 <= idx < |ps| && ps[idx] == Placement(p.note, p.chain[1..]);
      BeneathAt(f, ps, idx);
      assert [f] + p.chain[1..] == p.chain;
      assert b[idx] == p;
    }
  }

  /** The first loop places exactly the notes of `parent`, with no folder above them. */
  lemma {:induction false} NotePlacementsMembers(parent: Option<string>, notes: seq<NoteRecord>, p: Placement)
    ensures p in NotePlacements(parent, notes) <==> p.note in notes && p.note.folderId == parent && p.chain == []
    decreases |notes|
  {
    if notes != [] {
      var front := notes[..|notes| - 1];
      NotePlacementsMembers(parent, front, p);
      assert notes == front + [notes[|notes| - 1]];
    }
  }

  /** Everything the walk of `parent` places is a note linked to `parent` by its chain. */
  lemma {:induction false} PlacedSound(parent: Option<string>, above: seq<FolderRecord>, notes: seq<NoteRecord>,
                                       folders: seq<FolderRecord>, p: Placement)
    requires p in Placed(parent, above, notes, folders)
    ensures p.note in notes && Linked(parent, p.chain, p.note.folderId, folders)
    decreases |folders| - |above|, 1, 0
  {
    if p in NotePlacements(parent, notes) {
      NotePlacementsMembers(parent, notes, p);
    } else {
      SubfolderSound(parent, above, |folders|, notes, folders, p);
    }
  }

  lemma SubfolderSound(parent: Option<string>, above: seq<FolderRecord>, k: nat, notes: seq<NoteRecord>,
                       folders: seq<FolderRecord>, p: Placement)
    requires k <= |folders|
    requires p in SubfolderPlacements(parent, above, k, notes, folders)
    ensures p.note in notes && Linked(parent, p.chain, p.note.folderId, folders)
    decreases |folders| - |above|, 0, 1
  {
    SubfolderOrigin(parent, above, k, notes, folders, p);
    var i :| 0 <= i < k && p in ChildPlacements(parent, above, i, notes, folders);
    ChildSound(parent, above, i, notes, folders, p);
  }

  /** Every placement of the second loop comes from the round of one folder. */
  lemma {:induction false} SubfolderOrigin(parent: Option<string>, above: seq<FolderRecord>, k: nat,
                                           notes: seq<NoteRecord>, folders: seq<FolderRecord>, p: Placement)
    requires k <= |folders|
    requires p in SubfolderPlacements(parent, above, k, notes, folders)
    ensures exists i :: 0 <= i < k && p in ChildPlacements(parent, above, i, notes, folders)
    decreases k
  {
    assert k != 0;
    SubfolderMembers(parent, above, k, notes, folders, p);
    if p in SubfolderPlacements(parent, above, k - 1, notes, folders) {
      SubfolderOrigin(parent, above, k - 1, notes, folders, p);
    }
  }

  /** What the round of `folders[i]` places is linked to `parent` through that folder, a child of `parent`. */
  lemma {:induction false} ChildSound(parent: Option<string>, above: seq<FolderRecord>, i: nat, notes: seq<NoteRecord>,
                                      folders: seq<FolderRecord>, p: Placement)
    requires i < |folders| && p in ChildPlacements(parent, above, i, notes, folders)
    ensures folders[i].parentId == parent
    ensures p.note in notes && Linked(parent, p.chain, p.note.folderId, folders)
    decreases |folders| - |above|, 0, 0
  {
    var f := folders[i];
    assert f.parentId == parent && |above| < |folders|;
    BeneathMembers(f, Placed(Some(f.id), above + [f], notes, folders), p);
    var q := Placement(p.note, p.chain[1..]);
    PlacedSound(Some(f.id), above + [f], notes, folders, q);
    LinkedCons(parent, f, q.chain, q.note.folderId, folders);
    assert [f] + q.chain == p.chain;
  }

  /** The second loop keeps whatever the round of an earlier folder placed. */
  lemma {:induction false} SubfolderComplete(parent: Option<string>, above: seq<FolderRecord>, k: nat,
                                             notes: seq<NoteRecord>, folders: seq<FolderRecord>, i: nat, p: Placement)
    requires i < k <= |folders|
    requires p in ChildPlacements(parent, above, i, notes, folders)
    ensures p in SubfolderPlacements(parent, above, k, notes, folders)
    decreases k
  {
    SubfolderMembers(parent, above, k, notes, folders, p);
    if i + 1 < k {
      SubfolderComplete(parent, above, k - 1, notes, folders, i, p);
    }
  }

  /** The round on the child folder `folders[i]` places everything its own walk places, beneath it. */
  lemma ChildComplete(parent: Option<string>, above: seq<FolderRecord>, i: nat, notes: seq<NoteRecord>,
                      folders: seq<FolderRecord>, q: Placement)
    requires Reached(parent, above, folders) && i < |folders| && folders[i].parentId == parent
    requires q in Placed(Some(folders[i].id), above + [folders[i]], notes, folders)
    ensures Placement(q.note, [folders[i]] + q.chain) in ChildPlacements(parent, above, i, notes, folders)
  {
    var f := folders[i];
    var p := Placement(q.note, [f] + q.chain);
    ChildPlacementsOf(parent, above, i, notes, folders);
    BeneathMembers(f, Placed(Some(f.id), above + [f], notes, folders), p);
    assert Placement(p.note, p.chain[1..]) == q;
  }

  /** Every note linked to `parent` by a folder chain is placed with that chain. */
  lemma {:induction false} PlacedComplete(parent: Option<string>, above: seq<FolderRecord>, chain: seq<FolderRecord>,
                                          n: NoteRecord, notes: seq<NoteRecord>, folders: seq<FolderRecord>)
    requires Reached(parent, above, folders)
    requires n in notes && Linked(parent, chain, n.folderId, folders)
    ensures Placement(n, chain) in Placed(parent, above, notes, folders)
    decreases |chain|
  {
    if chain == [] {
      NotePlacementsMembers(parent, notes, Placement(n, chain));
    } else {
      var f := chain[0];
      assert f in folders;
      var i :| 0 <= i < |folders| && folders[i] == f;
      ChildReached(parent, above, folders, i);
      PlacedComplete(Some(f.id), above + [f], chain[1..], n, notes, folders);
      ChildComplete(parent, above, i, notes, folders, Placement(n, chain[1..]));
      assert [f] + chain[1..] == chain;
      SubfolderComplete(parent, above, |folders|, notes, folders, i, Placement(n, chain));
    }
  }

  /** From the top of the archive, a path is its non-empty components and the file name joined by `/`. */
  lemma {:induction false} PathUnderJoins(current: string, comps: seq<string>, file: string)
    requires forall k :: 0 <= k < |comps| ==> comps[k] != ""
    ensures current == "" ==> PathUnder(current, comps, file) == Join(comps + [file], '/')
    ensures current != "" ==> PathUnder(current, comps, file) == current + "/" + Join(comps + [file], '/')
    decreases |comps|
  {
    if comps != [] {
      PathUnderJoins(SubPath(current, comps[0]), comps[1..], file);
      assert (comps + [file])[1..] == comps[1..] + [file];
      assert Join(comps + [file], '/') == comps[0] + "/" + Join(comps[1..] + [file], '/');
    }
  }

  /** The entry of a note reached through `chain` from the top of the archive. */
  function TopItem(n: NoteRecord, chain: seq<FolderRecord>): ZipItem
  {
    ZipItem(Join(Components(chain) + [NoteFileName(n.title)], '/'), n.content)
  }

  /**
   * The archive of workspace `ws` holds exactly one kind of entry: a note of
   * `ws` below a chain of folders of `ws` that starts at the top level, at
   * the folders' sanitised names and the note's file name joined by `/`,
   * with the note's content.
   */
  lemma ExportContents(ws: string, notes: seq<NoteRecord>, folders: seq<FolderRecord>, item: ZipItem)
    requires Keyed(WorkspaceFolders(folders, ws))
    ensures item in ExportSpec(ws, notes, folders) <==>
              exists n, chain :: n in notes && n.workspaceId == ws &&
                                 Linked(None, chain, n.folderId, WorkspaceFolders(folders, ws)) &&
                                 item == TopItem(n, chain)
  {
    var wsNotes := WorkspaceNotes(notes, ws);
    var wsFolders := WorkspaceFolders(folders, ws);
    var ps := Placed(None, [], wsNotes, wsFolders);
    RenderMembers(ItemAt(""), ps, item);
    forall p: Placement
      ensures ItemAt("")(p) == TopItem(p.note, p.chain)
    {
      var comps := Components(p.chain);
      forall k | 0 <= k < |comps| ensures comps[k] != "" {
        FolderComponentShape(p.chain[k].name);
      }
      PathUnderJoins("", comps, NoteFileName(p.note.title));
    }
    if item in ExportSpec(ws, notes, folders) {
      var p :| p in ps && item == ItemAt("")(p);
      PlacedSound(None, [], wsNotes, wsFolders, p);
      assert item == TopItem(p.note, p.chain);
    }
    if exists n, chain :: n in notes && n.workspaceId == ws &&
                          Linked(None, chain, n.folderId, wsFolders) && item == TopItem(n, chain) {
      var n, chain :| n in notes && n.workspaceId == ws &&
                      Linked(None, chain, n.folderId, wsFolders) && item == TopItem(n, chain);
      PlacedComplete(None, [], chain, n, wsNotes, wsFolders);
      assert item == ItemAt("")(Placement(n, chain));
    }
  }

  /** A note at the top level of the workspace is written at its bare file name, which holds no `/`. */
  lemma TopLevelNote(ws: string, notes: seq<NoteRecord>, folders: seq<FolderRecord>, n: NoteRecord)
    requires Keyed(WorkspaceFolders(folders, ws))
    requires n in notes && n.workspaceId == ws && n.folderId.None?
    ensures ZipItem(NoteFileName(n.title), n.content) in ExportSpec(ws, notes, folders)
    ensures '/' !in NoteFileName(n.title)
  {
    ExportContents(ws, notes, folders, ZipItem(NoteFileName(n.title), n.content));
    assert Components([]) == [];
    assert TopItem(n, []) == ZipItem(NoteFileName(n.title), n.content);
    assert Linked(None, [], n.folderId, WorkspaceFolders(folders, ws));
    NoteFileNameShape(n.title);
  }

  /** `x/y` and `x?y` both become the file name `x_y.md`. */
  lemma SlashAndQuestionMarkCollide()
    ensures NoteFileName("x/y") == "x_y.md" && NoteFileName("x?y") == "x_y.md"
  {
    assert SanitizeChars("x/y") == "x_y";
    assert SanitizeChars("x?y") == "x_y";
    TrimUnchanged("x_y", RustSpace);
  }

  /** Filtering a keyed list by workspace keeps it keyed. */
  lemma {:induction false} KeyedWorkspace(folders: seq<FolderRecord>, ws: string)
    requires Keyed(folders)
    ensures Keyed(WorkspaceFolders(folders, ws))
    decreases |folders|
  {
    if folders != [] {
      var tail := folders[1..];
      assert Keyed(tail) by {
        forall i, j | 0 <= i < |tail| && 0 <= j < |tail| && tail[i].id == tail[j].id
          ensures i == j
        {
          assert folders[i + 1] == tail[i] && folders[j + 1] == tail[j];
        }
      }
      KeyedWorkspace(tail, ws);
      var rest := WorkspaceFolders(tail, ws);
      if folders[0].workspaceId == ws {
        var r := [folders[0]] + rest;
        forall k | 0 <= k < |rest|
          ensures rest[k].id != folders[0].id
        {
          assert rest[k] in tail;
          var y :| 0 <= y < |tail| && tail[y] == rest[k];
          assert folders[y + 1] == rest[k];
        }
        forall i, j | 0 <= i < |r| && 0 <= j < |r| && r[i].id == r[j].id
          ensures i == j
        {
          if i > 0 && j > 0 {
            assert r[i] == rest[i - 1] && r[j] == rest[j - 1];
          }
        }
      }
    }
  }

  /**
   * A folder that is its own parent hangs below no top-level folder, so the
   * walk never reaches it and a note inside it is silently left out of the
   * archive.
   */
  lemma SelfParentNoteOmitted()
    ensures var f := LocalDb.FolderRecord("a", "Loop", Some("a"), "w", 0, None);
            var n := LocalDb.NoteRecord("n", "title", "text", Some("a"), "w", 0, 0);
            Keyed(WorkspaceFolders([f], "w")) && ExportSpec("w", [n], [f]) == []
  {
    var f := LocalDb.FolderRecord("a", "Loop", Some("a"), "w", 0, None);
    var n := LocalDb.NoteRecord("n", "title", "text", Some("a"), "w", 0, 0);
    assert [f][1..] == [] && [n][1..] == [];
    assert WorkspaceFolders([f], "w") == [f];
    assert WorkspaceNotes([n], "w") == [n];
    assert [n][..0] == [];
    assert NotePlacements(None, [n]) == [];
    assert SubfolderPlacements(None, [], 0, [n], [f]) == [];
    assert SubfolderPlacements(None, [], 1, [n], [f]) == [];
    assert Placed(None, [], [n], [f]) == [];
  }

  /** Two top-level notes and no folders: each is placed once, in order, with no folder above it. */
  lemma TwoTopLevelNotes(a: NoteRecord, b: NoteRecord)
    requires a.folderId.None? && b.folderId.None?
    ensures Placed(None, [], [a, b], []) == [Placement(a, []), Placement(b, [])]
  {
    assert [a, b][..1] == [a] && [a][..0] == [];
    assert NotePlacements(None, [a]) == [Placement(a, [])];
    assert NotePlacements(None, [a, b]) == [Placement(a, []), Placement(b, [])];
    assert SubfolderPlacements(None, [], 0, [a, b], []) == [];
  }

  /** A two-placement list renders to its two entries. */
  lemma RenderTwo(item: Placement -> ZipItem, p: Placement, q: Placement)
    ensures Render(item, [p, q]) == [item(p), item(q)]
  {
    assert [p, q][..1] == [p] && [p][..0] == [];
  }

  /** Two titles that sanitise alike give two entries with the same path: nothing is de-duplicated. */
  lemma DuplicatePathsKept()
    ensures var a := LocalDb.NoteRecord("a", "x/y", "first", None, "w", 0, 0);
            var b := LocalDb.NoteRecord("b", "x?y", "second", None, "w", 0, 0);
            ExportSpec("w", [a, b], []) == [ZipItem("x_y.md", "first"), ZipItem("x_y.md", "second")]
  {
    var a := LocalDb.NoteRecord("a", "x/y", "first", None, "w", 0, 0);
    var b := LocalDb.NoteRecord("b", "x?y", "second", None, "w", 0, 0);
    assert [a, b][1..] == [b] && [b][1..] == [];
    assert WorkspaceNotes([b], "w") == [b];
    assert WorkspaceNotes([a, b], "w") == [a, b];
    assert WorkspaceFolders([], "w") == [];
    TwoTopLevelNotes(a, b);
    RenderTwo(ItemAt(""), Placement(a, []), Placement(b, []));
    NoteEntry("", a);
    NoteEntry("", b);
    SlashAndQuestionMarkCollide();
  }
}
