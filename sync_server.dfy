/**
 * The sync server's one endpoint (server/src/main.rs, `sync_handler`, with
 * the record types of server/src/models.rs).  Each table is a map from
 * record id to row.  A request is authorised by the mere presence of a
 * readable `x-sync-key` header; its records are upserted one by one with
 * last-writer-wins on a strictly newer `updated_at`, and the response holds
 * the caller's rows changed strictly between `last_sync_time` and the
 * server's clock.  The clock and database failures are parameters.
 */
module SyncServer {
  import opened Util

  newtype byte = x: int | 0 <= x < 256

  datatype NoteData = NoteData(title: string, content: string, folderId: Option<string>, workspaceId: string)
  datatype FolderData = FolderData(name: string, parentId: Option<string>, workspaceId: string)
  datatype WorkspaceData = WorkspaceData(name: string, color: string)

  /** A record as sent and returned over the wire; `createdAt` is optional in requests. */
  datatype Record<P> = Record(id: string, createdAt: Option<int>, updatedAt: int, isDeleted: bool, data: P)

  /** A stored row: the record's fields plus the sync key it was first inserted under. */
  datatype Row<P> = Row(syncKey: string, createdAt: int, updatedAt: int, isDeleted: bool, data: P)

  datatype SyncRequest = SyncRequest(
    lastSyncTime: int,
    notes: seq<Record<NoteData>>,
    folders: seq<Record<FolderData>>,
    workspaces: seq<Record<WorkspaceData>>)

  /** The rows come back without an order, so each list is a map keyed by id. */
  datatype SyncResponse = SyncResponse(
    serverTime: int,
    notes: map<string, Record<NoteData>>,
    folders: map<string, Record<FolderData>>,
    workspaces: map<string, Record<WorkspaceData>>)

  datatype Failure = Unauthorized(message: string) | DatabaseError

  const MissingKeyMessage: string := "Missing x-sync-key header"

  /** A header byte that `HeaderValue::to_str` accepts: visible ASCII or a tab. */
  predicate VisibleAscii(b: byte)
  {
    (32 <= b < 127) || b == 9
  }

  /** The sync key read from the first `x-sync-key` header value, if there is one and it is text. */
  function SyncKey(header: Option<seq<byte>>): (k: Option<string>)
    ensures k.Some? <==> header.Some? && forall i :: 0 <= i < |header.value| ==> VisibleAscii(header.value[i])
    ensures k.Some? ==> |k.value| == |header.value|
                        && forall i :: 0 <= i < |k.value| ==> k.value[i] as int == header.value[i] as int
  {
    if header.Some? && forall i :: 0 <= i < |header.value| ==> VisibleAscii(header.value[i]) then
      Some(seq(|header.value|, i requires 0 <= i < |header.value| => (header.value[i] as int) as char))
    else None
  }

  // ---------------------------------------------------------------------
  // Last-writer-wins upsert
  // ---------------------------------------------------------------------

  /**
   * One `INSERT ... ON CONFLICT(id) DO UPDATE ... WHERE excluded.updated_at >
   * updated_at`: a new id is inserted under the caller's key with `created_at`
   * defaulting to `updated_at`; an existing row takes the record's data,
   * time and deletion flag only when the record is strictly newer.
   */
  function Upsert<P>(t: map<string, Row<P>>, r: Record<P>, key: string): (u: map<string, Row<P>>)
    ensures u.Keys == t.Keys + {r.id}
    ensures forall id :: id in t && id != r.id ==> u[id] == t[id]
    ensures r.id !in t ==> u[r.id] == Row(key, r.createdAt.GetOr(r.updatedAt), r.updatedAt, r.isDeleted, r.data)
    // conflicts are keyed on the id alone: key and creation time of an existing row never change
    ensures r.id in t ==> u[r.id].syncKey == t[r.id].syncKey && u[r.id].createdAt == t[r.id].createdAt
    ensures r.id in t && r.updatedAt > t[r.id].updatedAt ==>
              u[r.id].updatedAt == r.updatedAt && u[r.id].isDeleted == r.isDeleted && u[r.id].data == r.data
    ensures r.id in t && r.updatedAt <= t[r.id].updatedAt ==> u == t
    // the stored time never decreases and ends up at least the record's
    ensures r.id in t ==> u[r.id].updatedAt >= t[r.id].updatedAt
    ensures u[r.id].updatedAt >= r.updatedAt
  {
    if r.id !in t then t[r.id := Row(key, r.createdAt.GetOr(r.updatedAt), r.updatedAt, r.isDeleted, r.data)]
    else if r.updatedAt > t[r.id].updatedAt then
      t[r.id := t[r.id].(updatedAt := r.updatedAt, isDeleted := r.isDeleted, data := r.data)]
    else t
  }

  /** The records upserted in order. */
  function ApplyAll<P>(t: map<string, Row<P>>, rs: seq<Record<P>>, key: string): (u: map<string, Row<P>>)
    ensures t.Keys <= u.Keys
  {
    if rs == [] then t else Upsert(ApplyAll(t, rs[..|rs| - 1], key), rs[|rs| - 1], key)
  }

  /** Applying records never drops a row, never lowers a stored time, and keeps key and creation time. */
  lemma {:induction false} ApplyMonotone<P>(t: map<string, Row<P>>, rs: seq<Record<P>>, key: string, id: string)
    requires id in t
    ensures id in ApplyAll(t, rs, key)
    ensures ApplyAll(t, rs, key)[id].updatedAt >= t[id].updatedAt
    ensures ApplyAll(t, rs, key)[id].syncKey == t[id].syncKey
    ensures ApplyAll(t, rs, key)[id].createdAt == t[id].createdAt
    decreases |rs|
  {
    if rs != [] {
      ApplyMonotone(t, rs[..|rs| - 1], key, id);
    }
  }

  /** After a batch, every record's id is stored with a time at least the record's. */
  lemma {:induction false} ApplyDominates<P>(t: map<string, Row<P>>, rs: seq<Record<P>>, key: string)
    ensures forall k :: 0 <= k < |rs| ==>
              rs[k].id in ApplyAll(t, rs, key) && ApplyAll(t, rs, key)[rs[k].id].updatedAt >= rs[k].updatedAt
    decreases |rs|
  {
    if rs != [] {
      var front := rs[..|rs| - 1];
      var mid := ApplyAll(t, front, key);
      ApplyDominates(t, front, key);
      forall k | 0 <= k < |rs| - 1
        ensures rs[k].id in ApplyAll(t, rs, key) && ApplyAll(t, rs, key)[rs[k].id].updatedAt >= rs[k].updatedAt
      {
        assert front[k] == rs[k];
      }
    }
  }

  /** Records that are not newer than what is stored change nothing. */
  lemma {:induction false} ApplyDominated<P>(t: map<string, Row<P>>, rs: seq<Record<P>>, key: string)
    requires forall k :: 0 <= k < |rs| ==> rs[k].id in t && t[rs[k].id].updatedAt >= rs[k].updatedAt
    ensures ApplyAll(t, rs, key) == t
    decreases |rs|
  {
    if rs != [] {
      ApplyDominated(t, rs[..|rs| - 1], key);
    }
  }

  /** Sending the same batch twice leaves the table as sending it once. */
  lemma ApplyIdempotent<P>(t: map<string, Row<P>>, rs: seq<Record<P>>, key: string)
    ensures ApplyAll(ApplyAll(t, rs, key), rs, key) == ApplyAll(t, rs, key)
  {
    ApplyDominates(t, rs, key);
    ApplyDominated(ApplyAll(t, rs, key), rs, key);
  }

  // ---------------------------------------------------------------------
  // The delta window
  // ---------------------------------------------------------------------

  function AsRecord<P>(id: string, row: Row<P>): (r: Record<P>)
    ensures r.id == id && r.createdAt == Some(row.createdAt) && r.updatedAt == row.updatedAt
    ensures r.isDeleted == row.isDeleted && r.data == row.data
  {
    Record(id, Some(row.createdAt), row.updatedAt, row.isDeleted, row.data)
  }

  /** `WHERE sync_key = ? AND updated_at > ? AND updated_at < ?`; deleted rows are included. */
  function Window<P>(t: map<string, Row<P>>, key: string, since: int, now: int): (w: map<string, Record<P>>)
    ensures forall id :: id in w <==> id in t && t[id].syncKey == key && since < t[id].updatedAt < now
    ensures forall id :: id in w ==> w[id] == AsRecord(id, t[id])
  {
    map id | id in t && t[id].syncKey == key && since < t[id].updatedAt < now :: AsRecord(id, t[id])
  }

  /**
   * A record that the upsert takes is sent straight back in the same
   * response when the row is the caller's and its time lies in the window.
   */
  lemma AcceptedRecordEchoed<P>(t: map<string, Row<P>>, r: Record<P>, key: string, since: int, now: int)
    requires r.id !in t || (t[r.id].syncKey == key && r.updatedAt > t[r.id].updatedAt)
    requires since < r.updatedAt < now
    ensures var w := Window(Upsert(t, r, key), key, since, now);
            r.id in w && w[r.id].data == r.data && w[r.id].updatedAt == r.updatedAt && w[r.id].isDeleted == r.isDeleted
  {
  }

  /**
   * Because the conflict target is the id alone, a request under another key
   * overwrites the data of a row it never receives back.
   */
  lemma ForeignKeyOverwrite<P>(t: map<string, Row<P>>, r: Record<P>, key: string, since: int, now: int)
    requires r.id in t && t[r.id].syncKey != key && r.updatedAt > t[r.id].updatedAt
    ensures var u := Upsert(t, r, key);
            u[r.id].data == r.data && u[r.id].isDeleted == r.isDeleted && u[r.id].updatedAt == r.updatedAt
            && u[r.id].syncKey == t[r.id].syncKey && r.id !in Window(u, key, since, now)
  {
  }

  // ---------------------------------------------------------------------
  // The handler
  // ---------------------------------------------------------------------

  /** The statement index `fail` counted from `offset`, if it is not before it. */
  function From(fail: Option<nat>, offset: nat): (r: Option<nat>)
    ensures r.Some? <==> fail.Some? && fail.value >= offset
    ensures r.Some? ==> r.value + offset == fail.value
  {
    if fail.Some? && fail.value >= offset then Some(fail.value - offset) else None
  }

  /** One of the three upsert loops; the statement at index `fail` errors, leaving earlier ones applied. */
  method UpsertLoop<P>(t0: map<string, Row<P>>, rs: seq<Record<P>>, key: string, fail: Option<nat>)
    returns (t: map<string, Row<P>>, ok: bool)
    ensures ok <==> fail.None? || fail.value >= |rs|
    ensures ok ==> t == ApplyAll(t0, rs, key)
    ensures !ok ==> t == ApplyAll(t0, rs[..fail.value], key)
  {
    t := t0;
    var i := 0;
    while i < |rs|
      invariant 0 <= i <= |rs|
      invariant t == ApplyAll(t0, rs[..i], key)
      invariant fail.None? || fail.value >= i
    {
      if fail == Some(i) {
        return t, false;
      }
      assert rs[..i + 1][..i] == rs[..i];
      t := Upsert(t, rs[i], key);
      i := i + 1;
    }
    assert rs[..i] == rs;
    ok := true;
  }

  /** The server's three tables. */
  class ServerDb {
    var notes: map<string, Row<NoteData>>
    var folders: map<string, Row<FolderData>>
    var workspaces: map<string, Row<WorkspaceData>>

    constructor ()
      ensures notes == map[] && folders == map[] && workspaces == map[]
    {
      notes, folders, workspaces := map[], map[], map[];
    }

    /**
     * sync_handler.  `now` is the clock read before any write; `fail` is the
     * index of the first database statement that errors (the upserts in
     * order, then the three window queries), if any.
     */
    method Sync(header: Option<seq<byte>>, req: SyncRequest, now: int, fail: Option<nat>)
      returns (resp: Result<SyncResponse, Failure>)
      modifies this
      // without a readable key nothing is written
      ensures SyncKey(header).None? ==>
                resp == Err(Unauthorized(MissingKeyMessage))
                && notes == old(notes) && folders == old(folders) && workspaces == old(workspaces)
      // with one, every batch is applied under that key, up to the failing statement
      ensures SyncKey(header).Some? ==>
                var key := SyncKey(header).value;
                var n := |req.notes|;
                var f := |req.folders|;
                var w := |req.workspaces|;
                && notes == (if fail.Some? && fail.value < n then ApplyAll(old(notes), req.notes[..fail.value], key)
                             else ApplyAll(old(notes), req.notes, key))
                && folders == (if fail.Some? && fail.value < n then old(folders)
                               else if fail.Some? && fail.value < n + f
                               then ApplyAll(old(folders), req.folders[..fail.value - n], key)
                               else ApplyAll(old(folders), req.folders, key))
                && workspaces == (if fail.Some? && fail.value < n + f then old(workspaces)
                                  else if fail.Some? && fail.value < n + f + w
                                  then ApplyAll(old(workspaces), req.workspaces[..fail.value - n - f], key)
                                  else ApplyAll(old(workspaces), req.workspaces, key))
                && (resp.Err? <==> fail.Some? && fail.value < n + f + w + 3)
                && (resp.Err? ==> resp.error == DatabaseError)
                && (resp.Ok? ==> resp.value == SyncResponse(now,
                                                 Window(notes, key, req.lastSyncTime, now),
                                                 Window(folders, key, req.lastSyncTime, now),
                                                 Window(workspaces, key, req.lastSyncTime, now)))
    {
      var keyOpt := SyncKey(header);
      if keyOpt.None? {
        return Err(Unauthorized(MissingKeyMessage));
      }
      var key := keyOpt.value;
      var n, f, w := |req.notes|, |req.folders|, |req.workspaces|;
      var ok;
      notes, ok := UpsertLoop(notes, req.notes, key, fail);
      if !ok {
        assert fail.Some? && fail.value < n;
        return Err(DatabaseError);
      }
      assert notes == ApplyAll(old(notes), req.notes, key);
      folders, ok := UpsertLoop(folders, req.folders, key, From(fail, n));
      if !ok {
        assert fail.Some? && n <= fail.value < n + f && From(fail, n).value == fail.value - n;
        return Err(DatabaseError);
      }
      assert folders == ApplyAll(old(folders), req.folders, key);
      workspaces, ok := UpsertLoop(workspaces, req.workspaces, key, From(fail, n + f));
      if !ok {
        assert fail.Some? && n + f <= fail.value < n + f + w && From(fail, n + f).value == fail.value - n - f;
        return Err(DatabaseError);
      }
      assert workspaces == ApplyAll(old(workspaces), req.workspaces, key);
      var queries := From(fail, n + f + w);
      if queries.Some? && queries.value < 3 {
        assert fail.Some? && n + f + w <= fail.value < n + f + w + 3;
        return Err(DatabaseError);
      }
      assert fail.None? || fail.value >= n + f + w + 3;
      var since := req.lastSyncTime;
      resp := Ok(SyncResponse(now, Window(notes, key, since, now), Window(folders, key, since, now),
                              Window(workspaces, key, since, now)));
    }
  }

  /** The whole request replayed: the tables end up as after the first successful run. */
  lemma SyncIdempotent(n0: map<string, Row<NoteData>>, f0: map<string, Row<FolderData>>,
                       w0: map<string, Row<WorkspaceData>>, req: SyncRequest, key: string)
    ensures ApplyAll(ApplyAll(n0, req.notes, key), req.notes, key) == ApplyAll(n0, req.notes, key)
    ensures ApplyAll(ApplyAll(f0, req.folders, key), req.folders, key) == ApplyAll(f0, req.folders, key)
    ensures ApplyAll(ApplyAll(w0, req.workspaces, key), req.workspaces, key) == ApplyAll(w0, req.workspaces, key)
  {
    ApplyIdempotent(n0, req.notes, key);
    ApplyIdempotent(f0, req.folders, key);
    ApplyIdempotent(w0, req.workspaces, key);
  }
}
