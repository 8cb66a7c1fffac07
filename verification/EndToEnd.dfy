/** A snapshot, any history, and its restore (manager.rs). */
module EndToEnd {
  import opened Wrappers
  import opened Paths
  import opened Objects
  import T = Trees
  import R = Restore
  import opened RestoreLaws
  import opened TagIndex
  import opened Histories
  import opened Snapshots

  // What the daemon may be asked meanwhile. A restore may go anywhere; ids are new UUIDs.
  datatype Request =
    | Create(workspace: T.Node, message: Option<string>, tags: Option<seq<string>>, clock: int, id: string)
    | Restore(id: string, dest: Option<T.Node>)
    | Delete(id: string)

  // A snapshot that is not itself deleted can be restored, after any creates, restores and deletes,
  // to a copy that mirrors the directory it was taken of.
  method SnapshotThenRestore(m: SnapshotManager, workspace: T.Node, message: Option<string>,
                             tags: Option<seq<string>>, clock: int, id: string,
                             requests: seq<Request>, made: T.Meta)
    returns (r: Result<T.Node, Error>)
    requires m.Valid() && FreshId(m.disk, id)
    requires forall contents :: CollisionFree(m.store.hash, contents)
    requires Delete(id) !in requests
    modifies m, m.store
    ensures r.Ok? <==>
            && (tags.Some? ==> forall t | t in tags.value :: ValidTag(t) && RefFile(t) !in old(m.disk))
            && clock >= 0 && workspace.Dir? && T.Encodable(workspace)
    ensures r.Ok? ==> Mirrors(m.c, workspace, r.value)
  {
    var created := m.CreateSnapshot(workspace, message, tags, clock, id);
    if created.Err? {
      return Err(created.error);
    }
    ghost var s := Rec(m.disk, id);
    for i := 0 to |requests|
      invariant m.Valid() && Rec(m.disk, id) == s
      invariant id in m.images && m.images[id] == T.ImageOf(m.c, workspace)
    {
      assert requests[i] in requests;
      match requests[i] {
        case Create(workspace', message', tags', clock', id') =>
          if id' != "" && RecordPath(id') !in m.disk {
            var _ := m.CreateSnapshot(workspace', message', tags', clock', id');
          }
        case Restore(id', dest) =>
          var there := new Destination(dest);
          var _ := m.RestoreSnapshot(id', there, made);
        case Delete(id') =>
          var _ := m.DeleteSnapshot(id');
      }
    }
    var nothing := new Destination(None);
    RoundTrip(m.c, m.store.hash, made, workspace, None);
    var restored := m.RestoreSnapshot(id, nothing, made);
    r := Ok(nothing.node.value);
  }

  // The same with crashes, and assuming nothing of the hash beyond the objects stored: after any
  // operations, completed or cut short, that leave the snapshot recorded, every outcome of restoring
  // it where nothing was is complete and mirrors its directory.
  lemma SurvivorMirrors(c: T.Codec, hash: Hash, history: seq<World>, id: string, workspace: T.Node, made: T.Meta)
    requires c.Valid() && workspace.Dir? && T.Encodable(workspace)
    requires history != [] && Healthy(c, hash, history[0])
    requires forall i | 0 < i < |history| :: Moves(c, hash, history[i - 1], history[i])
    requires forall w | w in history :: Rec(w.disk, id).Some?
    requires id in history[0].images && history[0].images[id] == T.ImageOf(c, workspace)
    ensures var w := history[|history| - 1];
            && id in w.images && w.images[id].DirI? && T.Repr(c, w.files, Rec(w.disk, id).value.tree, w.images[id])
            && forall o, node | R.Restored(hash, made, w.images[id], None, o, node) ::
                 o == R.Done && node.Some? && Mirrors(c, workspace, node.value)
  {
    SnapshotSurvives(c, hash, history, id);
    RoundTrip(c, hash, made, workspace, None);
  }
}
