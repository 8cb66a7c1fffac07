/** The state of a snapshot directory over its operations, completed or cut short. */
module Histories {
  import opened Wrappers
  import opened Paths
  import opened FileSteps
  import opened Objects
  import T = Trees
  import opened TagIndex
  import opened TagLaws
  import CrashLaws

  // Every record's root stands for the image taken when it was created.
  ghost predicate Restorable(c: T.Codec, files: Files, d: Disk, images: map<string, T.Image>) {
    forall id | Rec(d, id).Some? ::
      id in images && images[id].DirI? && T.Repr(c, files, Rec(d, id).value.tree, images[id])
  }

  lemma RestorableGrows(c: T.Codec, before: Files, after: Files, d: Disk, images: map<string, T.Image>)
    requires Grows(before, after) && Restorable(c, before, d, images)
    ensures Restorable(c, after, d, images)
  {
    forall id | Rec(d, id).Some? ensures T.Repr(c, after, Rec(d, id).value.tree, images[id]) {
      T.ReprGrows(c, before, after, Rec(d, id).value.tree, images[id]);
    }
  }

  // ------------------------------------------------------------ histories

  datatype World = World(files: Files, hashed: set<Bytes>, disk: Disk, images: map<string, T.Image>)

  // What every operation below does to the whole state.
  ghost predicate Advances(w: World, w': World) {
    && Grows(w.files, w'.files) && w.hashed <= w'.hashed
    && forall id | Rec(w.disk, id).Some? && Rec(w'.disk, id).Some? ::
         && Rec(w'.disk, id) == Rec(w.disk, id)
         && (id in w.images ==> id in w'.images && w'.images[id] == w.images[id])
  }

  lemma CreateAdvances(c: T.Codec, w: World, files: Files, hashed: set<Bytes>, sound: bool, s: Snapshot, img: T.Image)
    requires Whole(w.disk) && FreshId(w.disk, s.id) && forall t | t in s.tags :: ValidTag(t)
    requires Grows(w.files, files) && w.hashed <= hashed && img.DirI?
    requires sound ==> Restorable(c, files, w.disk, w.images) && T.Repr(c, files, s.tree, img)
    ensures var after := Run(w.disk, CreateSteps(s));
            && Whole(after) && Rec(after, s.id) == Some(s)
            && (forall id | id != s.id :: Rec(after, id) == Rec(w.disk, id))
            && after == AddTags(AddRecord(w.disk, s), s.id, s.tags)
            && Advances(w, World(files, hashed, after, w.images[s.id := img]))
            && (sound ==> Restorable(c, files, after, w.images[s.id := img]))
  {
    CreatedRecords(w.disk, s);
  }

  lemma DeleteAdvances(c: T.Codec, w: World, sound: bool, id: string)
    requires Whole(w.disk) && Rec(w.disk, id).Some?
    requires sound ==> Restorable(c, w.files, w.disk, w.images)
    ensures var after := Run(w.disk, DeleteSteps(Rec(w.disk, id).value));
            && after == WithoutTags(w.disk, Rec(w.disk, id).value.tags) - {RecordPath(id)}
            && Whole(after) && Rec(after, id).None? && (forall i | i != id :: Rec(after, i) == Rec(w.disk, i))
            && Advances(w, World(w.files, w.hashed, after, w.images - {id}))
            && (sound ==> Restorable(c, w.files, after, w.images - {id}))
  {
    DeletedRecords(w.disk, id);
  }

  // Stopping a create or a delete anywhere leaves every recorded snapshot restorable to the image
  // it was taken of: the objects are there before the record is.
  lemma CreateCrashRestorable(c: T.Codec, files: Files, files': Files, d: Disk, images: map<string, T.Image>,
                              s: Snapshot, img: T.Image, k: nat, torn: bool, junk: Content)
    requires CrashOk(d) && FreshId(d, s.id) && CrashLaws.ValidTags(s.tags) && k <= |CreateSteps(s)|
    requires Restorable(c, files, d, images) && Grows(files, files') && img.DirI? && T.Repr(c, files', s.tree, img)
    ensures Restorable(c, files', Crashed(d, CreateSteps(s), k, torn, junk), images[s.id := img])
  {
    RestorableGrows(c, files, files', d, images);
    forall id
      ensures Rec(Crashed(d, CreateSteps(s), k, torn, junk), id)
              == if id == s.id && k >= 2 then Some(s) else Rec(d, id)
    {
      CrashLaws.CreateCrashRecords(d, s, k, torn, junk, id);
    }
  }

  lemma DeleteCrashRestorable(c: T.Codec, files: Files, d: Disk, images: map<string, T.Image>,
                              s: Snapshot, k: nat, torn: bool, junk: Content)
    requires Rec(d, s.id) == Some(s) && k <= |DeleteSteps(s)| && Restorable(c, files, d, images)
    ensures Restorable(c, files, Crashed(d, DeleteSteps(s), k, torn, junk), images)
  {
    forall id | Rec(Crashed(d, DeleteSteps(s), k, torn, junk), id).Some?
      ensures Rec(Crashed(d, DeleteSteps(s), k, torn, junk), id) == Rec(d, id)
    {
      CrashLaws.DeleteCrashRecords(d, s, k, torn, junk, id);
    }
  }

  lemma DeletedRecords(d: Disk, id: string)
    requires Whole(d) && Rec(d, id).Some?
    ensures var after := Run(d, DeleteSteps(Rec(d, id).value));
            && after == WithoutTags(d, Rec(d, id).value.tags) - {RecordPath(id)} && Whole(after)
            && Rec(after, id).None? && forall other | other != id :: Rec(after, other) == Rec(d, other)
  {
    var s := Rec(d, id).value;
    RecordIdIs(d, id);
    RunDelete(d, s);
    var after := Run(d, DeleteSteps(s));
    forall other | other != id ensures Rec(after, other) == Rec(d, other) {
      if RecordPath(other) == RecordPath(id) {
        RecordIds(other, id);
      }
    }
  }

  // ------------------------------------------------------------ histories with crashes

  // What an operation does to the metadata files when it stops after `k` of its steps, possibly
  // inside the next: all of them if it completes. NoChange: a restore, a refusal, or a create that
  // did not get past its objects.
  datatype Change =
    | NoChange
    | Creating(s: Snapshot, img: T.Image, k: nat, torn: bool, junk: Content)
    | Deleting(id: string, k: nat, torn: bool, junk: Content)

  // A create gets to its record when the objects under the record's root are stored.
  ghost predicate Possible(c: T.Codec, files: Files, d: Disk, change: Change) {
    match change
    case NoChange => true
    case Creating(s, img, k, _, _) =>
      && FreshId(d, s.id) && CrashLaws.ValidTags(s.tags) && k <= |CreateSteps(s)|
      && img.DirI? && T.Repr(c, files, s.tree, img)
    case Deleting(id, k, _, _) => Rec(d, id).Some? && k <= |DeleteSteps(Rec(d, id).value)|
  }

  ghost function DiskAfter(d: Disk, change: Change): Disk {
    match change
    case NoChange => d
    case Creating(s, _, k, torn, junk) => if k <= |CreateSteps(s)| then Crashed(d, CreateSteps(s), k, torn, junk) else d
    case Deleting(id, k, torn, junk) =>
      if Rec(d, id).Some? && k <= |DeleteSteps(Rec(d, id).value)| then
        Crashed(d, DeleteSteps(Rec(d, id).value), k, torn, junk)
      else d
  }

  ghost function ImagesAfter(d: Disk, images: map<string, T.Image>, change: Change): map<string, T.Image> {
    match change
    case NoChange => images
    case Creating(s, img, _, _, _) => images[s.id := img]
    case Deleting(id, k, _, _) =>
      if Rec(d, id).Some? && k == |DeleteSteps(Rec(d, id).value)| then images - {id} else images
  }

  // One operation, completed or cut inside a put or a metadata step.
  ghost predicate Moves(c: T.Codec, hash: Hash, w: World, w': World) {
    && PutsOnly(hash, w.files, w'.files)
    && exists change :: Possible(c, w'.files, w.disk, change)
         && w'.disk == DiskAfter(w.disk, change) && w'.images == ImagesAfter(w.disk, w.images, change)
  }

  // Objects are complete, refs are backed, and every recorded snapshot can be restored to its image.
  ghost predicate Healthy(c: T.Codec, hash: Hash, w: World) {
    Complete(hash, w.files) && CrashOk(w.disk) && Restorable(c, w.files, w.disk, w.images)
  }

  // What `w'` still has of the snapshots of `w`.
  ghost predicate Preserves(w: World, w': World) {
    && Grows(w.files, w'.files)
    && forall id | Rec(w.disk, id).Some? && Rec(w'.disk, id).Some? && id in w.images ::
         Rec(w'.disk, id) == Rec(w.disk, id) && id in w'.images && w'.images[id] == w.images[id]
  }

  lemma CreatingKeeps(c: T.Codec, files: Files, files': Files, d: Disk, images: map<string, T.Image>, change: Change)
    requires CrashOk(d) && Restorable(c, files, d, images) && Grows(files, files')
    requires change.Creating? && Possible(c, files', d, change)
    ensures var d' := DiskAfter(d, change);
            && CrashOk(d') && Restorable(c, files', d', ImagesAfter(d, images, change))
            && forall id | Rec(d, id).Some? :: id != change.s.id && Rec(d', id) == Rec(d, id)
  {
    var Creating(s, img, k, torn, junk) := change;
    CrashLaws.CreateCrashSafe(d, s, k, torn, junk);
    CreateCrashRestorable(c, files, files', d, images, s, img, k, torn, junk);
    forall id | Rec(d, id).Some? ensures id != s.id && Rec(DiskAfter(d, change), id) == Rec(d, id) {
      CrashLaws.CreateCrashRecords(d, s, k, torn, junk, id);
    }
  }

  lemma DeletingKeeps(c: T.Codec, files: Files, d: Disk, images: map<string, T.Image>, change: Change)
    requires CrashOk(d) && Restorable(c, files, d, images)
    requires change.Deleting? && Possible(c, files, d, change)
    ensures var d' := DiskAfter(d, change);
            && CrashOk(d') && Restorable(c, files, d', ImagesAfter(d, images, change))
            && forall id | Rec(d', id).Some? ::
                 Rec(d', id) == Rec(d, id) && (id in images ==> id in ImagesAfter(d, images, change))
  {
    var Deleting(id, k, torn, junk) := change;
    var s := Rec(d, id).value;
    RecordIdIs(d, id);
    CrashLaws.DeleteCrashSafe(d, s, k, torn, junk);
    CrashLaws.DeleteCrashed(d, s, k, torn, junk);
    forall other
      ensures Rec(DiskAfter(d, change), other) == if other == id && k == |s.tags| + 1 then None else Rec(d, other)
    {
      CrashLaws.DeleteCrashRecords(d, s, k, torn, junk, other);
    }
  }

  lemma MoveKeepsHealthy(c: T.Codec, hash: Hash, w: World, w': World)
    requires Healthy(c, hash, w) && Moves(c, hash, w, w')
    ensures Healthy(c, hash, w') && Preserves(w, w')
  {
    var attempts: seq<Attempt> :| w'.files == AfterAttempts(hash, w.files, attempts);
    EveryRunComplete(hash, w.files, attempts);
    RestorableGrows(c, w.files, w'.files, w.disk, w.images);
    var change :| Possible(c, w'.files, w.disk, change)
      && w'.disk == DiskAfter(w.disk, change) && w'.images == ImagesAfter(w.disk, w.images, change);
    if change.Creating? {
      CreatingKeeps(c, w.files, w'.files, w.disk, w.images, change);
    } else if change.Deleting? {
      DeletingKeeps(c, w'.files, w.disk, w.images, change);
    }
  }

  // Any sequence of creates, restores and deletes, each completed or cut inside a put or a metadata
  // step: everything recorded can be restored, every ref is backed, and a snapshot that stays
  // recorded keeps its record, its image and the objects that stand for it.
  lemma {:induction false} SnapshotSurvives(c: T.Codec, hash: Hash, history: seq<World>, id: string)
    requires history != [] && Healthy(c, hash, history[0])
    requires forall i | 0 < i < |history| :: Moves(c, hash, history[i - 1], history[i])
    ensures var w, w' := history[0], history[|history| - 1];
            && Healthy(c, hash, w')
            && ((forall v | v in history :: Rec(v.disk, id).Some?) ==>
                  && Rec(w'.disk, id) == Rec(w.disk, id)
                  && id in w'.images && w'.images[id] == w.images[id]
                  && T.Repr(c, w'.files, Rec(w'.disk, id).value.tree, w'.images[id]))
    decreases |history|
  {
    if |history| > 1 {
      assert Moves(c, hash, history[0], history[1]);
      MoveKeepsHealthy(c, hash, history[0], history[1]);
      assert history[0] in history && history[1] in history;
      assert forall v | v in history[1..] :: v in history;
      SnapshotSurvives(c, hash, history[1..], id);
    } else {
      assert history[0] in history;
    }
  }

  // ------------------------------------------------------------ completed operations

  lemma CrashedAtEnd(d: Disk, steps: seq<MetaStep>)
    ensures Crashed(d, steps, |steps|, false, Garbage) == Run(d, steps)
  {
    assert steps[..|steps|] == steps;
  }

  lemma CreateMoves(c: T.Codec, hash: Hash, w: World, w': World, s: Snapshot, img: T.Image)
    requires PutsOnly(hash, w.files, w'.files) && FreshId(w.disk, s.id) && CrashLaws.ValidTags(s.tags)
    requires img.DirI? && T.Repr(c, w'.files, s.tree, img)
    requires w'.disk == Run(w.disk, CreateSteps(s)) && w'.images == w.images[s.id := img]
    ensures Moves(c, hash, w, w')
  {
    var change := Creating(s, img, |CreateSteps(s)|, false, Garbage);
    CrashedAtEnd(w.disk, CreateSteps(s));
    assert Possible(c, w'.files, w.disk, change);
  }

  lemma DeleteMoves(c: T.Codec, hash: Hash, w: World, w': World, id: string)
    requires Rec(w.disk, id).Some? && w'.files == w.files
    requires w'.disk == Run(w.disk, DeleteSteps(Rec(w.disk, id).value)) && w'.images == w.images - {id}
    ensures Moves(c, hash, w, w')
  {
    var steps := DeleteSteps(Rec(w.disk, id).value);
    var change := Deleting(id, |steps|, false, Garbage);
    CrashedAtEnd(w.disk, steps);
    OnePut(hash, w.files, []);
    assert Possible(c, w'.files, w.disk, change);
  }

  lemma NoChangeMoves(c: T.Codec, hash: Hash, w: World, w': World)
    requires PutsOnly(hash, w.files, w'.files) && w'.disk == w.disk && w'.images == w.images
    ensures Moves(c, hash, w, w')
  {
    assert Possible(c, w'.files, w.disk, NoChange);
  }
}
