/** The snapshot manager (manager.rs): records, tags and trees together. */
module Snapshots {
  import opened Wrappers
  import opened Paths
  import opened FileSteps
  import opened Sorting
  import opened Objects
  import T = Trees
  import opened Counting
  import opened Build
  import R = Restore
  import opened TagIndex
  import opened TagLaws
  import opened Histories

  datatype Error =
    | BadTag(tag: string)
    | ClockBeforeEpoch
    | TagExists(tag: string)
    | CannotStore
    | NotFound(id: string)
    | Unreadable(tag: string)

  function GivenTags(tags: Option<seq<string>>): seq<string> {
    if tags.Some? then tags.value else []
  }

  // The least tag of its kind.
  ghost predicate Least(tags: seq<string>, tag: string, bad: string -> bool) {
    tag in tags && bad(tag) && forall t | t in tags && bad(t) :: LexLe(tag, t)
  }

  // Why a create fails: an invalid tag, else the clock, else a taken tag, else the workspace.
  ghost predicate Explains(error: Error, d: Disk, tags: seq<string>, clock: int, workspace: T.Node) {
    var invalid := (t: string) => !ValidTag(t);
    var taken := (t: string) => RefFile(t) in d;
    match error
    case BadTag(t) => Least(tags, t, invalid)
    case ClockBeforeEpoch => clock < 0 && forall t | t in tags :: ValidTag(t)
    case TagExists(t) => clock >= 0 && Least(tags, t, taken) && forall u | u in tags :: ValidTag(u)
    case CannotStore =>
      && clock >= 0 && (forall t | t in tags :: ValidTag(t) && RefFile(t) !in d)
      && !(workspace.Dir? && T.Encodable(workspace))
    case _ => false
  }

  /** The directory a snapshot is restored to. */
  class Destination {
    var node: Option<T.Node>

    constructor (node: Option<T.Node>)
      ensures this.node == node
    {
      this.node := node;
    }
  }

  /** The handle on one snapshot directory. */
  class SnapshotManager {
    const c: T.Codec
    const store: ObjectStore
    var disk: Disk                          // snapshots/ and refs/tags/
    ghost var images: map<string, T.Image>  // what each snapshot was taken of

    ghost predicate Valid()
      reads this, store
    {
      && store.Valid() && c.Valid() && Whole(disk)
      && (CollisionFree(store.hash, store.hashed) ==> Restorable(c, store.files, disk, images))
    }

    ghost function State(): World
      reads this, store
    {
      World(store.files, store.hashed, disk, images)
    }

    // A new session on what earlier sessions, and their crashes, have left.
    constructor (c: T.Codec, store: ObjectStore, disk: Disk, ghost images: map<string, T.Image>)
      requires c.Valid() && store.Valid() && Whole(disk)
      requires CollisionFree(store.hash, store.hashed) ==> Restorable(c, store.files, disk, images)
      ensures Valid() && this.c == c && this.store == store && this.disk == disk && this.images == images
    {
      this.c, this.store := c, store;
      this.disk, this.images := disk, images;
    }

    // `id` is a new UUID and `clock` the system time in seconds.
    method CreateSnapshot(workspace: T.Node, message: Option<string>, tags: Option<seq<string>>, clock: int, id: string)
      returns (r: Result<string, Error>)
      requires Valid() && FreshId(disk, id)
      modifies this, store`files, store`hashed
      ensures Valid() && Advances(old(State()), State())
      ensures CollisionFree(store.hash, store.hashed) ==> Moves(c, store.hash, old(State()), State())
      ensures forall other | other != id :: Rec(disk, other) == Rec(old(disk), other)
      ensures r.Ok? <==>
              && (tags.Some? ==> forall t | t in tags.value :: ValidTag(t) && RefFile(t) !in old(disk))
              && clock >= 0 && workspace.Dir? && T.Encodable(workspace)
      ensures r.Err? ==> disk == old(disk) && images == old(images)
      ensures r.Err? ==> Explains(r.error, old(disk), GivenTags(tags), clock, workspace)
      ensures r.Err? ==>
                var given := GivenTags(tags);
                match r.error
                case BadTag(t) => tags.Some? && t in tags.value && !ValidTag(t)
                case ClockBeforeEpoch => clock < 0 && forall u | u in given :: ValidTag(u)
                case TagExists(t) =>
                  && clock >= 0 && tags.Some? && t in tags.value && RefFile(t) in old(disk)
                  && forall u | u in given :: ValidTag(u)
                case CannotStore => !workspace.Dir? || !T.Encodable(workspace)
                case _ => false
      ensures r.Ok? ==> r.value == id && Rec(disk, id).Some?
      // What the record says of the directory: how many of its paths hold a file or a link, and how
      // long its files are, both modulo 2^64.
      ensures r.Ok? ==>
                var s := Rec(disk, id).value;
                var img := T.ImageOf(c, workspace);
                && s.id == id && s.createdAt == clock
                && s.message == (if message.Some? then message.value else "Snapshot " + id)
                && Enumerates(img, LeafPaths(img))
                && s.files == |LeafPaths(img)| % 0x1_0000_0000_0000_0000
                && s.bytes == LengthsAt(img, LeafPaths(img)) % 0x1_0000_0000_0000_0000
                && disk == Run(old(disk), CreateSteps(s)) && images == old(images)[id := img]
      // Its tags are those given, once each and in order, and they are its own from then on unless one
      // is written through the name of another.
      ensures r.Ok? ==>
                var s := Rec(disk, id).value;
                && (forall i, j | 0 <= i < j < |s.tags| :: Before(s.tags[i], s.tags[j]))
                && (forall t :: t in s.tags <==> tags.Some? && t in tags.value)
                && (Index(old(disk)) ==> (Index(disk) <==> NoClobber(old(disk), s.tags)))
    {
      ExtendsSelf(store.hash, store.State());
      NoChangeMoves(c, store.hash, State(), State());
      SortedSetIs(GivenTags(tags));
      var prepared := PrepareTags(GivenTags(tags), clock, workspace);
      if prepared.Err? {
        return Err(prepared.error);
      }
      r := StoreSnapshot(workspace, message, prepared.value, clock, id);
      if r.Ok? && Index(old(disk)) {
        CreateKeepsIndexIff(old(disk), Rec(disk, id).value);
      }
    }

    // Build the tree, then record the snapshot.
    method StoreSnapshot(workspace: T.Node, message: Option<string>, tagList: seq<string>, clock: nat, id: string)
      returns (r: Result<string, Error>)
      requires Valid() && FreshId(disk, id) && forall t | t in tagList :: ValidTag(t)
      modifies this, store`files, store`hashed
      ensures Valid() && Advances(old(State()), State())
      ensures CollisionFree(store.hash, store.hashed) ==> Moves(c, store.hash, old(State()), State())
      ensures forall other | other != id :: Rec(disk, other) == Rec(old(disk), other)
      ensures r == if workspace.Dir? && T.Encodable(workspace) then Ok(id) else Err(CannotStore)
      ensures r.Err? ==> disk == old(disk) && images == old(images)
      ensures r.Ok? ==> Rec(disk, id).Some?
      ensures r.Ok? ==>
                var s := Rec(disk, id).value;
                var img := T.ImageOf(c, workspace);
                && s.id == id && s.createdAt == clock && s.tags == tagList
                && s.message == (if message.Some? then message.value else "Snapshot " + id)
                && Enumerates(img, LeafPaths(img))
                && s.files == |LeafPaths(img)| % 0x1_0000_0000_0000_0000
                && s.bytes == LengthsAt(img, LeafPaths(img)) % 0x1_0000_0000_0000_0000
                && disk == Run(old(disk), CreateSteps(s)) && images == old(images)[id := img]
    {
      var built := BuildTree(c, store, workspace);
      if CollisionFree(store.hash, store.hashed) {
        RestorableGrows(c, old(store.files), store.files, disk, images);
      }
      NoChangeMoves(c, store.hash, old(State()), State());
      if built.None? {
        return Err(CannotStore);
      }
      var s := Snapshot(id, clock, built.value.hash, if message.Some? then message.value else "Snapshot " + id,
                        tagList, built.value.files, built.value.bytes);
      RecordSnapshot(s, T.ImageOf(c, workspace));
      if CollisionFree(store.hash, store.hashed) {
        CreateMoves(c, store.hash, old(State()), State(), s, T.ImageOf(c, workspace));
      }
      r := Ok(id);
    }

    // Save the record, then the tag refs.
    method RecordSnapshot(s: Snapshot, ghost img: T.Image)
      requires Valid() && FreshId(disk, s.id) && img.DirI? && forall t | t in s.tags :: ValidTag(t)
      requires CollisionFree(store.hash, store.hashed) ==> T.Repr(c, store.files, s.tree, img)
      modifies this
      ensures Valid() && Advances(old(State()), State())
      ensures Rec(disk, s.id) == Some(s) && disk == Run(old(disk), CreateSteps(s)) && images == old(images)[s.id := img]
      ensures forall other | other != s.id :: Rec(disk, other) == Rec(old(disk), other)
    {
      CreateAdvances(c, State(), store.files, store.hashed, CollisionFree(store.hash, store.hashed), s, img);
      SaveRecord(s);
      AddAllTags(s.id, s.tags);
      images := images[s.id := img];
    }

    // Sort, deduplicate and validate the tags, and check that none is taken.
    method PrepareTags(tags: seq<string>, clock: int, ghost workspace: T.Node) returns (r: Result<seq<string>, Error>)
      ensures r.Ok? <==> (forall t | t in tags :: ValidTag(t) && RefFile(t) !in disk) && clock >= 0
      ensures r.Err? ==> Explains(r.error, disk, tags, clock, workspace)
      ensures r.Ok? ==> r.value == SortedSet(tags) && Distinct(r.value)
      ensures r.Ok? ==> forall t :: t in r.value <==> t in tags
    {
      var tagList := SortedSet(tags);
      SortedSetIs(tags);
      var bad := FirstInvalid(tagList);
      if bad.Some? {
        return Err(BadTag(bad.value));
      }
      if clock < 0 {
        return Err(ClockBeforeEpoch);
      }
      var taken := FirstTaken(tagList);
      if taken.Some? {
        return Err(TagExists(taken.value));
      }
      r := Ok(tagList);
    }

    method FirstInvalid(tags: seq<string>) returns (r: Option<string>)
      requires Sorted(LexLe, tags)
      ensures r.None? <==> forall t | t in tags :: ValidTag(t)
      ensures r.Some? ==> var d := disk; Least(tags, r.value, (t: string) => !ValidTag(t))
    {
      for i := 0 to |tags|
        invariant forall j | 0 <= j < i :: ValidTag(tags[j])
      {
        if !ValidTag(tags[i]) {
          LexOrder();
          return Some(tags[i]);
        }
      }
      r := None;
    }

    method FirstTaken(tags: seq<string>) returns (r: Option<string>)
      requires Sorted(LexLe, tags)
      ensures r.None? <==> forall t | t in tags :: RefFile(t) !in disk
      ensures r.Some? ==> var d := disk; Least(tags, r.value, (t: string) => RefFile(t) in d)
    {
      for i := 0 to |tags|
        invariant forall j | 0 <= j < i :: RefFile(tags[j]) !in disk
      {
        if RefFile(tags[i]) in disk {
          LexOrder();
          return Some(tags[i]);
        }
      }
      r := None;
    }

    method AddAllTags(id: string, tags: seq<string>)
      modifies this`disk
      ensures disk == AddTags(old(disk), id, tags)
    {
      for i := 0 to |tags|
        invariant AddTags(disk, id, tags[i..]) == AddTags(old(disk), id, tags)
      {
        assert tags[i..][0] == tags[i] && tags[i..][1..] == tags[i + 1..];
        AddTag(id, tags[i]);
      }
      assert tags[|tags|..] == [];
    }

    method RemoveAllTags(tags: seq<string>)
      modifies this`disk
      ensures disk == WithoutTags(old(disk), tags)
    {
      for i := 0 to |tags|
        invariant Run(disk, RemoveSteps(tags[i..])) == Run(old(disk), RemoveSteps(tags))
      {
        assert tags[i..][0] == tags[i] && tags[i..][1..] == tags[i + 1..];
        assert RemoveSteps(tags[i..])[1..] == RemoveSteps(tags[i + 1..]);
        RemoveTag(tags[i]);
      }
      assert tags[|tags|..] == [];
      RunRemove(old(disk), tags);
    }

    // Written under a temporary name, then renamed.
    method SaveRecord(s: Snapshot)
      requires s.id != ""
      modifies this`disk
      ensures disk == AddRecord(old(disk), s)
    {
      RecordNames(s.id);
      disk := Apply(disk, Write(RecordTemp(s.id), Json(s)));
      disk := Apply(disk, Rename(RecordTemp(s.id), RecordPath(s.id)));
    }

    method AddTag(id: string, tag: string)
      modifies this`disk
      ensures disk == TagIndex.AddTag(old(disk), id, tag)
    {
      var temp := RefFile(WithTmp(tag));
      disk := Apply(disk, Write(temp, Text(id)));
      disk := Apply(disk, Rename(temp, RefFile(tag)));
    }

    method GetSnapshot(id: string) returns (r: Option<Snapshot>)
      ensures r == Rec(disk, id)
    {
      var file := RecordPath(id);
      if file !in disk || !disk[file].Json? {
        return None;
      }
      r := Some(disk[file].snapshot);
    }

    // Collision-freeness of what was put so far stands for the strength of BLAKE3.
    method RestoreSnapshot(id: string, dest: Destination, made: T.Meta) returns (r: Result<R.Outcome, Error>)
      requires Valid() && CollisionFree(store.hash, store.hashed)
      modifies store, dest
      ensures Valid() && Advances(old(State()), State()) && disk == old(disk) && images == old(images)
      ensures Moves(c, store.hash, old(State()), State())
      ensures Rec(disk, id).None? ==>
                r == Err(NotFound(id)) && dest.node == old(dest.node) && store.files == old(store.files)
      ensures Rec(disk, id).Some? ==>
                && r.Ok? && id in images && images[id].DirI?
                && R.Restored(store.hash, made, images[id], old(dest.node), r.value, dest.node)
                && (r.value.Done? ==> R.Accounted(old(store.State()), store.State(),
                                                  R.Probes(store.hash, images[id], old(dest.node)),
                                                  R.Copies(store.hash, images[id], old(dest.node))))
    {
      ExtendsSelf(store.hash, store.State());
      NoChangeMoves(c, store.hash, State(), State());
      var s := GetSnapshot(id);
      if s.None? {
        return Err(NotFound(id));
      }
      var o, node := R.RestoreTree(c, store, s.value.tree, images[id], dest.node, made);
      RestorableGrows(c, old(store.files), store.files, disk, images);
      NoChangeMoves(c, store.hash, old(State()), State());
      dest.node := node;
      r := Ok(o);
    }

    method DeleteSnapshot(id: string) returns (r: Result<(), Error>)
      requires Valid()
      modifies this
      ensures Valid() && Advances(old(State()), State()) && Moves(c, store.hash, old(State()), State())
      ensures forall other | other != id :: Rec(disk, other) == Rec(old(disk), other)
      ensures r.Ok? <==> Rec(old(disk), id).Some?
      ensures r.Err? ==> r.error == NotFound(id) && disk == old(disk) && images == old(images)
      ensures r.Ok? ==> disk == Run(old(disk), DeleteSteps(Rec(old(disk), id).value))
      ensures r.Ok? ==> images == old(images) - {id} && Rec(disk, id).None?
      // Exactly the refs of its tags are gone, and the others are as they were.
      ensures r.Ok? ==> forall t ::
                && (RefFile(t) in disk <==> RefFile(t) in old(disk) && t !in Rec(old(disk), id).value.tags)
                && (RefFile(t) in disk ==> disk[RefFile(t)] == old(disk)[RefFile(t)])
    {
      ExtendsSelf(store.hash, store.State());
      NoChangeMoves(c, store.hash, State(), State());
      var found := GetSnapshot(id);
      if found.None? {
        return Err(NotFound(id));
      }
      DeleteAdvances(c, State(), CollisionFree(store.hash, store.hashed), id);
      RemoveAllTags(found.value.tags);
      disk := Apply(disk, Remove(RecordPath(id)));
      images := images - {id};
      DeleteMoves(c, store.hash, old(State()), State(), id);
      r := Ok(());
    }

    method RemoveTag(tag: string)
      modifies this`disk
      ensures disk == Apply(old(disk), Remove(RefFile(tag)))
    {
      if RefFile(tag) in disk {
        disk := Apply(disk, Remove(RefFile(tag)));
      }
    }

    // A ref holds text, or what a torn write has left.
    method GetSnapshotByTag(tag: string) returns (r: Result<Option<string>, Error>)
      ensures r == Ok(None) <==> RefFile(tag) !in disk
      ensures r.Ok? && r.value.Some? <==> RefFile(tag) in disk && disk[RefFile(tag)].Text?
      ensures r.Ok? && r.value.Some? ==> RefersTo(disk, tag, r.value.value)
      ensures r.Err? ==> r.error == Unreadable(tag)
    {
      if RefFile(tag) !in disk {
        return Ok(None);
      }
      if !disk[RefFile(tag)].Text? {
        return Err(Unreadable(tag));
      }
      r := Ok(Some(disk[RefFile(tag)].id));
    }
  }
}
