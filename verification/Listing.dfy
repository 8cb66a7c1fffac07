/** Listing and finding snapshots (manager.rs, list_snapshots, find_snapshot_by_tag). */
module Listing {
  import opened Wrappers
  import opened Paths
  import opened Sorting
  import opened TagIndex
  import opened Snapshots

  // Newest first, then by id.
  predicate NotAfter(a: Snapshot, b: Snapshot) {
    a.createdAt > b.createdAt || (a.createdAt == b.createdAt && LexLe(a.id, b.id))
  }

  ghost predicate Listed(d: Disk, tag: string) {
    exists id :: Lists(d, id, tag)
  }

  ghost predicate Recorded(d: Disk, s: Snapshot) {
    Rec(d, s.id) == Some(s)
  }

  lemma NotAfterOrder()
    ensures Order(NotAfter)
    ensures forall a, b :: NotAfter(a, b) && NotAfter(b, a) ==> a.id == b.id
  {
    LexOrder();
    forall a, b, c | NotAfter(a, b) && NotAfter(b, c) ensures NotAfter(a, c) {
      assert a.createdAt == b.createdAt == c.createdAt ==> LexLe(a.id, b.id) && LexLe(b.id, c.id);
    }
  }

  // Newer ones come before older ones, and those of one second in the order of their ids.
  ghost predicate NewestFirst(s: seq<Snapshot>) {
    forall i, j | 0 <= i < j < |s| ::
      s[i].createdAt > s[j].createdAt || (s[i].createdAt == s[j].createdAt && Before(s[i].id, s[j].id))
  }

  // `dedup_by` drops adjacent equals only; after this sort that is every duplicate.
  lemma SortedOnce(d: Disk, s: seq<Snapshot>)
    requires forall x | x in s :: Recorded(d, x)
    ensures var r := Dedup((a: Snapshot, b: Snapshot) => a.id == b.id, Sort(NotAfter, s));
            && Sorted(NotAfter, r) && (forall i, j | 0 <= i < j < |r| :: r[i].id != r[j].id)
            && NewestFirst(r) && forall x :: x in r <==> x in s
  {
    var same := (a: Snapshot, b: Snapshot) => a.id == b.id;
    var sorted := Sort(NotAfter, s);
    NotAfterOrder();
    SortSorts(NotAfter, s);
    forall x ensures x in sorted <==> x in s {
      assert x in sorted <==> x in multiset(sorted);
      assert x in s <==> x in multiset(s);
    }
    DedupSorted(NotAfter, same, sorted);
    var r := Dedup(same, sorted);
    forall i, j | 0 <= i < j < |r| ensures r[i].id != r[j].id {
      assert r[i] in r && r[j] in r;
    }
    forall i, j | 0 <= i < j < |r|
      ensures r[i].createdAt > r[j].createdAt || (r[i].createdAt == r[j].createdAt && Before(r[i].id, r[j].id))
    {
      assert NotAfter(r[i], r[j]) && r[i].id != r[j].id;
      LexLeIff(r[i].id, r[j].id);
    }
  }

  // ------------------------------------------------------------ looking up

  // The ids of all finished record files, in directory order.
  method AllIds(m: SnapshotManager) returns (ids: seq<string>)
    requires Whole(m.disk)
    ensures forall id :: id in ids <==> Rec(m.disk, id).Some?
  {
    ids := [];
    var todo := m.disk.Keys;
    while todo != {}
      invariant todo <= m.disk.Keys
      invariant forall id | id in ids :: Rec(m.disk, id).Some?
      invariant forall id | Rec(m.disk, id).Some? :: id in ids || RecordPath(id) in todo
      decreases todo
    {
      var p :| p in todo;
      todo := todo - {p};
      if p.RecordFile? && Extension(p.name) == Some("json") {
        var stem := Stem(p.name);
        RecordNames(m.disk[p].snapshot.id);
        ids := ids + [stem];
      }
      forall id | Rec(m.disk, id).Some? && RecordPath(id) == p ensures id in ids {
        RecordExtension(id);
        RecordIdIs(m.disk, id);
        RecordNames(id);
      }
    }
  }

  ghost predicate HasRef(d: Disk, tag: string) {
    RefFile(tag) in d && d[RefFile(tag)].Text?
  }

  // The tag names a record through its ref.
  ghost predicate Found(d: Disk, tag: string) {
    ValidTag(tag) && HasRef(d, tag) && Rec(d, d[RefFile(tag)].id).Some?
  }

  // The id each tag refers to; fails on a tag that is invalid or refers to nothing.
  method TaggedIds(m: SnapshotManager, tags: seq<string>) returns (r: Option<seq<string>>)
    ensures r.None? <==> exists t | t in tags :: !ValidTag(t) || !HasRef(m.disk, t)
    ensures r.Some? ==> |r.value| == |tags| && forall i | 0 <= i < |tags| :: RefersTo(m.disk, tags[i], r.value[i])
  {
    for i := 0 to |tags|
      invariant forall j | 0 <= j < i :: ValidTag(tags[j])
    {
      if !ValidTag(tags[i]) {
        return None;
      }
    }
    var ids := [];
    for i := 0 to |tags|
      invariant |ids| == i && forall j | 0 <= j < i :: RefersTo(m.disk, tags[j], ids[j])
    {
      var id := m.GetSnapshotByTag(tags[i]);
      if id.Err? || id.value.None? {
        assert tags[i] in tags && !HasRef(m.disk, tags[i]);
        return None;
      }
      ids := ids + [id.value.value];
    }
    r := Some(ids);
  }

  // One of the tags refers to the snapshot.
  ghost predicate Named(d: Disk, tags: Option<seq<string>>, s: Snapshot) {
    tags.Some? ==> exists t | t in tags.value :: RefersTo(d, t, s.id)
  }

  // Fails exactly when some tag names no record; otherwise exactly the named records, each once,
  // newest first.
  method ListSnapshots(m: SnapshotManager, tags: Option<seq<string>>) returns (r: Option<seq<Snapshot>>)
    requires Whole(m.disk)
    ensures r.None? <==> tags.Some? && exists t | t in tags.value :: !Found(m.disk, t)
    ensures r.Some? ==> forall s :: s in r.value <==> Recorded(m.disk, s) && Named(m.disk, tags, s)
    ensures r.Some? ==> forall i, j | 0 <= i < j < |r.value| ::
              && r.value[i].createdAt >= r.value[j].createdAt && r.value[i].id != r.value[j].id
              && (r.value[i].createdAt == r.value[j].createdAt ==> Before(r.value[i].id, r.value[j].id))
  {
    var ids;
    if tags.Some? {
      var found := TaggedIds(m, tags.value);
      if found.None? {
        return None;
      }
      ids := found.value;
    } else {
      ids := AllIds(m);
    }
    var snapshots: seq<Snapshot> := [];
    for i := 0 to |ids|
      invariant |snapshots| == i && forall j | 0 <= j < i :: Rec(m.disk, ids[j]) == Some(snapshots[j])
    {
      var s := m.GetSnapshot(ids[i]);
      if s.None? {
        assert ids[i] in ids;
        assert tags.value[i] in tags.value && RefersTo(m.disk, tags.value[i], ids[i]);
        assert !Found(m.disk, tags.value[i]);
        return None;
      }
      snapshots := snapshots + [s.value];
    }
    ExactlyNamed(m.disk, tags, ids, snapshots);
    SortedOnce(m.disk, snapshots);
    snapshots := Sort(NotAfter, snapshots);
    snapshots := Dedup((a: Snapshot, b: Snapshot) => a.id == b.id, snapshots);
    assert tags.Some? ==> forall t | t in tags.value :: Found(m.disk, t) by {
      forall i | tags.Some? && 0 <= i < |tags.value| ensures Found(m.disk, tags.value[i]) {
        assert tags.value[i] in tags.value && RefersTo(m.disk, tags.value[i], ids[i]);
      }
    }
    r := Some(snapshots);
  }

  lemma ExactlyNamed(d: Disk, tags: Option<seq<string>>, ids: seq<string>, snapshots: seq<Snapshot>)
    requires Whole(d) && |snapshots| == |ids|
    requires forall j | 0 <= j < |ids| :: Rec(d, ids[j]) == Some(snapshots[j])
    requires if tags.Some? then |ids| == |tags.value| && forall i | 0 <= i < |ids| :: RefersTo(d, tags.value[i], ids[i])
             else forall id :: id in ids <==> Rec(d, id).Some?
    ensures forall s :: s in snapshots <==> Recorded(d, s) && Named(d, tags, s)
  {
    forall s | s in snapshots ensures Recorded(d, s) && Named(d, tags, s) {
      var j :| 0 <= j < |snapshots| && snapshots[j] == s;
      RecordIdIs(d, ids[j]);
      if tags.Some? {
        assert tags.value[j] in tags.value;
      }
    }
    forall s | Recorded(d, s) && Named(d, tags, s) ensures s in snapshots {
      if tags.Some? {
        var t :| t in tags.value && RefersTo(d, t, s.id);
        var j :| 0 <= j < |tags.value| && tags.value[j] == t;
        assert snapshots[j] == s;
      } else {
        assert s.id in ids;
        var j :| 0 <= j < |ids| && ids[j] == s.id;
        assert snapshots[j] == s;
      }
    }
  }

  // The record a tag names, if it has a ref; a ref that names no record is an error.
  method FindSnapshotByTag(m: SnapshotManager, tag: string) returns (r: Result<Option<Snapshot>, Error>)
    requires Whole(m.disk)
    ensures r == Ok(None) <==> ValidTag(tag) && RefFile(tag) !in m.disk
    ensures r.Ok? && r.value.Some? <==> Found(m.disk, tag)
    ensures r.Ok? && r.value.Some? ==> Recorded(m.disk, r.value.value) && RefersTo(m.disk, tag, r.value.value.id)
    ensures r == Err(BadTag(tag)) <==> !ValidTag(tag)
  {
    if !ValidTag(tag) {
      return Err(BadTag(tag));
    }
    var id := m.GetSnapshotByTag(tag);
    if id.Err? {
      return Err(id.error);
    }
    if id.value.None? {
      return Ok(None);
    }
    assert RefersTo(m.disk, tag, id.value.value);
    var s := m.GetSnapshot(id.value.value);
    if s.None? {
      return Err(NotFound(id.value.value));
    }
    RecordIdIs(m.disk, id.value.value);
    r := Ok(s);
  }

  // ------------------------------------------------------------ against a scan of the records

  lemma NotListed(d: Disk, tag: string)
    requires Whole(d) && !ValidTag(tag)
    ensures !Listed(d, tag)
  {
    forall id | Rec(d, id).Some? ensures tag !in Rec(d, id).value.tags {
      RecordIdIs(d, id);
      RecordExtension(id);
    }
  }

  // With the index, looking tags up finds what a scan of the records for them would: the tags some
  // record lists, and the records that list one of them.
  lemma LookupIsScan(d: Disk, tag: string, s: Snapshot)
    requires Whole(d) && Index(d) && Recorded(d, s)
    ensures Found(d, tag) <==> Listed(d, tag)
    ensures RefersTo(d, tag, s.id) <==> tag in s.tags
  {
    if Listed(d, tag) && !ValidTag(tag) {
      NotListed(d, tag);
    }
    if id :| Lists(d, id, tag) {
      assert RefersTo(d, tag, id);
    }
    assert tag in s.tags <==> Lists(d, s.id, tag);
  }

  // After any crash, a valid tag (extension `tmp` excepted) that has a ref still names a record,
  // and one that lists it.
  lemma LookupAfterCrash(d: Disk, tag: string)
    requires CrashOk(d) && ValidTag(tag) && !TmpNamed(tag) && RefFile(tag) in d
    ensures Found(d, tag) && Lists(d, d[RefFile(tag)].id, tag)
  {}
}
