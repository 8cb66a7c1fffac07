/** The two-way tag index over creates, deletes and crashes. */
module TagLaws {
  import opened Wrappers
  import opened Paths
  import opened FileSteps
  import opened Sorting
  import opened TagIndex

  // ------------------------------------------------------------ adding tags

  // Writing the j-th tag goes through a temporary name that is somebody's ref by then.
  ghost predicate Clobbers(d: Disk, tags: seq<string>, j: nat)
    requires j < |tags|
  {
    !TmpNamed(tags[j]) && (RefFile(WithTmp(tags[j])) in d || exists i :: 0 <= i < j && tags[i] == WithTmp(tags[j]))
  }

  ghost predicate NoClobber(d: Disk, tags: seq<string>) {
    forall j | 0 <= j < |tags| :: !Clobbers(d, tags, j)
  }

  ghost predicate NewTags(d: Disk, tags: seq<string>) {
    Distinct(tags) && forall t | t in tags :: ValidTag(t) && RefFile(t) !in d
  }

  lemma {:induction false} AddTagsKeepsRecords(d: Disk, id: string, tags: seq<string>, name: string)
    ensures RecordFile(name) in AddTags(d, id, tags) <==> RecordFile(name) in d
    ensures RecordFile(name) in d ==> AddTags(d, id, tags)[RecordFile(name)] == d[RecordFile(name)]
    decreases |tags|
  {
    if tags != [] {
      AddTagsKeepsRecords(AddTag(d, id, tags[0]), id, tags[1..], name);
    }
  }

  lemma {:induction false} AddTagsAddsNoOther(d: Disk, id: string, tags: seq<string>, v: string)
    requires RefFile(v) !in d && v !in tags
    ensures RefFile(v) !in AddTags(d, id, tags)
    decreases |tags|
  {
    if tags != [] {
      AddTagsAddsNoOther(AddTag(d, id, tags[0]), id, tags[1..], v);
    }
  }

  lemma {:induction false} AddTagsExact(d: Disk, id: string, tags: seq<string>, v: string)
    requires NoClobber(d, tags) && forall t | t in tags :: ValidTag(t)
    ensures var after := AddTags(d, id, tags);
            && (RefFile(v) in after <==> v in tags || RefFile(v) in d)
            && (v in tags ==> after[RefFile(v)] == Text(id))
            && (v !in tags && RefFile(v) in d ==> after[RefFile(v)] == d[RefFile(v)])
    decreases |tags|
  {
    if tags != [] {
      var t := tags[0];
      var next := AddTag(d, id, t);
      assert t in tags && ValidTag(t);
      WithTmpFixpoints(t);
      assert !Clobbers(d, tags, 0);
      assert forall u | u in tags[1..] :: u in tags;
      forall j | 0 <= j < |tags[1..]| ensures !Clobbers(next, tags[1..], j) {
        assert !Clobbers(d, tags, j + 1);
        assert tags[0] == t;
        assert forall i | 0 <= i < j :: tags[1..][i] == tags[i + 1];
      }
      AddTagsExact(next, id, tags[1..], v);
    }
  }

  lemma ClobbersTail(d: Disk, id: string, tags: seq<string>, j: nat)
    requires 0 < j < |tags| && Clobbers(d, tags, j)
    requires RefFile(WithTmp(tags[j])) in d ==> RefFile(WithTmp(tags[j])) in AddTag(d, id, tags[0])
    ensures Clobbers(AddTag(d, id, tags[0]), tags[1..], j - 1)
  {
    var v := WithTmp(tags[j]);
    if RefFile(v) !in d {
      var i :| 0 <= i < j && tags[i] == v;
      if i > 0 {
        assert tags[1..][i - 1] == v;
      }
    }
  }

  lemma NewTagsTail(d: Disk, id: string, tags: seq<string>)
    requires tags != [] && NewTags(d, tags)
    ensures NewTags(AddTag(d, id, tags[0]), tags[1..])
  {
    assert forall u | u in tags[1..] :: u in tags && u != tags[0];
  }

  // A ref that the first tag removes is not set again by the others.
  lemma FirstTagLoses(d: Disk, id: string, tags: seq<string>, v: string)
    requires tags != [] && v !in tags && RefFile(v) !in AddTag(d, id, tags[0])
    ensures RefFile(v) !in AddTags(d, id, tags)
  {
    AddTagsAddsNoOther(AddTag(d, id, tags[0]), id, tags[1..], v);
  }

  lemma {:induction false} AddTagsLoses(d: Disk, id: string, tags: seq<string>, j: nat)
    requires j < |tags| && Clobbers(d, tags, j) && NewTags(d, tags)
    ensures RefFile(WithTmp(tags[j])) !in AddTags(d, id, tags)
    decreases |tags|
  {
    var v := WithTmp(tags[j]);
    if j == 0 {
      assert tags[0] in tags && ValidTag(tags[0]);
      WithTmpFixpoints(tags[0]);
      FirstTagLoses(d, id, tags, v);
    } else if RefFile(v) in d && RefFile(v) !in AddTag(d, id, tags[0]) {
      FirstTagLoses(d, id, tags, v);
    } else {
      ClobbersTail(d, id, tags, j);
      NewTagsTail(d, id, tags);
      AddTagsLoses(AddTag(d, id, tags[0]), id, tags[1..], j - 1);
    }
  }

  // ------------------------------------------------------------ the index

  lemma AddRecordIs(d: Disk, s: Snapshot)
    requires Whole(d) && FreshId(d, s.id) && forall t | t in s.tags :: ValidTag(t)
    ensures var d' := AddRecord(d, s);
            && Whole(d') && Rec(d', s.id) == Some(s)
            && (forall id | id != s.id :: Rec(d', id) == Rec(d, id))
            && (forall v :: RefFile(v) in d' <==> RefFile(v) in d)
            && (forall v | RefFile(v) in d :: d'[RefFile(v)] == d[RefFile(v)])
  {
    RecordNames(s.id);
    forall id ensures RecordTemp(s.id) != RecordPath(id) ensures id != s.id ==> RecordPath(id) != RecordPath(s.id) {
      TempIsNoRecord(s.id, id);
      if RecordPath(id) == RecordPath(s.id) {
        RecordIds(id, s.id);
      }
    }
  }

  lemma CreatedRecords(d: Disk, s: Snapshot)
    requires Whole(d) && FreshId(d, s.id) && forall t | t in s.tags :: ValidTag(t)
    ensures var after := Run(d, CreateSteps(s));
            && after == AddTags(AddRecord(d, s), s.id, s.tags) && Whole(after)
            && Rec(after, s.id) == Some(s) && forall id | id != s.id :: Rec(after, id) == Rec(d, id)
  {
    var d' := AddRecord(d, s);
    RunCreate(d, s);
    AddRecordIs(d, s);
    forall name
      ensures RecordFile(name) in AddTags(d', s.id, s.tags) <==> RecordFile(name) in d'
      ensures RecordFile(name) in d' ==> AddTags(d', s.id, s.tags)[RecordFile(name)] == d'[RecordFile(name)]
    {
      AddTagsKeepsRecords(d', s.id, s.tags, name);
    }
    forall id ensures Rec(AddTags(d', s.id, s.tags), id) == Rec(d', id) {
      AddTagsKeepsRecords(d', s.id, s.tags, id + ".json");
    }
  }

  // A create keeps the two-way index exactly when no tag is written through another tag's name.
  lemma CreateKeepsIndexIff(d: Disk, s: Snapshot)
    requires Whole(d) && Index(d) && FreshId(d, s.id) && NewTags(d, s.tags)
    ensures Index(Run(d, CreateSteps(s))) <==> NoClobber(d, s.tags)
  {
    var d' := AddRecord(d, s);
    var after := Run(d, CreateSteps(s));
    AddRecordIs(d, s);
    CreatedRecords(d, s);
    assert forall j | 0 <= j < |s.tags| :: Clobbers(d, s.tags, j) <==> Clobbers(d', s.tags, j);
    if NoClobber(d, s.tags) {
      forall v
        ensures RefFile(v) in after <==> v in s.tags || RefFile(v) in d
        ensures v in s.tags ==> after[RefFile(v)] == Text(s.id)
        ensures v !in s.tags && RefFile(v) in d ==> after[RefFile(v)] == d[RefFile(v)]
      {
        AddTagsExact(d', s.id, s.tags, v);
      }
      forall t | RefFile(t) in after ensures after[RefFile(t)].Text? && Lists(after, after[RefFile(t)].id, t) {
        if t !in s.tags {
          assert Lists(d, d[RefFile(t)].id, t);
        }
      }
      forall id, t | Lists(after, id, t) ensures RefersTo(after, t, id) {
        if id != s.id {
          assert Lists(d, id, t);
        }
      }
    } else {
      var j :| 0 <= j < |s.tags| && Clobbers(d, s.tags, j);
      AddTagsLoses(d', s.id, s.tags, j);
      var v := WithTmp(s.tags[j]);
      assert !RefersTo(after, v, s.id);
      if RefFile(v) in d {
        var id := d[RefFile(v)].id;
        assert Lists(d, id, v);
        assert Lists(after, id, v) && !RefersTo(after, v, id);
      } else {
        assert Lists(after, s.id, v);
      }
    }
  }

  // Deleting removes exactly the record and its tags, which can then be used again.
  lemma DeleteKeepsIndex(d: Disk, s: Snapshot)
    requires Whole(d) && Index(d) && Rec(d, s.id) == Some(s)
    ensures var after := Run(d, DeleteSteps(s));
            && Whole(after) && Index(after)
            && Rec(after, s.id).None? && (forall id | id != s.id :: Rec(after, id) == Rec(d, id))
            && (forall t | t in s.tags :: RefFile(t) !in after)
  {
    var after := Run(d, DeleteSteps(s));
    RunDelete(d, s);
    forall id | id != s.id ensures Rec(after, id) == Rec(d, id) {
      if RecordPath(id) == RecordPath(s.id) {
        RecordIds(id, s.id);
      }
    }
    forall t | RefFile(t) in after ensures after[RefFile(t)].Text? && Lists(after, after[RefFile(t)].id, t) {
      assert Lists(d, d[RefFile(t)].id, t);
    }
    forall id, t | Lists(after, id, t) ensures RefersTo(after, t, id) {
      assert Lists(d, id, t);
      assert t in s.tags ==> Lists(d, s.id, t);
    }
  }

  // With the index, a tag belongs to at most one snapshot.
  lemma TagOwner(d: Disk, a: string, b: string, tag: string)
    requires Index(d) && Lists(d, a, tag) && Lists(d, b, tag)
    ensures a == b
  {
    assert RefersTo(d, tag, a) && RefersTo(d, tag, b);
  }

  // From an empty directory: a snapshot tagged `v1.tmp`, then another tagged `v1.0`, and the first
  // has lost its ref.
  lemma LaterTagDestroys(a: Snapshot, b: Snapshot)
    requires a.id != "" && b.id != "" && a.id != b.id && a.tags == ["v1.tmp"] && b.tags == ["v1.0"]
    ensures var first := Run(map[], CreateSteps(a));
            var second := Run(first, CreateSteps(b));
            && Whole(first) && Index(first) && FreshId(first, b.id) && NewTags(first, b.tags)
            && Lists(second, a.id, "v1.tmp") && !RefersTo(second, "v1.tmp", a.id) && !Index(second)
  {
    var none: Disk := map[];
    var first := Run(none, CreateSteps(a));
    var second := Run(first, CreateSteps(b));
    VersionTags();
    assert a.tags[0] == "v1.tmp" && b.tags[0] == "v1.0" && "v1.0" != "v1.tmp";
    CreatedRecords(none, a);
    CreateKeepsIndexIff(none, a);
    assert Rec(none, b.id).None? && Rec(first, b.id).None?;
    RecordExtension(b.id);
    AddTagsAddsNoOther(AddRecord(none, a), a.id, a.tags, "v1.0");
    assert RefersTo(first, "v1.tmp", a.id);
    assert Clobbers(first, b.tags, 0);
    CreateKeepsIndexIff(first, b);
    CreatedRecords(first, b);
    AddRecordIs(first, b);
    AddTagsLoses(AddRecord(first, b), b.id, b.tags, 0);
  }
}
