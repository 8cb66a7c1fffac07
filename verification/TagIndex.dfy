/** Snapshot records and tag refs as files, the steps that change them, and the index they form. */
module TagIndex {
  import opened Wrappers
  import opened Paths
  import opened FileSteps
  import opened Sorting

  datatype Snapshot = Snapshot(
    id: string, createdAt: nat, tree: string, message: string, tags: seq<string>, files: nat, bytes: nat)

  // snapshots/<name> and refs/tags/<name>
  datatype Path = RecordFile(name: string) | RefFile(name: string)
  datatype Content = Json(snapshot: Snapshot) | Text(id: string) | Garbage
  type Disk = map<Path, Content>
  type MetaStep = Step<Path, Content>

  function RecordPath(id: string): Path { RecordFile(id + ".json") }
  function RecordTemp(id: string): Path { RecordFile(WithTmp(id + ".json")) }

  function Rec(d: Disk, id: string): Option<Snapshot> {
    if RecordPath(id) in d && d[RecordPath(id)].Json? then Some(d[RecordPath(id)].snapshot) else None
  }

  ghost predicate RefersTo(d: Disk, tag: string, id: string) {
    RefFile(tag) in d && d[RefFile(tag)] == Text(id)
  }

  ghost predicate Lists(d: Disk, id: string, tag: string) {
    Rec(d, id).Some? && tag in Rec(d, id).value.tags
  }

  // ------------------------------------------------------------ steps of the operations

  function RecordSteps(s: Snapshot): seq<MetaStep> {
    [Write(RecordTemp(s.id), Json(s)), Rename(RecordTemp(s.id), RecordPath(s.id))]
  }

  function TagSteps(id: string, tag: string): seq<MetaStep> {
    [Write(RefFile(WithTmp(tag)), Text(id)), Rename(RefFile(WithTmp(tag)), RefFile(tag))]
  }

  function AllTagSteps(id: string, tags: seq<string>): seq<MetaStep> {
    if tags == [] then [] else TagSteps(id, tags[0]) + AllTagSteps(id, tags[1..])
  }

  function CreateSteps(s: Snapshot): seq<MetaStep> {
    RecordSteps(s) + AllTagSteps(s.id, s.tags)
  }

  function RemoveSteps(tags: seq<string>): seq<MetaStep> {
    if tags == [] then [] else [Remove(RefFile(tags[0]))] + RemoveSteps(tags[1..])
  }

  function DeleteSteps(s: Snapshot): seq<MetaStep> {
    RemoveSteps(s.tags) + [Remove(RecordPath(s.id))]
  }

  // ------------------------------------------------------------ invariants

  // Every finished record file is whole and filed under its id; its tags passed validation.
  ghost predicate Whole(d: Disk) {
    RecordPath("") !in d &&
    forall name | RecordFile(name) in d && Extension(name) == Some("json") ::
      && d[RecordFile(name)].Json?
      && var s := d[RecordFile(name)].snapshot;
         s.id != "" && name == s.id + ".json" && forall t | t in s.tags :: ValidTag(t)
  }

  // Refs and records agree both ways.
  ghost predicate Index(d: Disk) {
    && (forall t | RefFile(t) in d :: d[RefFile(t)].Text? && Lists(d, d[RefFile(t)].id, t))
    && (forall id, t | Lists(d, id, t) :: RefersTo(d, t, id))
  }

  // What survives any crash: a ref names a record that lists its tag. Names with extension
  // `tmp` may be left-over temporary files and are excepted.
  ghost predicate RefsBacked(d: Disk) {
    forall t | RefFile(t) in d && !TmpNamed(t) :: d[RefFile(t)].Text? && Lists(d, d[RefFile(t)].id, t)
  }

  ghost predicate CrashOk(d: Disk) {
    Whole(d) && RefsBacked(d)
  }

  ghost predicate FreshId(d: Disk, id: string) {
    id != "" && RecordPath(id) !in d
  }

  // ------------------------------------------------------------ what the steps do

  lemma RecordNames(id: string)
    requires id != ""
    ensures RecordTemp(id) == RecordFile(id + ".tmp") && RecordTemp(id) != RecordPath(id)
    ensures Extension(id + ".json") == Some("json") && Extension(id + ".tmp") == Some("tmp")
    ensures Stem(id + ".json") == id
  {
    DottedParts(id, "json");
    DottedParts(id, "tmp");
    assert id + "." + "json" == id + ".json" && id + "." + "tmp" == id + ".tmp";
  }

  lemma RecordExtension(id: string)
    ensures Extension(id + ".json") == if id == "" then None else Some("json")
  {
    if id == "" {
      assert IsLastDot(id + ".json", 0);
    } else {
      RecordNames(id);
    }
  }

  lemma TempIsNoRecord(a: string, b: string)
    requires a != ""
    ensures RecordTemp(a) != RecordPath(b)
  {
    RecordNames(a);
    var x, y := a + ".tmp", b + ".json";
    assert x[|x| - 1] == 'p' && y[|y| - 1] == 'n';
  }

  lemma RecordIds(a: string, b: string)
    requires RecordPath(a) == RecordPath(b)
    ensures a == b
  {
    assert a == (a + ".json")[..|a + ".json"| - 5] && b == (b + ".json")[..|b + ".json"| - 5];
  }

  lemma RecordIdIs(d: Disk, id: string)
    requires Whole(d) && Rec(d, id).Some?
    ensures id != "" && Rec(d, id).value.id == id
  {
    var s := Rec(d, id).value;
    RecordExtension(id);
    RecordIds(s.id, id);
  }

  function AddRecord(d: Disk, s: Snapshot): Disk {
    (d - {RecordTemp(s.id)})[RecordPath(s.id) := Json(s)]
  }

  function AddTag(d: Disk, id: string, tag: string): Disk {
    (d - {RefFile(WithTmp(tag))})[RefFile(tag) := Text(id)]
  }

  function AddTags(d: Disk, id: string, tags: seq<string>): Disk
    decreases |tags|
  {
    if tags == [] then d else AddTags(AddTag(d, id, tags[0]), id, tags[1..])
  }

  lemma {:induction false} RunTags(d: Disk, id: string, tags: seq<string>)
    ensures Run(d, AllTagSteps(id, tags)) == AddTags(d, id, tags)
    decreases |tags|
  {
    if tags != [] {
      var t := tags[0];
      RunConcat(d, TagSteps(id, t), AllTagSteps(id, tags[1..]));
      RunTwo(d, Write(RefFile(WithTmp(t)), Text(id)), Rename(RefFile(WithTmp(t)), RefFile(t)));
      assert Run(d, TagSteps(id, t)) == AddTag(d, id, t);
      RunTags(AddTag(d, id, t), id, tags[1..]);
    }
  }

  lemma RunCreate(d: Disk, s: Snapshot)
    requires s.id != ""
    ensures Run(d, RecordSteps(s)) == AddRecord(d, s)
    ensures Run(d, CreateSteps(s)) == AddTags(AddRecord(d, s), s.id, s.tags)
  {
    RecordNames(s.id);
    RunTwo(d, Write(RecordTemp(s.id), Json(s)), Rename(RecordTemp(s.id), RecordPath(s.id)));
    assert Run(d, RecordSteps(s)) == AddRecord(d, s);
    RunConcat(d, RecordSteps(s), AllTagSteps(s.id, s.tags));
    RunTags(AddRecord(d, s), s.id, s.tags);
  }

  function WithoutTags(d: Disk, tags: seq<string>): Disk {
    map p | p in d && !(p.RefFile? && p.name in tags) :: d[p]
  }

  lemma WithoutTagsFirst(d: Disk, tags: seq<string>)
    requires tags != []
    ensures WithoutTags(d - {RefFile(tags[0])}, tags[1..]) == WithoutTags(d, tags)
  {
    forall t ensures t in tags <==> t == tags[0] || t in tags[1..] {
      assert tags == [tags[0]] + tags[1..];
    }
  }

  lemma {:induction false} RunRemove(d: Disk, tags: seq<string>)
    ensures Run(d, RemoveSteps(tags)) == WithoutTags(d, tags)
    decreases |tags|
  {
    if tags == [] {
      assert WithoutTags(d, []) == d;
    } else {
      assert RemoveSteps(tags)[0] == Remove(RefFile(tags[0])) && RemoveSteps(tags)[1..] == RemoveSteps(tags[1..]);
      RunRemove(d - {RefFile(tags[0])}, tags[1..]);
      WithoutTagsFirst(d, tags);
    }
  }

  lemma RunDelete(d: Disk, s: Snapshot)
    ensures Run(d, DeleteSteps(s)) == WithoutTags(d, s.tags) - {RecordPath(s.id)}
  {
    RunConcat(d, RemoveSteps(s.tags), [Remove(RecordPath(s.id))]);
    RunRemove(d, s.tags);
    RunOne(WithoutTags(d, s.tags), Remove(RecordPath(s.id)));
  }
}
