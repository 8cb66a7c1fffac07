/** Runs of creates and deletes, with and without crashes. */
module CrashLaws {
  import opened Wrappers
  import opened Paths
  import opened FileSteps
  import opened Sorting
  import opened TagIndex
  import opened TagLaws

  ghost predicate ValidTags(tags: seq<string>) {
    forall t | t in tags :: ValidTag(t)
  }

  // Junk under a temporary name is harmless.
  lemma TempJunk(d: Disk, p: Path, junk: Content)
    requires CrashOk(d)
    requires if p.RecordFile? then exists id :: id != "" && p == RecordTemp(id) else TmpNamed(p.name)
    ensures CrashOk(d[p := junk]) && forall id :: Rec(d[p := junk], id) == Rec(d, id)
  {
    if p.RecordFile? {
      var id :| id != "" && p == RecordTemp(id);
      RecordNames(id);
      forall other ensures p != RecordPath(other) {
        TempIsNoRecord(id, other);
      }
    }
    forall id ensures Rec(d[p := junk], id) == Rec(d, id) {}
  }

  ghost predicate ListsAll(d: Disk, id: string, tags: seq<string>) {
    Rec(d, id).Some? && forall i | 0 <= i < |tags| :: ValidTag(tags[i]) && tags[i] in Rec(d, id).value.tags
  }

  lemma TagKeepsOk(d: Disk, id: string, tags: seq<string>)
    requires CrashOk(d) && tags != [] && ListsAll(d, id, tags)
    ensures CrashOk(AddTag(d, id, tags[0])) && ListsAll(AddTag(d, id, tags[0]), id, tags[1..])
  {
    forall other ensures Rec(AddTag(d, id, tags[0]), other) == Rec(d, other) {}
    assert Lists(d, id, tags[0]);
  }

  lemma FirstTagCrashSafe(d: Disk, id: string, tags: seq<string>, k: nat, torn: bool, junk: Content)
    requires CrashOk(d) && tags != [] && ValidTag(tags[0]) && k < 2
    ensures CrashOk(Crashed(d, AllTagSteps(id, tags), k, torn, junk))
  {
    var temp := RefFile(WithTmp(tags[0]));
    WithTmpFixpoints(tags[0]);
    CrashedTwo(d, Write(temp, Text(id)), Rename(temp, RefFile(tags[0])), AllTagSteps(id, tags[1..]), k, torn, junk);
    TempJunk(d, temp, Text(id));
    TempJunk(d, temp, junk);
  }

  lemma LaterTagCrash(d: Disk, id: string, tags: seq<string>, k: nat, torn: bool, junk: Content)
    requires tags != [] && k <= |AllTagSteps(id, tags[1..])|
    ensures Crashed(d, AllTagSteps(id, tags), k + 2, torn, junk)
            == Crashed(AddTag(d, id, tags[0]), AllTagSteps(id, tags[1..]), k, torn, junk)
  {
    var t := tags[0];
    RunTwo(d, Write(RefFile(WithTmp(t)), Text(id)), Rename(RefFile(WithTmp(t)), RefFile(t)));
    assert Run(d, TagSteps(id, t)) == AddTag(d, id, t);
    CrashedConcat(d, TagSteps(id, t), AllTagSteps(id, tags[1..]), k, torn, junk);
  }

  lemma {:induction false} TagsCrashSafe(d: Disk, id: string, tags: seq<string>, k: nat, torn: bool, junk: Content)
    requires CrashOk(d) && ListsAll(d, id, tags)
    requires k <= |AllTagSteps(id, tags)|
    ensures CrashOk(Crashed(d, AllTagSteps(id, tags), k, torn, junk))
    decreases |tags|
  {
    if tags == [] {
      assert AllTagSteps(id, tags)[..k] == [];
    } else if k < 2 {
      FirstTagCrashSafe(d, id, tags, k, torn, junk);
    } else {
      TagKeepsOk(d, id, tags);
      TagsCrashSafe(AddTag(d, id, tags[0]), id, tags[1..], k - 2, torn, junk);
      LaterTagCrash(d, id, tags, k - 2, torn, junk);
    }
  }

  // Stopping a create before any step, or inside any write, leaves every ref backed.
  lemma CreateCrashSafe(d: Disk, s: Snapshot, k: nat, torn: bool, junk: Content)
    requires CrashOk(d) && FreshId(d, s.id) && ValidTags(s.tags) && k <= |CreateSteps(s)|
    ensures CrashOk(Crashed(d, CreateSteps(s), k, torn, junk))
  {
    var temp := RecordTemp(s.id);
    var rest := AllTagSteps(s.id, s.tags);
    if k < 2 {
      CrashedTwo(d, Write(temp, Json(s)), Rename(temp, RecordPath(s.id)), rest, k, torn, junk);
      TempJunk(d, temp, Json(s));
      TempJunk(d, temp, junk);
    } else {
      CrashedConcat(d, RecordSteps(s), rest, k - 2, torn, junk);
      RunCreate(d, s);
      AddRecordIs(d, s);
      TagsCrashSafe(AddRecord(d, s), s.id, s.tags, k - 2, torn, junk);
    }
  }

  lemma {:induction false} RemoveStepsAre(tags: seq<string>, k: nat)
    requires k <= |tags|
    ensures |RemoveSteps(tags)| == |tags| && RemoveSteps(tags)[..k] == RemoveSteps(tags[..k])
    decreases |tags|
  {
    if tags != [] && k > 0 {
      RemoveStepsAre(tags[1..], k - 1);
      assert tags[..k][1..] == tags[1..][..k - 1];
    } else if tags != [] {
      RemoveStepsAre(tags[1..], 0);
    }
  }

  // What a delete leaves when it stops.
  lemma DeleteCrashed(d: Disk, s: Snapshot, k: nat, torn: bool, junk: Content)
    requires k <= |DeleteSteps(s)|
    ensures |DeleteSteps(s)| == |s.tags| + 1
    ensures Crashed(d, DeleteSteps(s), k, torn, junk)
            == if k <= |s.tags| then WithoutTags(d, s.tags[..k]) else WithoutTags(d, s.tags) - {RecordPath(s.id)}
  {
    RemoveStepsAre(s.tags, if k <= |s.tags| then k else 0);
    var steps := DeleteSteps(s);
    assert forall i | 0 <= i < |steps| :: !steps[i].Write? by {
      forall i | 0 <= i < |s.tags| ensures RemoveSteps(s.tags)[i].Remove? {
        RemovesOnly(s.tags, i);
      }
    }
    if k <= |s.tags| {
      assert steps[..k] == RemoveSteps(s.tags[..k]);
      RunRemove(d, s.tags[..k]);
    } else {
      assert steps[..k] == steps;
      RunDelete(d, s);
    }
  }

  // The same for stopping a delete: refs go before the record.
  lemma DeleteCrashSafe(d: Disk, s: Snapshot, k: nat, torn: bool, junk: Content)
    requires CrashOk(d) && Rec(d, s.id) == Some(s) && k <= |DeleteSteps(s)|
    ensures CrashOk(Crashed(d, DeleteSteps(s), k, torn, junk))
  {
    DeleteCrashed(d, s, k, torn, junk);
    var left := Crashed(d, DeleteSteps(s), k, torn, junk);
    forall id | id != s.id || k <= |s.tags| ensures Rec(left, id) == Rec(d, id) {
      if RecordPath(id) == RecordPath(s.id) {
        RecordIds(id, s.id);
      }
    }
  }

  lemma {:induction false} RemovesOnly(tags: seq<string>, i: nat)
    requires i < |RemoveSteps(tags)|
    ensures RemoveSteps(tags)[i].Remove?
    decreases |tags|
  {
    if i > 0 {
      RemovesOnly(tags[1..], i - 1);
    }
  }

  // ------------------------------------------------------------ the records a crash leaves

  lemma {:induction false} TagsCrashRecords(d: Disk, id: string, tags: seq<string>, k: nat, torn: bool,
                                            junk: Content, other: string)
    requires k <= |AllTagSteps(id, tags)|
    ensures Rec(Crashed(d, AllTagSteps(id, tags), k, torn, junk), other) == Rec(d, other)
    decreases |tags|
  {
    if tags == [] {
      assert AllTagSteps(id, tags)[..k] == [];
    } else if k < 2 {
      var temp := RefFile(WithTmp(tags[0]));
      CrashedTwo(d, Write(temp, Text(id)), Rename(temp, RefFile(tags[0])), AllTagSteps(id, tags[1..]), k, torn, junk);
    } else {
      LaterTagCrash(d, id, tags, k - 2, torn, junk);
      TagsCrashRecords(AddTag(d, id, tags[0]), id, tags[1..], k - 2, torn, junk, other);
    }
  }

  // A create that stops anywhere leaves all records as they were, and its own whole or not at all.
  lemma CreateCrashRecords(d: Disk, s: Snapshot, k: nat, torn: bool, junk: Content, id: string)
    requires CrashOk(d) && FreshId(d, s.id) && ValidTags(s.tags) && k <= |CreateSteps(s)|
    ensures Rec(Crashed(d, CreateSteps(s), k, torn, junk), id)
            == if id == s.id && k >= 2 then Some(s) else Rec(d, id)
  {
    var temp := RecordTemp(s.id);
    var rest := AllTagSteps(s.id, s.tags);
    if k < 2 {
      CrashedTwo(d, Write(temp, Json(s)), Rename(temp, RecordPath(s.id)), rest, k, torn, junk);
      TempJunk(d, temp, Json(s));
      TempJunk(d, temp, junk);
    } else {
      CrashedConcat(d, RecordSteps(s), rest, k - 2, torn, junk);
      RunCreate(d, s);
      AddRecordIs(d, s);
      TagsCrashRecords(AddRecord(d, s), s.id, s.tags, k - 2, torn, junk, id);
    }
  }

  // A delete that stops anywhere takes away at most its own record, and that only at the end.
  lemma DeleteCrashRecords(d: Disk, s: Snapshot, k: nat, torn: bool, junk: Content, id: string)
    requires Rec(d, s.id) == Some(s) && k <= |DeleteSteps(s)|
    ensures Rec(Crashed(d, DeleteSteps(s), k, torn, junk), id)
            == if id == s.id && k == |s.tags| + 1 then None else Rec(d, id)
  {
    DeleteCrashed(d, s, k, torn, junk);
    if k == |s.tags| + 1 && RecordPath(id) == RecordPath(s.id) {
      RecordIds(id, s.id);
    }
  }

  // ------------------------------------------------------------ runs

  datatype Op = Create(s: Snapshot) | Delete(id: string)

  ghost predicate Accepted(d: Disk, op: Op) {
    match op
    case Create(s) => forall t | t in s.tags :: ValidTag(t) && RefFile(t) !in d
    case Delete(id) => Rec(d, id).Some?
  }

  ghost function StepsOf(d: Disk, op: Op): seq<MetaStep> {
    if !Accepted(d, op) then []
    else match op
      case Create(s) => CreateSteps(s)
      case Delete(id) => DeleteSteps(Rec(d, id).value)
  }

  // An operation either completes or is cut short by a crash after `k` of its steps.
  datatype Event = Completed(op: Op) | Cut(op: Op, k: nat, torn: bool, junk: Content)

  ghost function After(d: Disk, e: Event): Disk {
    var steps := StepsOf(d, e.op);
    match e
    case Completed(_) => Run(d, steps)
    case Cut(_, k, torn, junk) => Crashed(d, steps, if k <= |steps| then k else |steps|, torn, junk)
  }

  ghost function AfterAll(d: Disk, events: seq<Event>): Disk
    decreases |events|
  {
    if events == [] then d else AfterAll(After(d, events[0]), events[1..])
  }

  // Every create uses a new id.
  ghost predicate FreshRun(d: Disk, events: seq<Event>)
    decreases |events|
  {
    events != [] ==>
    && (events[0].op.Create? ==> FreshId(d, events[0].op.s.id))
    && FreshRun(After(d, events[0]), events[1..])
  }

  lemma OneEventCrashOk(d: Disk, e: Event)
    requires CrashOk(d) && (e.op.Create? ==> FreshId(d, e.op.s.id))
    ensures CrashOk(After(d, e))
  {
    var steps := StepsOf(d, e.op);
    var k := if e.Completed? || e.k > |steps| then |steps| else e.k;
    var torn, junk := if e.Cut? then e.torn else false, if e.Cut? then e.junk else Garbage;
    assert steps[..|steps|] == steps;
    assert After(d, e) == Crashed(d, steps, k, torn, junk);
    if Accepted(d, e.op) {
      match e.op
      case Create(s) => CreateCrashSafe(d, s, k, torn, junk);
      case Delete(id) =>
        RecordIdIs(d, id);
        DeleteCrashSafe(d, Rec(d, id).value, k, torn, junk);
    }
  }

  // However often it crashes, and wherever, every ref (but those with extension `tmp`) names a
  // whole record listing it.
  lemma {:induction false} EveryRunCrashOk(d: Disk, events: seq<Event>)
    requires CrashOk(d) && FreshRun(d, events)
    ensures CrashOk(AfterAll(d, events))
    decreases |events|
  {
    if events != [] {
      OneEventCrashOk(d, events[0]);
      EveryRunCrashOk(After(d, events[0]), events[1..]);
    }
  }

  // No crash, and no tag with extension `tmp`.
  ghost predicate Orderly(e: Event) {
    e.Completed? && (e.op.Create? ==> Distinct(e.op.s.tags) && forall t | t in e.op.s.tags :: !TmpNamed(t))
  }

  ghost predicate NoTmpRefs(d: Disk) {
    forall t | RefFile(t) in d :: !TmpNamed(t)
  }

  lemma OneEventKeepsIndex(d: Disk, e: Event)
    requires Whole(d) && Index(d) && NoTmpRefs(d)
    requires Orderly(e) && (e.op.Create? ==> FreshId(d, e.op.s.id))
    ensures Whole(After(d, e)) && Index(After(d, e)) && NoTmpRefs(After(d, e))
  {
    if Accepted(d, e.op) {
      match e.op
      case Create(s) =>
        assert NewTags(d, s.tags);
        forall j | 0 <= j < |s.tags| ensures !Clobbers(d, s.tags, j) {
          assert s.tags[j] in s.tags && ValidTag(s.tags[j]);
          WithTmpFixpoints(s.tags[j]);
        }
        CreateKeepsIndexIff(d, s);
        CreatedRecords(d, s);
        AddRecordIs(d, s);
        forall t | RefFile(t) in After(d, e) ensures !TmpNamed(t) {
          if t !in s.tags && RefFile(t) !in d {
            AddTagsAddsNoOther(AddRecord(d, s), s.id, s.tags, t);
          }
        }
      case Delete(id) =>
        RecordIdIs(d, id);
        DeleteKeepsIndex(d, Rec(d, id).value);
        RunDelete(d, Rec(d, id).value);
    }
  }

  // Ref t holds id s exactly when record s lists t, after every orderly run with fresh ids.
  lemma {:induction false} EveryRunKeepsIndex(d: Disk, events: seq<Event>)
    requires Whole(d) && Index(d) && NoTmpRefs(d) && FreshRun(d, events)
    requires forall i | 0 <= i < |events| :: Orderly(events[i])
    ensures Whole(AfterAll(d, events)) && Index(AfterAll(d, events))
    ensures forall t, id :: RefersTo(AfterAll(d, events), t, id) <==> Lists(AfterAll(d, events), id, t)
    decreases |events|
  {
    if events != [] {
      assert Orderly(events[0]);
      OneEventKeepsIndex(d, events[0]);
      EveryRunKeepsIndex(After(d, events[0]), events[1..]);
    }
  }
}
