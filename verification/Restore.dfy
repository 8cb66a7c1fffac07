/** Restoring a stored tree over a destination (manager.rs, restore_tree). */
module Restore {
  import opened Wrappers
  import opened Objects
  import opened Trees

  // Diverted: the code would act through a link or on a special file at `at`;
  // what happens there is not modelled.
  datatype Outcome = Done | Failed(at: seq<string>) | Diverted(at: seq<string>)

  function Under(name: string, o: Outcome): Outcome {
    match o
    case Done => Done
    case Failed(at) => Failed([name] + at)
    case Diverted(at) => Diverted([name] + at)
  }

  function Child(dest: Option<Node>, name: string): Option<Node> {
    if dest.Some? && dest.value.Dir? && name in dest.value.entries then Some(dest.value.entries[name]) else None
  }

  // ------------------------------------------------------------ what restoring does, by image

  // How a regular file meets what is at its path.
  datatype Verdict = Unchanged | Verified | Copy | Conflict | Detour

  function Meet(hash: Hash, bytes: Bytes, secs: nat, dest: Option<Node>): Verdict {
    match dest
    case None => Copy
    case Some(File(b, _, t)) =>
      if |b| == |bytes| && t == secs * NANOS then Unchanged
      else if hash(b) == hash(bytes) then Verified
      else Copy
    case Some(Dir(_, meta)) => if meta.len == |bytes| && meta.mtime == secs * NANOS then Unchanged else Conflict
    case Some(_) => Detour
  }

  ghost predicate Blocked(hash: Hash, img: Image, dest: Option<Node>) {
    match img
    case FileI(b, _, s) => Meet(hash, b, s, dest).Conflict? || Meet(hash, b, s, dest).Detour?
    case LinkI(_) => dest.Some? && dest.value.Dir?
    case DirI(_) => dest.Some? && !dest.value.Dir?
  }

  // Blocked, but by something the code acts through instead of failing.
  ghost predicate Detours(hash: Hash, img: Image, dest: Option<Node>) {
    match img
    case FileI(b, _, s) => Meet(hash, b, s, dest).Detour?
    case LinkI(_) => false
    case DirI(_) => dest.Some? && dest.value.Link?
  }

  // No path of the image is blocked.
  ghost predicate CanRestore(hash: Hash, img: Image, dest: Option<Node>)
    decreases img
  {
    && !Blocked(hash, img, dest)
    && (img.DirI? ==> forall k | k in img.entries :: CanRestore(hash, img.entries[k], Child(dest, k)))
  }

  // The destination afterwards. `made` is what the system gives a new directory or link.
  function Overlay(hash: Hash, made: Meta, img: Image, dest: Option<Node>): Node
    decreases img
  {
    match img
    case FileI(b, m, s) =>
      (match dest
       case Some(File(kept, _, _)) =>
         File(if Meet(hash, b, s, dest).Copy? then b else kept, m, s * NANOS)
       case Some(Dir(es, meta)) => Dir(es, meta.(mode := m, mtime := s * NANOS))
       case _ => File(b, m, s * NANOS))
    case LinkI(t) => Link(t, made)
    case DirI(es) =>
      Dir(map k | k in es :: Overlay(hash, made, es[k], Child(dest, k)),
          if dest.Some? && dest.value.Dir? then dest.value.meta else made)
  }

  // The destination files that get hashed (and stored) for comparison.
  ghost function Probes(hash: Hash, img: Image, dest: Option<Node>): set<Bytes>
    decreases img, 1
  {
    match img
    case FileI(b, _, s) =>
      if dest.Some? && dest.value.File? && !Meet(hash, b, s, dest).Unchanged? then {dest.value.bytes} else {}
    case LinkI(_) => {}
    case DirI(es) => ProbesIn(hash, img, dest, es.Keys)
  }

  ghost function ProbesIn(hash: Hash, img: Image, dest: Option<Node>, keys: set<string>): set<Bytes>
    requires img.DirI? && keys <= img.entries.Keys
    decreases img, 0
  {
    set k, b | k in keys && b in Probes(hash, img.entries[k], Child(dest, k)) :: b
  }

  // Some file content is copied out of the store.
  ghost predicate Copies(hash: Hash, img: Image, dest: Option<Node>)
    decreases img
  {
    match img
    case FileI(b, _, s) => Meet(hash, b, s, dest).Copy?
    case LinkI(_) => false
    case DirI(es) => exists k | k in es :: Copies(hash, es[k], Child(dest, k))
  }

  // Name `k` is as it was, or fully restored.
  ghost predicate Settled(hash: Hash, made: Meta, img: Image, dest: Option<Node>, node: Option<Node>, k: string)
    requires img.DirI?
  {
    || Child(node, k) == Child(dest, k)
    || (k in img.entries && CanRestore(hash, img.entries[k], Child(dest, k))
        && Child(node, k) == Some(Overlay(hash, made, img.entries[k], Child(dest, k))))
  }

  // A restore that stopped with `o` changed nothing at `o.at`, and in every directory on the way
  // left each other name as it was, or, if the image has it, fully restored.
  ghost predicate Spared(hash: Hash, made: Meta, img: Image, dest: Option<Node>, node: Option<Node>, o: Outcome)
    requires !o.Done?
    decreases |o.at|
  {
    if o.at == [] then node == dest && Blocked(hash, img, dest) && (o.Diverted? <==> Detours(hash, img, dest))
    else
      var name := o.at[0];
      && img.DirI? && name in img.entries && !Blocked(hash, img, dest)
      && node.Some? && node.value.Dir?
      && (forall k | k != name :: Settled(hash, made, img, dest, node, k))
      && Spared(hash, made, img.entries[name], Child(dest, name), Child(node, name), o.(at := o.at[1..]))
  }

  // What the methods below promise of one restore.
  ghost predicate Restored(hash: Hash, made: Meta, img: Image, dest: Option<Node>, o: Outcome, node: Option<Node>) {
    && (o.Done? <==> CanRestore(hash, img, dest))
    && (o.Done? ==> node == Some(Overlay(hash, made, img, dest)))
    && (!o.Done? ==> Spared(hash, made, img, dest, node, o))
  }

  // The effect of a completed restore on the store: `probes` are put, nothing else; `copies`
  // says whether CopyFile ran.
  ghost predicate Accounted(s: StoreState, s': StoreState, probes: set<Bytes>, copies: bool) {
    && s'.hashed == s.hashed + probes
    && (probes <= s.hashed ==> s'.files == s.files)
    && s'.copies >= s.copies && (s'.copies > s.copies <==> copies)
  }

  lemma AccountedThen(a: StoreState, b: StoreState, c: StoreState,
                      probes: set<Bytes>, probes': set<Bytes>, copies: bool, copies': bool)
    requires Accounted(a, b, probes, copies) && Accounted(b, c, probes', copies')
    ensures Accounted(a, c, probes + probes', copies || copies')
  {}

  // ------------------------------------------------------------ the restore phase of one directory

  // A directory being restored; `made` is what the system gives a new directory or link.
  datatype Job = Job(hash: Hash, made: Meta, img: Image, dest: Option<Node>) {
    ghost predicate Sound() {
      img.DirI? && (dest.None? || dest.value.Dir?)
    }

    ghost predicate CanRestoreChild(k: string)
      requires img.DirI? && k in img.entries
    {
      CanRestore(hash, img.entries[k], Child(dest, k))
    }

    function OverlayChild(k: string): Node
      requires img.DirI? && k in img.entries
    {
      Overlay(hash, made, img.entries[k], Child(dest, k))
    }

    // `here` is the directory when the names `done` are restored.
    ghost predicate Partly(here: map<string, Node>, done: set<string>) {
      && Sound() && done <= img.entries.Keys
      && (forall k | k in done :: CanRestoreChild(k) && k in here && here[k] == OverlayChild(k))
      && (forall k | k !in done :: Child(Some(Dir(here, made)), k) == Child(dest, k))
    }

    ghost predicate CopiesIn(done: set<string>) {
      img.DirI? && exists k | k in img.entries && k in done :: Copies(hash, img.entries[k], Child(dest, k))
    }

    // The first `i` entries are restored: `names` are theirs.
    ghost predicate Phase1(c: Codec, files: Files, tree: seq<WireEntry>, i: nat, here: map<string, Node>,
                           names: set<string>)
    {
      && Partly(here, names) && Lists(c, files, tree, img)
      && (forall j | 0 <= j < |tree| :: tree[j].name in names <==> j < i)
    }

    // It stopped at entry `i`: all before it are restored, nothing after it is touched.
    ghost predicate Stopped(tree: seq<WireEntry>, i: nat, here: map<string, Node>, meta: Meta, o: Outcome) {
      var now := Some(Dir(here, meta));
      && Sound() && !CanRestore(hash, img, dest)
      && !o.Done? && Spared(hash, made, img, dest, now, o)
      && i < |tree| && o.at != [] && o.at[0] == tree[i].name
      && (forall j | 0 <= j < i ::
            && tree[j].name in img.entries && CanRestoreChild(tree[j].name)
            && Child(now, tree[j].name) == Some(OverlayChild(tree[j].name)))
      && (forall j | i < j < |tree| :: Child(now, tree[j].name) == Child(dest, tree[j].name))
    }
  }

  lemma PartlyMore(job: Job, here: map<string, Node>, done: set<string>, k: string, node: Node)
    requires job.Partly(here, done) && k in job.img.entries && k !in done
    requires job.CanRestoreChild(k) && node == job.OverlayChild(k)
    ensures job.Partly(here[k := node], done + {k})
  {
    forall j | j !in done + {k}
      ensures Child(Some(Dir(here[k := node], job.made)), j) == Child(job.dest, j)
    {
      assert Child(Some(Dir(here, job.made)), j) == Child(job.dest, j);
    }
  }

  lemma StoppedSpares(job: Job, meta: Meta, here: map<string, Node>, done: set<string>,
                      k: string, node: Option<Node>, o: Outcome)
    requires job.Partly(here, done) && k in job.img.entries && k !in done
    requires !o.Done? && !job.CanRestoreChild(k)
    requires Spared(job.hash, job.made, job.img.entries[k], Child(job.dest, k), node, o)
    ensures var now := Some(Dir(if node.Some? then here[k := node.value] else here, meta));
            && !CanRestore(job.hash, job.img, job.dest)
            && Spared(job.hash, job.made, job.img, job.dest, now, Under(k, o))
            && forall j | j != k :: Child(now, j) == Child(Some(Dir(here, job.made)), j)
  {
    var now := Some(Dir(if node.Some? then here[k := node.value] else here, meta));
    forall j | j != k
      ensures Child(now, j) == Child(Some(Dir(here, job.made)), j)
      ensures Settled(job.hash, job.made, job.img, job.dest, now, j)
    {
      if j !in done {
        assert Child(Some(Dir(here, job.made)), j) == Child(job.dest, j);
      }
    }
    assert Child(Some(Dir(here, job.made)), k) == Child(job.dest, k);
    assert o.at == [] ==> node == Child(job.dest, k);
    assert Child(now, k) == node;
    assert Under(k, o).at[1..] == o.at;
  }

  lemma AllPartly(job: Job, here: map<string, Node>, done: set<string>)
    requires job.Partly(here, done) && done == job.img.entries.Keys
    ensures CanRestore(job.hash, job.img, job.dest)
    ensures (map k | k in here && k in done :: here[k]) == Overlay(job.hash, job.made, job.img, job.dest).entries
    ensures ProbesIn(job.hash, job.img, job.dest, done) == Probes(job.hash, job.img, job.dest)
    ensures job.CopiesIn(done) <==> Copies(job.hash, job.img, job.dest)
  {
  }

  lemma ListsGrows(c: Codec, before: Files, after: Files, ws: seq<WireEntry>, img: Image)
    requires Grows(before, after) && img.DirI? && Lists(c, before, ws, img)
    ensures Lists(c, after, ws, img)
  {
    forall i | 0 <= i < |ws|
      ensures EntryRepr(c, after, ws[i], img.entries[ws[i].name])
    {
      EntryGrows(c, before, after, ws[i], img.entries[ws[i].name]);
    }
  }

  lemma ListsNames(c: Codec, files: Files, ws: seq<WireEntry>, img: Image)
    requires img.DirI? && Lists(c, files, ws, img)
    ensures (set w | w in ws :: w.name) == img.entries.Keys
  {
    forall k | k in img.entries
      ensures k in set w | w in ws :: w.name
    {
      var i :| 0 <= i < |ws| && ws[i].name == k;
      assert ws[i] in ws;
    }
  }

  lemma Phase1Start(job: Job, c: Codec, files: Files, tree: seq<WireEntry>, here: map<string, Node>)
    requires job.img.DirI? && Lists(c, files, tree, job.img)
    requires if job.dest.Some? then job.dest.value.Dir? && job.dest.value.entries == here else here == map[]
    ensures job.Phase1(c, files, tree, 0, here, {})
    ensures ProbesIn(job.hash, job.img, job.dest, {}) == {} && !job.CopiesIn({})
  {}

  lemma Phase1Entry(job: Job, c: Codec, files: Files, tree: seq<WireEntry>, i: nat, here: map<string, Node>,
                    names: set<string>)
    requires job.Phase1(c, files, tree, i, here, names) && i < |tree|
    ensures var name := tree[i].name;
            && name in job.img.entries && name !in names && EntryRepr(c, files, tree[i], job.img.entries[name])
            && Child(job.dest, name) == if name in here then Some(here[name]) else None
  {
    var name := tree[i].name;
    assert Child(Some(Dir(here, job.made)), name) == Child(job.dest, name);
  }

  lemma Phase1Next(job: Job, c: Codec, before: Files, files: Files, tree: seq<WireEntry>, i: nat,
                   here: map<string, Node>, names: set<string>, node: Node)
    requires job.Phase1(c, before, tree, i, here, names) && i < |tree| && Grows(before, files)
    requires job.CanRestoreChild(tree[i].name) && node == job.OverlayChild(tree[i].name)
    ensures job.Phase1(c, files, tree, i + 1, here[tree[i].name := node], names + {tree[i].name})
  {
    var name := tree[i].name;
    ListsGrows(c, before, files, tree, job.img);
    PartlyMore(job, here, names, name, node);
    assert forall j | 0 <= j < |tree| && j != i :: tree[j].name != name;
  }

  lemma Phase1Stop(job: Job, c: Codec, files: Files, tree: seq<WireEntry>, i: nat, here: map<string, Node>,
                   names: set<string>, meta: Meta, node: Option<Node>, o: Outcome)
    requires job.Phase1(c, files, tree, i, here, names) && i < |tree|
    requires !o.Done? && !job.CanRestoreChild(tree[i].name)
    requires Spared(job.hash, job.made, job.img.entries[tree[i].name], Child(job.dest, tree[i].name), node, o)
    ensures var name := tree[i].name;
            job.Stopped(tree, i, if node.Some? then here[name := node.value] else here, meta, Under(name, o))
  {
    StoppedSpares(job, meta, here, names, tree[i].name, node, o);
    forall j | 0 <= j < |tree| && j != i
      ensures tree[j].name != tree[i].name && (j > i ==> tree[j].name !in names)
    {}
  }

  lemma Phase1End(job: Job, c: Codec, files: Files, tree: seq<WireEntry>, here: map<string, Node>, names: set<string>)
    requires job.Phase1(c, files, tree, |tree|, here, names)
    ensures names == job.img.entries.Keys
  {}

  lemma Phase1Sums(job: Job, here: map<string, Node>, names: set<string>, name: string)
    requires job.Partly(here, names + {name})
    ensures ProbesIn(job.hash, job.img, job.dest, names + {name})
            == ProbesIn(job.hash, job.img, job.dest, names)
               + Probes(job.hash, job.img.entries[name], Child(job.dest, name))
    ensures job.CopiesIn(names + {name})
            <==> job.CopiesIn(names) || Copies(job.hash, job.img.entries[name], Child(job.dest, name))
  {}

  // ------------------------------------------------------------ the methods

  method RestoreFile(store: ObjectStore, entry: TreeEntry, ghost img: Image, dest: Option<Node>, ghost made: Meta)
    returns (o: Outcome, node: Option<Node>)
    requires store.Valid() && img.FileI?
    requires Lookup(store.files, entry.hash) == Some(img.bytes)
    requires entry.size == |img.bytes| && entry.mode == img.mode && entry.modified == img.secs * NANOS
    modifies store
    ensures store.Valid() && Extends(store.hash, old(store.State()), store.State())
    ensures Restored(store.hash, made, img, dest, o, node)
    ensures o.Done? ==> Accounted(old(store.State()), store.State(),
                                  Probes(store.hash, img, dest), Copies(store.hash, img, dest))
  {
    ExtendsSelf(store.hash, store.State());
    var shouldCopy := true;
    var there := dest;
    if dest.Some? {
      match dest.value {
        case Link(_, _) => return Diverted([]), dest;
        case Special => return Diverted([]), dest;
        case File(bytes, _, mtime) =>
          if |bytes| == entry.size && mtime == entry.modified {
            shouldCopy := false;
          } else {
            var fileHash := store.PutFile(bytes);
            shouldCopy := fileHash != entry.hash;
          }
        case Dir(_, meta) =>
          // Reading a directory as a file fails.
          if meta.len != entry.size || meta.mtime != entry.modified {
            return Failed([]), dest;
          }
          shouldCopy := false;
      }
    }
    if shouldCopy {
      var content := store.CopyFile(entry.hash);
      there := Some(File(content.value, 0, 0));
    }
    // set_mode, set_mtime
    match there.value {
      case File(bytes, _, _) => there := Some(File(bytes, entry.mode, entry.modified));
      case Dir(es, meta) => there := Some(Dir(es, meta.(mode := entry.mode, mtime := entry.modified)));
    }
    o, node := Done, there;
  }

  method RestoreEntry(c: Codec, store: ObjectStore, w: WireEntry, ghost img: Image, dest: Option<Node>, made: Meta)
    returns (o: Outcome, node: Option<Node>)
    requires store.Valid() && EntryRepr(c, store.files, w, img)
    modifies store
    ensures store.Valid() && Extends(store.hash, old(store.State()), store.State())
    ensures Restored(store.hash, made, img, dest, o, node)
    ensures o.Done? ==> Accounted(old(store.State()), store.State(),
                                  Probes(store.hash, img, dest), Copies(store.hash, img, dest))
    decreases img, 1
  {
    ExtendsSelf(store.hash, store.State());
    var entry := Deserialize(w);
    match entry.kind {
      case Blob =>
        o, node := RestoreFile(store, entry, img, dest, made);
      case Tree =>
        o, node := RestoreTree(c, store, entry.hash, img, dest, made);
      case _ =>
        var target := store.GetBlob(entry.hash);
        if dest.Some? && dest.value.Dir? {
          // The removal fails silently, then making the link fails.
          return Failed([]), dest;
        }
        o, node := Done, Some(Link(target.value, made));
    }
  }

  method RestoreTree(c: Codec, store: ObjectStore, h: string, ghost img: Image, dest: Option<Node>, made: Meta)
    returns (o: Outcome, node: Option<Node>)
    requires store.Valid() && img.DirI? && Repr(c, store.files, h, img)
    modifies store
    ensures store.Valid() && Extends(store.hash, old(store.State()), store.State())
    ensures Restored(store.hash, made, img, dest, o, node)
    ensures o.Done? ==> Accounted(old(store.State()), store.State(),
                                  Probes(store.hash, img, dest), Copies(store.hash, img, dest))
    decreases img, 0, 2
  {
    ExtendsSelf(store.hash, store.State());
    // create_dir_all
    if dest.Some? && dest.value.Link? {
      return Diverted([]), dest;
    }
    if dest.Some? && !dest.value.Dir? {
      return Failed([]), dest;
    }
    var meta := if dest.Some? then dest.value.meta else made;
    var here := if dest.Some? then dest.value.entries else map[];

    var treeJson := store.GetBlob(h);
    var tree := c.decode(treeJson.value).value;
    var expected := set w | w in tree :: w.name;
    ListsNames(c, store.files, tree, img);
    ghost var job := Job(store.hash, made, img, dest);
    o, here := RestoreEntries(c, store, tree, job, here, meta, made);
    if o.Done? {
      AllPartly(job, here, img.entries.Keys);
      here := DeleteExtras(here, expected);
      assert here == Overlay(store.hash, made, img, dest).entries;
    }
    node := Some(Dir(here, meta));
  }

  // Phase 1: restore every entry. Extras stay.
  method RestoreEntries(c: Codec, store: ObjectStore, tree: seq<WireEntry>, ghost job: Job, entries: map<string, Node>,
                        ghost meta: Meta, made: Meta)
    returns (o: Outcome, here: map<string, Node>)
    requires store.Valid() && job.hash == store.hash && job.made == made
    requires job.img.DirI? && Lists(c, store.files, tree, job.img)
    requires if job.dest.Some? then job.dest.value.Dir? && job.dest.value.entries == entries else entries == map[]
    modifies store
    ensures store.Valid() && Extends(store.hash, old(store.State()), store.State())
    ensures o.Done? ==> job.Partly(here, job.img.entries.Keys)
    ensures o.Done? ==> Accounted(old(store.State()), store.State(),
                                  ProbesIn(store.hash, job.img, job.dest, job.img.entries.Keys),
                                  job.CopiesIn(job.img.entries.Keys))
    ensures !o.Done? ==> exists i :: 0 <= i < |tree| && job.Stopped(tree, i, here, meta, o)
    decreases job.img, 0, 1
  {
    here := entries;
    var i := 0;
    ghost var names := {};
    Phase1Start(job, c, store.files, tree, here);
    ExtendsSelf(store.hash, store.State());
    while i < |tree|
      invariant 0 <= i <= |tree| && store.Valid() && Extends(store.hash, old(store.State()), store.State())
      invariant job.Phase1(c, store.files, tree, i, here, names)
      invariant Accounted(old(store.State()), store.State(),
                          ProbesIn(store.hash, job.img, job.dest, names), job.CopiesIn(names))
    {
      ghost var before := store.State();
      o, here := RestoreNext(c, store, tree, i, job, here, names, meta, made);
      ExtendsThen(store.hash, old(store.State()), before, store.State());
      if !o.Done? {
        return;
      }
      ghost var name := tree[i].name;
      Phase1Sums(job, here, names, name);
      AccountedThen(old(store.State()), before, store.State(),
                    ProbesIn(store.hash, job.img, job.dest, names),
                    Probes(store.hash, job.img.entries[name], Child(job.dest, name)),
                    job.CopiesIn(names), Copies(store.hash, job.img.entries[name], Child(job.dest, name)));
      names := names + {name};
      i := i + 1;
    }
    Phase1End(job, c, store.files, tree, here, names);
    o := Done;
  }

  // One turn of that loop.
  method RestoreNext(c: Codec, store: ObjectStore, tree: seq<WireEntry>, i: nat, ghost job: Job,
                     before: map<string, Node>, ghost names: set<string>, ghost meta: Meta, made: Meta)
    returns (o: Outcome, here: map<string, Node>)
    requires store.Valid() && i < |tree| && job.hash == store.hash && job.made == made
    requires job.Phase1(c, store.files, tree, i, before, names)
    modifies store
    ensures store.Valid() && Extends(store.hash, old(store.State()), store.State())
    ensures o.Done? ==> job.Phase1(c, store.files, tree, i + 1, here, names + {tree[i].name})
    ensures o.Done? ==> Accounted(old(store.State()), store.State(),
                                  Probes(store.hash, job.img.entries[tree[i].name], Child(job.dest, tree[i].name)),
                                  Copies(store.hash, job.img.entries[tree[i].name], Child(job.dest, tree[i].name)))
    ensures !o.Done? ==> job.Stopped(tree, i, here, meta, o)
    decreases job.img, 0, 0
  {
    var name := tree[i].name;
    var there := if name in before then Some(before[name]) else None;
    Phase1Entry(job, c, store.files, tree, i, before, names);
    ghost var files := store.files;
    var sub;
    o, sub := RestoreEntry(c, store, tree[i], job.img.entries[name], there, made);
    here := if sub.Some? then before[name := sub.value] else before;
    if o.Done? {
      Phase1Next(job, c, files, store.files, tree, i, before, names, sub.value);
    } else {
      Phase1Stop(job, c, files, tree, i, before, names, meta, sub, o);
      o := Under(name, o);
    }
  }

  // Phase 2: delete what the tree does not name.
  method DeleteExtras(entries: map<string, Node>, expected: set<string>) returns (here: map<string, Node>)
    ensures here == map k | k in entries && k in expected :: entries[k]
  {
    here := entries;
    var todo := here.Keys;
    while todo != {}
      invariant todo <= here.Keys <= entries.Keys
      invariant forall k | k in entries :: k in here <==> k in todo || k in expected
      invariant forall k | k in here :: here[k] == entries[k]
      decreases todo
    {
      var name :| name in todo;
      todo := todo - {name};
      if name !in expected {
        here := here - {name};
      }
    }
  }
}
