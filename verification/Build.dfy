/** Storing a directory as tree objects (manager.rs, build_tree). */
module Build {
  import opened Wrappers
  import opened Objects
  import opened Trees
  import opened Counting

  datatype Built = Built(hash: Digest, files: nat, bytes: nat)

  // `entries` lists exactly the children `done` of `dir`, with their own times.
  ghost predicate Collected(dir: Node, entries: seq<TreeEntry>, done: set<string>)
    requires dir.Dir? && done <= dir.entries.Keys
  {
    && (forall i, j | 0 <= i < j < |entries| :: entries[i].name != entries[j].name)
    && (forall k | k in done :: exists i :: 0 <= i < |entries| && entries[i].name == k)
    && (forall i | 0 <= i < |entries| ::
          && entries[i].name in done
          && !dir.entries[entries[i].name].Special?
          && entries[i].modified == dir.entries[entries[i].name].Mtime()
          && Encodable(dir.entries[entries[i].name]))
  }

  ghost predicate Stored(c: Codec, files: Files, e: TreeEntry, node: Node) {
    !node.Special? && (e.modified >= 0 ==> EntryRepr(c, files, ToWire(e), ImageOf(c, node)))
  }

  ghost predicate AllStored(c: Codec, files: Files, dir: Node, entries: seq<TreeEntry>)
    requires dir.Dir?
  {
    forall i | 0 <= i < |entries| ::
      entries[i].name in dir.entries && Stored(c, files, entries[i], dir.entries[entries[i].name])
  }

  lemma AllStoredGrows(c: Codec, before: Files, after: Files, dir: Node, entries: seq<TreeEntry>)
    requires Grows(before, after) && dir.Dir? && AllStored(c, before, dir, entries)
    ensures AllStored(c, after, dir, entries)
  {
    forall i | 0 <= i < |entries|
      ensures Stored(c, after, entries[i], dir.entries[entries[i].name])
    {
      var e := entries[i];
      if e.modified >= 0 {
        EntryGrows(c, before, after, ToWire(e), ImageOf(c, dir.entries[e.name]));
      }
    }
  }

  // Once the whole directory is collected, its tree object stands for its image.
  lemma TreeObjectRepr(c: Codec, files: Files, dir: Node, entries: seq<TreeEntry>, h: string)
    requires c.Valid() && dir.Dir?
    requires Collected(dir, entries, ImageOf(c, dir).entries.Keys) && AllStored(c, files, dir, entries)
    requires Serialize(entries).Some? && Lookup(files, h) == Some(c.encode(Serialize(entries).value))
    ensures Repr(c, files, h, ImageOf(c, dir))
  {
    var ws := Serialize(entries).value;
    var img := ImageOf(c, dir);
    assert forall i | 0 <= i < |ws| :: ws[i] == ToWire(entries[i]);
    forall k | k in img.entries
      ensures exists i :: 0 <= i < |ws| && ws[i].name == k
    {
      var i :| 0 <= i < |entries| && entries[i].name == k;
      assert ws[i].name == k;
    }
    forall i | 0 <= i < |ws|
      ensures ws[i].name in img.entries && EntryRepr(c, files, ws[i], img.entries[ws[i].name])
    {
      assert Stored(c, files, entries[i], dir.entries[entries[i].name]);
    }
    assert Lists(c, files, ws, img);
  }

  lemma CollectedMore(dir: Node, entries: seq<TreeEntry>, done: set<string>, e: TreeEntry)
    requires dir.Dir? && done <= dir.entries.Keys && Collected(dir, entries, done)
    requires e.name in dir.entries && e.name !in done && !dir.entries[e.name].Special?
    requires e.modified == dir.entries[e.name].Mtime() && Encodable(dir.entries[e.name])
    ensures Collected(dir, entries + [e], done + {e.name})
  {
    var more := entries + [e];
    forall k | k in done + {e.name}
      ensures exists i :: 0 <= i < |more| && more[i].name == k
    {
      if k == e.name {
        assert more[|entries|].name == k;
      } else {
        var i :| 0 <= i < |entries| && entries[i].name == k;
        assert more[i].name == k;
      }
    }
  }

  lemma CollectedEncodable(c: Codec, dir: Node, entries: seq<TreeEntry>)
    requires dir.Dir? && Collected(dir, entries, ImageOf(c, dir).entries.Keys)
    ensures Serialize(entries).Some? <==> Encodable(dir)
  {
    if Serialize(entries).Some? {
      forall k | k in dir.entries && !dir.entries[k].Special?
        ensures dir.entries[k].Mtime() >= 0 && Encodable(dir.entries[k])
      {
        assert k in ImageOf(c, dir).entries;
        var i :| 0 <= i < |entries| && entries[i].name == k;
      }
    } else {
      var i :| 0 <= i < |entries| && entries[i].modified < 0;
      assert entries[i].name in dir.entries;
    }
  }

  // The counters count what is collected.
  ghost predicate Counts(tallies: map<string, Tally>, done: set<string>, files: nat, bytes: nat) {
    var sum := Sum(Only(tallies, done));
    files == Wrap64(sum.files) && bytes == Wrap64(sum.bytes)
  }

  lemma CountsMore(tallies: map<string, Tally>, done: set<string>, files: nat, bytes: nat,
                   k: string, subFiles: nat, subBytes: nat)
    requires Counts(tallies, done, files, bytes) && k in tallies && k !in done
    requires subFiles == Wrap64(tallies[k].files) && subBytes == Wrap64(tallies[k].bytes)
    ensures Counts(tallies, done + {k}, Wrap64(files + subFiles), Wrap64(bytes + subBytes))
  {
    var rest, all := Sum(Only(tallies, done)), Sum(Only(tallies, done + {k}));
    assert all == rest.Plus(tallies[k]) by {
      SumMore(tallies, done, k);
    }
    Wrap64Plus(rest.files, tallies[k].files, files, subFiles, all.files);
    Wrap64Plus(rest.bytes, tallies[k].bytes, bytes, subBytes, all.bytes);
  }

  // The loop invariant of build_tree: everything but `todo` is collected, counted and stored.
  ghost predicate Progress(c: Codec, files: Files, sound: bool, dir: Node, todo: set<string>,
                           entries: seq<TreeEntry>, count: nat, bytes: nat)
  {
    && dir.Dir? && todo <= dir.entries.Keys
    && Collected(dir, entries, ImageOf(c, dir).entries.Keys - todo)
    && Counts(Tallies(ImageOf(c, dir)), ImageOf(c, dir).entries.Keys - todo, count, bytes)
    && (sound ==> AllStored(c, files, dir, entries))
  }

  lemma ProgressKeeps(c: Codec, before: Files, after: Files, sound: bool, dir: Node, todo: set<string>,
                      entries: seq<TreeEntry>, count: nat, bytes: nat)
    requires Progress(c, before, sound, dir, todo, entries, count, bytes) && Grows(before, after)
    ensures Progress(c, after, sound, dir, todo, entries, count, bytes)
  {
    if sound {
      AllStoredGrows(c, before, after, dir, entries);
    }
  }

  lemma ProgressSkip(c: Codec, files: Files, sound: bool, dir: Node, todo: set<string>,
                     entries: seq<TreeEntry>, count: nat, bytes: nat, name: string)
    requires Progress(c, files, sound, dir, todo, entries, count, bytes)
    requires name in todo && dir.entries[name].Special?
    ensures Progress(c, files, sound, dir, todo - {name}, entries, count, bytes)
  {
    var keys := ImageOf(c, dir).entries.Keys;
    assert keys - (todo - {name}) == keys - todo;
  }

  lemma ProgressAdd(c: Codec, files: Files, sound: bool, dir: Node, todo: set<string>,
                    entries: seq<TreeEntry>, count: nat, bytes: nat, e: TreeEntry, subCount: nat, subBytes: nat)
    requires Progress(c, files, sound, dir, todo, entries, count, bytes)
    requires e.name in todo && !dir.entries[e.name].Special? && Encodable(dir.entries[e.name])
    requires e.modified == dir.entries[e.name].Mtime()
    requires subCount == Wrap64(TallyOf(ImageOf(c, dir.entries[e.name])).files)
    requires subBytes == Wrap64(TallyOf(ImageOf(c, dir.entries[e.name])).bytes)
    requires sound ==> Stored(c, files, e, dir.entries[e.name])
    ensures Progress(c, files, sound, dir, todo - {e.name}, entries + [e],
                     Wrap64(count + subCount), Wrap64(bytes + subBytes))
  {
    var keys := ImageOf(c, dir).entries.Keys;
    assert e.name in keys;
    assert keys - (todo - {e.name}) == keys - todo + {e.name};
    CollectedMore(dir, entries, keys - todo, e);
    CountsMore(Tallies(ImageOf(c, dir)), keys - todo, count, bytes, e.name, subCount, subBytes);
  }

  lemma ProgressDone(c: Codec, files: Files, sound: bool, dir: Node, entries: seq<TreeEntry>, count: nat, bytes: nat)
    requires Progress(c, files, sound, dir, {}, entries, count, bytes)
    ensures Collected(dir, entries, ImageOf(c, dir).entries.Keys)
    ensures Serialize(entries).Some? <==> Encodable(dir)
    ensures count == Wrap64(TallyOf(ImageOf(c, dir)).files) && bytes == Wrap64(TallyOf(ImageOf(c, dir)).bytes)
    ensures sound ==> AllStored(c, files, dir, entries)
  {
    var keys := ImageOf(c, dir).entries.Keys;
    assert keys - {} == keys;
    assert Only(Tallies(ImageOf(c, dir)), keys) == Tallies(ImageOf(c, dir));
    CollectedEncodable(c, dir, entries);
  }

  datatype Outcome = Skipped | Failed | Added(entry: TreeEntry, files: nat, bytes: nat)

  // One turn of the loop of build_tree. Whether a link's target is a directory only matters
  // on Windows.
  method StoreEntry(c: Codec, store: ObjectStore, name: string, node: Node) returns (r: Outcome)
    requires c.Valid() && store.Valid()
    modifies store`files, store`hashed
    ensures store.Valid() && Extends(store.hash, old(store.State()), store.State())
    ensures r.Skipped? <==> node.Special?
    ensures r.Failed? <==> node.Dir? && !Encodable(node)
    ensures r.Added? ==> r.entry.name == name && r.entry.modified == node.Mtime()
    ensures r.Added? ==> r.files == Wrap64(TallyOf(ImageOf(c, node)).files)
    ensures r.Added? ==> r.bytes == Wrap64(TallyOf(ImageOf(c, node)).bytes)
    ensures r.Added? && CollisionFree(store.hash, store.hashed) ==> Stored(c, store.files, r.entry, node)
    decreases node, 1
  {
    ExtendsSelf(store.hash, store.State());
    match node {
      case Link(target, meta) =>
        var hash := store.PutBlob(c.lossy(target));
        var targetIsDir: bool := *;
        var kind := if targetIsDir then SymlinkDir else Symlink;
        r := Added(TreeEntry(name, node.Mode(), kind, hash, 0, node.Mtime()), 1, 0);
      case File(content, _, _) =>
        var hash := store.PutFile(content);
        var size := Wrap64(|content|);
        r := Added(TreeEntry(name, node.Mode(), Blob, hash, |content|, node.Mtime()), 1, size);
      case Dir(_, _) =>
        var sub := BuildTree(c, store, node);
        if sub.None? {
          return Failed;
        }
        var entry := TreeEntry(name, node.Mode(), Tree, sub.value.hash, 0, node.Mtime());
        r := Added(entry, sub.value.files, sub.value.bytes);
      case Special =>
        r := Skipped;
    }
  }

  // Directory entries come in any order; a time before the epoch fails the tree that lists it.
  // The counters wrap at 64 bits.
  method BuildTree(c: Codec, store: ObjectStore, dir: Node) returns (r: Option<Built>)
    requires c.Valid() && store.Valid()
    modifies store`files, store`hashed
    ensures store.Valid() && Extends(store.hash, old(store.State()), store.State())
    ensures r.Some? <==> dir.Dir? && Encodable(dir)
    ensures r.Some? ==> r.value.files == Wrap64(TallyOf(ImageOf(c, dir)).files)
    ensures r.Some? ==> r.value.bytes == Wrap64(TallyOf(ImageOf(c, dir)).bytes)
    // As many files and links as the image has paths that hold one, and the lengths of its files,
    // both modulo 2^64.
    ensures r.Some? ==> var paths := LeafPaths(ImageOf(c, dir));
              && Enumerates(ImageOf(c, dir), paths)
              && r.value.files == |paths| % 0x1_0000_0000_0000_0000
              && r.value.bytes == LengthsAt(ImageOf(c, dir), paths) % 0x1_0000_0000_0000_0000
    ensures r.Some? && CollisionFree(store.hash, store.hashed)
            ==> Repr(c, store.files, r.value.hash, ImageOf(c, dir))
    decreases dir, 0
  {
    ExtendsSelf(store.hash, store.State());
    if !dir.Dir? {
      return None;
    }
    var entries: seq<TreeEntry> := [];
    var count: nat, bytes: nat := 0, 0;
    var todo := dir.entries.Keys;
    assert ImageOf(c, dir).entries.Keys - todo == {};
    while todo != {}
      invariant store.Valid() && Extends(store.hash, old(store.State()), store.State())
      invariant Progress(c, store.files, CollisionFree(store.hash, store.hashed), dir, todo, entries, count, bytes)
      decreases todo
    {
      var name :| name in todo;
      ghost var before := store.State();
      var added := StoreEntry(c, store, name, dir.entries[name]);
      ghost var sound := CollisionFree(store.hash, store.hashed);
      ExtendsThen(store.hash, old(store.State()), before, store.State());
      ProgressKeeps(c, before.files, store.files, sound, dir, todo, entries, count, bytes);
      match added {
        case Failed =>
          return None;
        case Skipped =>
          ProgressSkip(c, store.files, sound, dir, todo, entries, count, bytes, name);
        case Added(entry, subCount, subBytes) =>
          ProgressAdd(c, store.files, sound, dir, todo, entries, count, bytes, entry, subCount, subBytes);
          entries := entries + [entry];
          count, bytes := Wrap64(count + subCount), Wrap64(bytes + subBytes);
      }
      todo := todo - {name};
    }
    ProgressDone(c, store.files, CollisionFree(store.hash, store.hashed), dir, entries, count, bytes);
    var wire := Serialize(entries);
    if wire.None? {
      return None;
    }
    ghost var before := store.State();
    var h := store.PutBlob(c.encode(wire.value));
    ExtendsThen(store.hash, old(store.State()), before, store.State());
    if CollisionFree(store.hash, store.hashed) {
      AllStoredGrows(c, before.files, store.files, dir, entries);
      TreeObjectRepr(c, store.files, dir, entries, h);
    }
    TallyCounts(ImageOf(c, dir));
    LeafPathsAre(ImageOf(c, dir));
    r := Some(Built(h, count, bytes));
  }
}
