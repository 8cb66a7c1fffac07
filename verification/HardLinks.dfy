/** Restoring regular files onto paths that may share inodes (manager.rs, object_store.rs). */
module HardLinks {
  import opened Wrappers
  import opened Objects
  import opened Trees
  import opened Restore
  import opened RestoreLaws

  // An inode the destination has already, or the one made for a path that had none.
  datatype Inode = Given(number: nat) | Made(path: seq<string>)

  // A file of the snapshot, at any depth, whose path holds a regular file or nothing. Directories,
  // links and deletions change what no inode holds.
  datatype Entry = Entry(path: seq<string>, img: Image)

  // The inode of each path that has one, and what the inodes hold.
  type Links = map<seq<string>, nat>
  type Inodes = map<Inode, Node>

  ghost predicate AllFiles(inodes: Inodes, entries: seq<Entry>) {
    && (forall i | i in inodes :: inodes[i].File?)
    && (forall e | e in entries :: e.img.FileI?)
  }

  function InodeOf(links: Links, path: seq<string>): Inode {
    if path in links then Given(links[path]) else Made(path)
  }

  function At(inodes: Inodes, i: Inode): Option<Node> {
    if i in inodes then Some(inodes[i]) else None
  }

  // A copy over an existing file writes into its inode, as do set_mode and set_mtime.
  function Visit(hash: Hash, made: Meta, links: Links, inodes: Inodes, e: Entry): Inodes {
    var i := InodeOf(links, e.path);
    inodes[i := Overlay(hash, made, e.img, At(inodes, i))]
  }

  // The files of a restore, in the order it comes to them.
  function VisitAll(hash: Hash, made: Meta, links: Links, inodes: Inodes, entries: seq<Entry>): Inodes
    decreases |entries|
  {
    if entries == [] then inodes
    else VisitAll(hash, made, links, Visit(hash, made, links, inodes, entries[0]), entries[1..])
  }

  ghost predicate CopiesAny(hash: Hash, made: Meta, links: Links, inodes: Inodes, entries: seq<Entry>)
    decreases |entries|
  {
    entries != [] &&
    var e := entries[0];
    || Copies(hash, e.img, At(inodes, InodeOf(links, e.path)))
    || CopiesAny(hash, made, links, Visit(hash, made, links, inodes, e), entries[1..])
  }

  ghost predicate AllShown(links: Links, inodes: Inodes, entries: seq<Entry>) {
    forall e | e in entries ::
      InodeOf(links, e.path) in inodes && Shows(inodes[InodeOf(links, e.path)], e.img)
  }

  // Files of the snapshot that meet on one inode are the same file.
  ghost predicate Agree(links: Links, entries: seq<Entry>) {
    forall e, f | e in entries && f in entries && InodeOf(links, e.path) == InodeOf(links, f.path) :: e.img == f.img
  }

  ghost predicate NothingStale(hash: Hash, links: Links, inodes: Inodes, entries: seq<Entry>) {
    forall e | e in entries :: !Stale(hash, e.img, At(inodes, InodeOf(links, e.path)))
  }

  // Restoring a file onto what a restore of it left changes nothing.
  lemma OverlayAgain(hash: Hash, made: Meta, img: Image, held: Option<Node>)
    requires img.FileI? && (held.Some? ==> held.value.File?)
    ensures var once := Overlay(hash, made, img, held);
            once.File? && Overlay(hash, made, img, Some(once)) == once && !Copies(hash, img, Some(once))
  {}

  // An inode none of the paths leads to keeps what it holds, whoever else links to it.
  lemma {:induction false} OthersKept(hash: Hash, made: Meta, links: Links, inodes: Inodes, entries: seq<Entry>,
                                      i: Inode)
    requires forall e | e in entries :: InodeOf(links, e.path) != i
    ensures At(VisitAll(hash, made, links, inodes, entries), i) == At(inodes, i)
    decreases |entries|
  {
    if entries != [] {
      assert entries[0] in entries;
      OthersKept(hash, made, links, Visit(hash, made, links, inodes, entries[0]), entries[1..], i);
    }
  }

  // If the files on its inode agree, a path ends up with what restoring it alone would give:
  // the tree-shaped destinations of `Restore.Overlay` describe exactly this.
  lemma {:induction false} AgreeingOverlay(hash: Hash, made: Meta, links: Links, inodes: Inodes, entries: seq<Entry>,
                                           e: Entry)
    requires AllFiles(inodes, entries) && e in entries
    requires forall f | f in entries && InodeOf(links, f.path) == InodeOf(links, e.path) :: f.img == e.img
    ensures var i := InodeOf(links, e.path);
            At(VisitAll(hash, made, links, inodes, entries), i) == Some(Overlay(hash, made, e.img, At(inodes, i)))
    decreases |entries|
  {
    var i := InodeOf(links, e.path);
    var f, rest := entries[0], entries[1..];
    var next := Visit(hash, made, links, inodes, f);
    assert entries == [f] + rest && f in entries;
    OverlayAgain(hash, made, f.img, At(inodes, InodeOf(links, f.path)));
    if g :| g in rest && InodeOf(links, g.path) == i {
      AgreeingOverlay(hash, made, links, next, rest, g);
    } else {
      OthersKept(hash, made, links, next, rest, i);
    }
  }

  // With shared inodes a restore is exact if and only if files meeting on one inode agree and
  // nothing stale is kept.
  lemma ExactIff(hash: Hash, made: Meta, links: Links, inodes: Inodes, entries: seq<Entry>)
    requires AllFiles(inodes, entries)
    ensures AllShown(links, VisitAll(hash, made, links, inodes, entries), entries)
            <==> Agree(links, entries) && NothingStale(hash, links, inodes, entries)
  {
    var after := VisitAll(hash, made, links, inodes, entries);
    if AllShown(links, after, entries) {
      forall e, f | e in entries && f in entries && InodeOf(links, e.path) == InodeOf(links, f.path)
        ensures e.img == f.img
      {
        assert Shows(after[InodeOf(links, e.path)], e.img) && Shows(after[InodeOf(links, f.path)], f.img);
      }
    }
    if Agree(links, entries) {
      forall e | e in entries
        ensures var i := InodeOf(links, e.path);
                i in after && (Shows(after[i], e.img) <==> !Stale(hash, e.img, At(inodes, i)))
      {
        AgreeingOverlay(hash, made, links, inodes, entries, e);
        ExactIffNotStale(hash, made, e.img, At(inodes, InodeOf(links, e.path)));
      }
    }
  }

  lemma {:induction false} SettledStays(hash: Hash, made: Meta, links: Links, inodes: Inodes, entries: seq<Entry>)
    requires forall e | e in entries ::
               var held := At(inodes, InodeOf(links, e.path));
               held == Some(Overlay(hash, made, e.img, held)) && !Copies(hash, e.img, held)
    ensures VisitAll(hash, made, links, inodes, entries) == inodes && !CopiesAny(hash, made, links, inodes, entries)
    decreases |entries|
  {
    if entries != [] {
      assert entries[0] in entries;
      assert Visit(hash, made, links, inodes, entries[0]) == inodes;
      SettledStays(hash, made, links, inodes, entries[1..]);
    }
  }

  // If they agree, restoring again copies nothing and changes nothing.
  lemma AgreeingIdempotent(hash: Hash, made: Meta, links: Links, inodes: Inodes, entries: seq<Entry>)
    requires AllFiles(inodes, entries) && Agree(links, entries)
    ensures var first := VisitAll(hash, made, links, inodes, entries);
            VisitAll(hash, made, links, first, entries) == first && !CopiesAny(hash, made, links, first, entries)
  {
    var first := VisitAll(hash, made, links, inodes, entries);
    forall e | e in entries
      ensures var held := At(first, InodeOf(links, e.path));
              held == Some(Overlay(hash, made, e.img, held)) && !Copies(hash, e.img, held)
    {
      AgreeingOverlay(hash, made, links, inodes, entries, e);
      OverlayAgain(hash, made, e.img, At(inodes, InodeOf(links, e.path)));
    }
    SettledStays(hash, made, links, first, entries);
  }

  // ------------------------------------------------------------ when nothing is copied

  // The last of the first `n` files that goes to inode `i`.
  function LastFile(links: Links, entries: seq<Entry>, n: nat, i: Inode): (r: Option<Image>)
    requires n <= |entries|
    ensures r.Some? ==> exists e | e in entries :: e.img == r.value
  {
    if n == 0 then None
    else if InodeOf(links, entries[n - 1].path) == i then Some(entries[n - 1].img)
    else LastFile(links, entries, n - 1, i)
  }

  // The time inode `i` shows when a restore that copies nothing comes to its j-th file.
  ghost function TimeBefore(links: Links, inodes: Inodes, entries: seq<Entry>, j: nat, i: Inode): int
    requires AllFiles(inodes, entries) && j <= |entries| && i in inodes
  {
    var last := LastFile(links, entries, j, i);
    if last.Some? then last.value.secs * NANOS else inodes[i].mtime
  }

  // The j-th file needs no copy as long as none before it does: its inode has content of the
  // right hash, or of the right size at the right time.
  ghost predicate Keeps(hash: Hash, links: Links, inodes: Inodes, entries: seq<Entry>, j: nat)
    requires AllFiles(inodes, entries) && j < |entries|
  {
    var i, img := InodeOf(links, entries[j].path), entries[j].img;
    && entries[j] in entries && i in inodes
    && (|| hash(inodes[i].bytes) == hash(img.bytes)
        || (|inodes[i].bytes| == |img.bytes| && TimeBefore(links, inodes, entries, j, i) == img.secs * NANOS))
  }

  lemma {:induction false} LastFileShift(links: Links, entries: seq<Entry>, n: nat, i: Inode)
    requires 0 < n <= |entries|
    ensures var later := LastFile(links, entries[1..], n - 1, i);
            LastFile(links, entries, n, i)
            == if later.Some? then later
               else if InodeOf(links, entries[0].path) == i then Some(entries[0].img) else None
    decreases n
  {
    if n > 1 {
      LastFileShift(links, entries, n - 1, i);
    }
  }

  // Once the first file is restored without a copy, the others stand as they did.
  lemma KeepsShift(hash: Hash, made: Meta, links: Links, inodes: Inodes, entries: seq<Entry>, j: nat)
    requires AllFiles(inodes, entries) && 0 < j < |entries|
    requires !Copies(hash, entries[0].img, At(inodes, InodeOf(links, entries[0].path)))
    ensures var next := Visit(hash, made, links, inodes, entries[0]);
            && AllFiles(next, entries[1..])
            && (Keeps(hash, links, next, entries[1..], j - 1) <==> Keeps(hash, links, inodes, entries, j))
  {
    assert entries[0] in entries && entries[j] in entries && entries[1..][j - 1] == entries[j];
    assert forall e | e in entries[1..] :: e in entries;
    var i, next := InodeOf(links, entries[j].path), Visit(hash, made, links, inodes, entries[0]);
    LastFileShift(links, entries, j, i);
    assert next.Keys == inodes.Keys;
    if i in inodes {
      assert next[i].bytes == inodes[i].bytes;
      assert TimeBefore(links, next, entries[1..], j - 1, i) == TimeBefore(links, inodes, entries, j, i);
    }
  }

  // A restore over shared inodes copies nothing if and only if it finds every file kept.
  lemma {:induction false} CopiesNothingIff(hash: Hash, made: Meta, links: Links, inodes: Inodes, entries: seq<Entry>)
    requires AllFiles(inodes, entries)
    ensures !CopiesAny(hash, made, links, inodes, entries)
            <==> forall j | 0 <= j < |entries| :: Keeps(hash, links, inodes, entries, j)
    decreases |entries|
  {
    if entries != [] {
      var e, i := entries[0], InodeOf(links, entries[0].path);
      assert e in entries;
      assert Keeps(hash, links, inodes, entries, 0) <==> !Copies(hash, e.img, At(inodes, i));
      if !Copies(hash, e.img, At(inodes, i)) {
        var next, rest := Visit(hash, made, links, inodes, e), entries[1..];
        assert AllFiles(next, rest) by {
          assert forall f | f in rest :: f in entries;
        }
        CopiesNothingIff(hash, made, links, next, rest);
        forall j | 0 < j < |entries|
          ensures Keeps(hash, links, next, rest, j - 1) <==> Keeps(hash, links, inodes, entries, j)
        {
          KeepsShift(hash, made, links, inodes, entries, j);
        }
        assert forall j | 0 <= j < |rest| ::
          Keeps(hash, links, next, rest, j) <==> Keeps(hash, links, inodes, entries, j + 1);
      }
    }
  }

  // Mode and time are those of the last file on the inode; the bytes change only by a copy.
  lemma {:induction false} Stamped(hash: Hash, made: Meta, links: Links, inodes: Inodes, entries: seq<Entry>, i: Inode)
    requires AllFiles(inodes, entries)
    ensures var after := VisitAll(hash, made, links, inodes, entries);
            var last := LastFile(links, entries, |entries|, i);
            && (last.None? ==> At(after, i) == At(inodes, i))
            && (last.Some? ==>
                  && last.value.FileI? && i in after && after[i].File?
                  && after[i].mode == last.value.mode && after[i].mtime == last.value.secs * NANOS)
            && (!CopiesAny(hash, made, links, inodes, entries) ==>
                  && (i in after <==> i in inodes)
                  && (i in inodes ==> after[i].File? && after[i].bytes == inodes[i].bytes))
    decreases |entries|
  {
    if entries != [] {
      assert entries[0] in entries && forall e | e in entries[1..] :: e in entries;
      Stamped(hash, made, links, Visit(hash, made, links, inodes, entries[0]), entries[1..], i);
      LastFileShift(links, entries, |entries|, i);
    }
  }

  lemma FilesStay(hash: Hash, made: Meta, links: Links, inodes: Inodes, entries: seq<Entry>)
    requires AllFiles(inodes, entries)
    ensures AllFiles(VisitAll(hash, made, links, inodes, entries), entries)
  {
    var after := VisitAll(hash, made, links, inodes, entries);
    forall i | i in after ensures after[i].File? {
      Stamped(hash, made, links, inodes, entries, i);
    }
  }

  // Restoring again copies nothing if and only if the first restore has left every file kept, and
  // then it changes nothing either.
  lemma IdempotentIff(hash: Hash, made: Meta, links: Links, inodes: Inodes, entries: seq<Entry>)
    requires AllFiles(inodes, entries)
    ensures var first := VisitAll(hash, made, links, inodes, entries);
            && AllFiles(first, entries)
            && (!CopiesAny(hash, made, links, first, entries)
                <==> forall j | 0 <= j < |entries| :: Keeps(hash, links, first, entries, j))
            && (!CopiesAny(hash, made, links, first, entries) ==>
                  VisitAll(hash, made, links, first, entries) == first)
  {
    var first := VisitAll(hash, made, links, inodes, entries);
    var second := VisitAll(hash, made, links, first, entries);
    FilesStay(hash, made, links, inodes, entries);
    CopiesNothingIff(hash, made, links, first, entries);
    if !CopiesAny(hash, made, links, first, entries) {
      forall i ensures At(second, i) == At(first, i) {
        Stamped(hash, made, links, inodes, entries, i);
        Stamped(hash, made, links, first, entries, i);
      }
      assert forall i :: i in second <==> At(second, i).Some?;
      assert forall i :: i in first <==> At(first, i).Some?;
      assert second.Keys == first.Keys;
    }
  }

  // Two names of one file, restored to different contents: the second wins under both names,
  // although nothing is stale, and every further restore copies both again, to the same end.
  lemma SharedInodeFails(hash: Hash, made: Meta, x: Bytes, a: Bytes, b: Bytes, mtime: int)
    requires hash(x) != hash(a) && hash(a) != hash(b) && hash(x) != hash(b)
    requires |x| != |a| && |a| != |b| && |x| != |b|
    ensures var links: Links := map[["a"] := 0, ["b"] := 0];
            var inodes: Inodes := map[Given(0) := File(x, 420, mtime)];
            var entries := [Entry(["a"], FileI(a, 420, 7)), Entry(["b"], FileI(b, 420, 7))];
            var first := VisitAll(hash, made, links, inodes, entries);
            && NothingStale(hash, links, inodes, entries)
            && first == map[Given(0) := File(b, 420, 7 * NANOS)] && !AllShown(links, first, entries)
            && Copies(hash, entries[0].img, At(first, Given(0)))
            && Copies(hash, entries[1].img, At(Visit(hash, made, links, first, entries[0]), Given(0)))
            && VisitAll(hash, made, links, first, entries) == first
  {
    var links: Links := map[["a"] := 0, ["b"] := 0];
    var inodes: Inodes := map[Given(0) := File(x, 420, mtime)];
    var entries := [Entry(["a"], FileI(a, 420, 7)), Entry(["b"], FileI(b, 420, 7))];
    var first: Inodes := map[Given(0) := File(b, 420, 7 * NANOS)];
    TwoFiles(hash, made, links, inodes, entries);
    TwoFiles(hash, made, links, first, entries);
    assert Visit(hash, made, links, first, entries[0]) == map[Given(0) := File(a, 420, 7 * NANOS)];
    assert VisitAll(hash, made, links, inodes, entries) == first;
    assert VisitAll(hash, made, links, first, entries) == first;
    assert !Shows(first[InodeOf(links, entries[0].path)], entries[0].img) && entries[0] in entries;
  }

  lemma TwoFiles(hash: Hash, made: Meta, links: Links, inodes: Inodes, entries: seq<Entry>)
    requires |entries| == 2
    ensures VisitAll(hash, made, links, inodes, entries)
            == Visit(hash, made, links, Visit(hash, made, links, inodes, entries[0]), entries[1])
  {
    var next := Visit(hash, made, links, inodes, entries[0]);
    assert entries[1..] == [entries[1]] && entries[1..][1..] == [];
    assert VisitAll(hash, made, links, next, entries[1..])
           == VisitAll(hash, made, links, Visit(hash, made, links, next, entries[1]), []);
  }
}
