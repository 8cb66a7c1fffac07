/** What a restore achieves, for every image and every destination. */
module RestoreLaws {
  import opened Wrappers
  import opened Objects
  import opened Trees
  import opened Restore

  // Over a missing or empty directory a restore cannot fail and shows exactly the image.
  lemma {:induction false} FreshRestore(hash: Hash, made: Meta, img: Image, dest: Option<Node>)
    requires dest.None? || (img.DirI? && dest.value.Dir? && dest.value.entries == map[])
    ensures CanRestore(hash, img, dest) && Shows(Overlay(hash, made, img, dest), img)
  {
    if img.DirI? {
      forall k | k in img.entries
        ensures CanRestore(hash, img.entries[k], Child(dest, k))
        ensures Shows(Overlay(hash, made, img.entries[k], Child(dest, k)), img.entries[k])
      {
        FreshRestore(hash, made, img.entries[k], None);
      }
    }
  }

  // `copy` is `dir` with special files dropped and file times floored to seconds.
  ghost predicate Mirrors(c: Codec, dir: Node, copy: Node)
    decreases dir
  {
    match dir
    case File(b, m, t) => copy == File(b, m, t - t % NANOS)
    case Link(t, _) => copy.Link? && (c.utf8(t) ==> copy.target == t)
    case Dir(es, _) =>
      && copy.Dir?
      && (forall k :: k in copy.entries <==> k in es && !es[k].Special?)
      && (forall k | k in copy.entries :: Mirrors(c, es[k], copy.entries[k]))
    case Special => false
  }

  lemma {:induction false} ShowsMirrors(c: Codec, dir: Node, copy: Node)
    requires c.Valid() && !dir.Special? && Encodable(dir) && (dir.File? ==> dir.mtime >= 0)
    requires Shows(copy, ImageOf(c, dir))
    ensures Mirrors(c, dir, copy)
  {
    match dir
    case File(_, _, t) =>
      assert t / NANOS * NANOS == t - t % NANOS;
    case Link(_, _) =>
    case Dir(es, _) =>
      forall k | k in copy.entries ensures Mirrors(c, es[k], copy.entries[k]) {
        assert k in ImageOf(c, dir).entries;
        ShowsMirrors(c, es[k], copy.entries[k]);
      }
  }

  // Snapshot, then restore where nothing was: the copy mirrors the directory, and is itself
  // snapshotted to the same image.
  lemma RoundTrip(c: Codec, hash: Hash, made: Meta, dir: Node, dest: Option<Node>)
    requires c.Valid() && dir.Dir? && Encodable(dir)
    requires dest.None? || (dest.value.Dir? && dest.value.entries == map[])
    ensures var copy := Overlay(hash, made, ImageOf(c, dir), dest);
            && (forall o, node | Restored(hash, made, ImageOf(c, dir), dest, o, node) ::
                  o == Done && node == Some(copy))
            && Mirrors(c, dir, copy) && ImageOf(c, copy) == ImageOf(c, dir)
  {
    var img := ImageOf(c, dir);
    FreshRestore(hash, made, img, dest);
    ShowsMirrors(c, dir, Overlay(hash, made, img, dest));
    LossyLinks(c, dir);
    ShowsImage(c, Overlay(hash, made, img, dest), img);
  }

  lemma {:induction false} LossyLinks(c: Codec, node: Node)
    requires c.Valid() && !node.Special?
    ensures Utf8Links(c, ImageOf(c, node))
  {
    if node.Dir? {
      forall k | k in node.entries && !node.entries[k].Special?
        ensures Utf8Links(c, ImageOf(c, node.entries[k]))
      {
        LossyLinks(c, node.entries[k]);
      }
    }
  }

  // Somewhere restoring keeps what is there although it is not the file of the image:
  // size and time agree (or a hash collides), or a directory reports the file's size and time.
  ghost predicate Stale(hash: Hash, img: Image, dest: Option<Node>)
    decreases img
  {
    match img
    case FileI(b, _, s) => !Meet(hash, b, s, dest).Copy? && (dest.value.File? ==> dest.value.bytes != b)
    case LinkI(_) => false
    case DirI(es) => exists k | k in es :: Stale(hash, es[k], Child(dest, k))
  }

  // A restore that succeeds is exact, extras gone at every depth, if and only if nothing stale is kept.
  lemma {:induction false} ExactIffNotStale(hash: Hash, made: Meta, img: Image, dest: Option<Node>)
    requires CanRestore(hash, img, dest)
    ensures Shows(Overlay(hash, made, img, dest), img) <==> !Stale(hash, img, dest)
  {
    if img.DirI? {
      forall k | k in img.entries
        ensures Shows(Overlay(hash, made, img.entries[k], Child(dest, k)), img.entries[k])
                <==> !Stale(hash, img.entries[k], Child(dest, k))
      {
        ExactIffNotStale(hash, made, img.entries[k], Child(dest, k));
      }
      assert Overlay(hash, made, img, dest).entries.Keys == img.entries.Keys;
    }
  }

  lemma {:induction false} StoppedShowsNot(hash: Hash, made: Meta, img: Image, dest: Option<Node>,
                                           node: Option<Node>, o: Outcome)
    requires !o.Done? && Spared(hash, made, img, dest, node, o)
    ensures node.Some? ==> !Shows(node.value, img)
    decreases |o.at|
  {
    if o.at != [] {
      var k := o.at[0];
      StoppedShowsNot(hash, made, img.entries[k], Child(dest, k), Child(node, k), o.(at := o.at[1..]));
    }
  }

  // Whatever its outcome, a restore leaves exactly the image if and only if no path was blocked (by a
  // conflict, a link or a special file) and nothing stale was kept.
  lemma RestoredExactIff(hash: Hash, made: Meta, img: Image, dest: Option<Node>, o: Outcome, node: Option<Node>)
    requires Restored(hash, made, img, dest, o, node)
    ensures node.Some? && Shows(node.value, img) <==> CanRestore(hash, img, dest) && !Stale(hash, img, dest)
  {
    if o.Done? {
      ExactIffNotStale(hash, made, img, dest);
    } else {
      StoppedShowsNot(hash, made, img, dest, node, o);
    }
  }

  // The kinds agree at every shared path, and there equal size and time mean equal bytes.
  ghost predicate Honest(img: Image, dest: Option<Node>)
    decreases img
  {
    dest.Some? ==>
      match img
      case FileI(b, _, s) =>
        && dest.value.File?
        && (|dest.value.bytes| == |b| && dest.value.mtime == s * NANOS ==> dest.value.bytes == b)
      case LinkI(_) => !dest.value.Dir?
      case DirI(es) => dest.value.Dir? && forall k | k in es :: Honest(es[k], Child(dest, k))
  }

  // The files of the destination that a restore of `img` may hash, and those of the image.
  ghost function Compared(img: Image, dest: Option<Node>): set<Bytes>
    decreases img
  {
    match img
    case FileI(b, _, _) => if dest.Some? && dest.value.File? then {b, dest.value.bytes} else {b}
    case LinkI(_) => {}
    case DirI(es) => set k, b | k in es && b in Compared(es[k], Child(dest, k)) :: b
  }

  lemma {:induction false} HonestRestoresExactly(hash: Hash, made: Meta, img: Image, dest: Option<Node>)
    requires Honest(img, dest) && CollisionFree(hash, Compared(img, dest))
    ensures CanRestore(hash, img, dest) && Shows(Overlay(hash, made, img, dest), img)
  {
    if dest.None? {
      FreshRestore(hash, made, img, dest);
    } else if img.DirI? {
      forall k | k in img.entries
        ensures CanRestore(hash, img.entries[k], Child(dest, k))
        ensures Shows(Overlay(hash, made, img.entries[k], Child(dest, k)), img.entries[k])
      {
        assert Compared(img.entries[k], Child(dest, k)) <= Compared(img, dest);
        HonestRestoresExactly(hash, made, img.entries[k], Child(dest, k));
      }
    }
  }

  // The skip is not sound in general: an old file of the same size and time survives.
  lemma StaleFileSurvives(hash: Hash, made: Meta, a: byte, b: byte)
    requires a != b
    ensures var img := DirI(map["f" := FileI([a], 420, 7)]);
            var stale := Dir(map["f" := File([b], 420, 7 * NANOS)], made);
            && CanRestore(hash, img, Some(stale))
            && Overlay(hash, made, img, Some(stale)) == stale
            && !Shows(stale, img)
  {
    var img := DirI(map["f" := FileI([a], 420, 7)]);
    var dest := Some(Dir(map["f" := File([b], 420, 7 * NANOS)], made));
    assert Stale(hash, img.entries["f"], Child(dest, "f"));
    ExactIffNotStale(hash, made, img, dest);
    assert Overlay(hash, made, img, dest).entries == dest.value.entries;
  }

  // ------------------------------------------------------------ restoring again

  // Equal except for the times and modes the system gives new links.
  ghost predicate Alike(a: Node, b: Node)
    decreases a
  {
    match a
    case Link(t, _) => b.Link? && b.target == t
    case Dir(es, meta) =>
      b.Dir? && b.meta == meta && b.entries.Keys == es.Keys && forall k | k in es :: Alike(es[k], b.entries[k])
    case _ => a == b
  }

  lemma {:induction false} AlikeSelf(a: Node)
    ensures Alike(a, a)
  {
    if a.Dir? {
      forall k | k in a.entries ensures Alike(a.entries[k], a.entries[k]) {
        AlikeSelf(a.entries[k]);
      }
    }
  }

  // The second of two restores succeeds, copies nothing, hashes nothing new and leaves the
  // destination as the first left it, whatever it was before the first.
  lemma {:induction false} Idempotent(hash: Hash, made: Meta, again: Meta, img: Image, dest: Option<Node>)
    requires CanRestore(hash, img, dest)
    ensures var first := Some(Overlay(hash, made, img, dest));
            && CanRestore(hash, img, first) && !Copies(hash, img, first)
            && Probes(hash, img, first) <= Probes(hash, img, dest)
            && Alike(Overlay(hash, again, img, first), first.value)
  {
    var first := Some(Overlay(hash, made, img, dest));
    match img
    case FileI(_, _, _) =>
      AlikeSelf(first.value);
    case LinkI(_) =>
    case DirI(es) =>
      forall k | k in es
        ensures Child(first, k) == Some(Overlay(hash, made, es[k], Child(dest, k)))
        ensures CanRestore(hash, es[k], Child(first, k)) && !Copies(hash, es[k], Child(first, k))
        ensures Probes(hash, es[k], Child(first, k)) <= Probes(hash, es[k], Child(dest, k))
        ensures Alike(Overlay(hash, again, es[k], Child(first, k)), Child(first, k).value)
      {
        Idempotent(hash, made, again, es[k], Child(dest, k));
      }
  }

  // Hence the second run also leaves the object store alone and copies no file out of it.
  lemma RestoreTwice(hash: Hash, made: Meta, img: Image, dest: Option<Node>,
                     a: StoreState, b: StoreState, c: StoreState)
    requires CanRestore(hash, img, dest)
    requires Accounted(a, b, Probes(hash, img, dest), Copies(hash, img, dest))
    requires var first := Some(Overlay(hash, made, img, dest));
             Accounted(b, c, Probes(hash, img, first), Copies(hash, img, first))
    ensures c == b
  {
    Idempotent(hash, made, made, img, dest);
  }

  // Restoring over something that already shows the image touches no file content at all.
  lemma {:induction false} RestoreOfShown(hash: Hash, made: Meta, img: Image, node: Node)
    requires Shows(node, img)
    ensures CanRestore(hash, img, Some(node)) && !Copies(hash, img, Some(node)) && Probes(hash, img, Some(node)) == {}
    ensures Alike(Overlay(hash, made, img, Some(node)), node)
  {
    match img
    case FileI(_, _, _) =>
    case LinkI(_) =>
    case DirI(es) =>
      forall k | k in es
        ensures CanRestore(hash, es[k], Child(Some(node), k)) && !Copies(hash, es[k], Child(Some(node), k))
        ensures Probes(hash, es[k], Child(Some(node), k)) == {}
        ensures Alike(Overlay(hash, made, es[k], Child(Some(node), k)), node.entries[k])
      {
        RestoreOfShown(hash, made, es[k], node.entries[k]);
      }
  }

  // ------------------------------------------------------------ failing

  function NodeAt(node: Option<Node>, path: seq<string>): Option<Node>
    decreases |path|
  {
    if path == [] then node else NodeAt(Child(node, path[0]), path[1..])
  }

  // A restore that stops at a path leaves that path as it was, and in every directory above it every
  // entry outside the snapshot; each other entry of the snapshot there is untouched or fully restored.
  lemma {:induction false} FailureSparesExtras(hash: Hash, made: Meta, img: Image, dest: Option<Node>,
                                               node: Option<Node>, o: Outcome)
    requires !o.Done? && Spared(hash, made, img, dest, node, o)
    ensures NodeAt(node, o.at) == NodeAt(dest, o.at)
    ensures forall n | 0 <= n < |o.at| ::
              var above := ImageAt(img, o.at[..n]);
              && above.Some? && above.value.DirI?
              && forall k | k != o.at[n] ::
                   Settled(hash, made, above.value, NodeAt(dest, o.at[..n]), NodeAt(node, o.at[..n]), k)
    decreases |o.at|
  {
    var at := o.at;
    if at != [] {
      var k := at[0];
      FailureSparesExtras(hash, made, img.entries[k], Child(dest, k), Child(node, k), o.(at := at[1..]));
      forall n | 0 <= n < |at|
        ensures var above := ImageAt(img, at[..n]);
                && above.Some? && above.value.DirI?
                && forall j | j != at[n] ::
                     Settled(hash, made, above.value, NodeAt(dest, at[..n]), NodeAt(node, at[..n]), j)
      {
        if n > 0 {
          assert at[..n][0] == k && at[..n][1..] == at[1..][..n - 1];
        }
      }
    }
  }
}
