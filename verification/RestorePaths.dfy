/** Snapshots and restores told path by path (manager.rs). */
module RestorePaths {
  import opened Wrappers
  import opened Objects
  import opened Trees
  import opened Restore
  import opened RestoreLaws

  // What may be at a path where this part of an image goes: for a link anything but a directory,
  // for a subtree a directory, for a file a regular file, or a directory of its very size and time.
  ghost predicate Fits(img: Image, there: Node) {
    match img
    case LinkI(_) => !there.Dir?
    case DirI(_) => there.Dir?
    case FileI(b, _, s) =>
      there.File? || (there.Dir? && there.meta.len == |b| && there.meta.mtime == s * 1_000_000_000)
  }

  ghost predicate FitsAt(img: Image, dest: Option<Node>, path: seq<string>) {
    var part, there := ImageAt(img, path), NodeAt(dest, path);
    part.Some? && there.Some? ==> Fits(part.value, there.value)
  }

  lemma Below(img: Image, dest: Option<Node>, k: string, path: seq<string>)
    requires img.DirI? && k in img.entries
    ensures ImageAt(img, [k] + path) == ImageAt(img.entries[k], path)
    ensures NodeAt(dest, [k] + path) == NodeAt(Child(dest, k), path)
  {
    assert ([k] + path)[1..] == path;
  }

  lemma {:induction false} FitsWhenRestorable(hash: Hash, img: Image, dest: Option<Node>, path: seq<string>)
    requires CanRestore(hash, img, dest)
    ensures FitsAt(img, dest, path)
    decreases |path|
  {
    if path != [] && img.DirI? && path[0] in img.entries {
      FitsWhenRestorable(hash, img.entries[path[0]], Child(dest, path[0]), path[1..]);
    }
  }

  lemma {:induction false} RestorableWhenFits(hash: Hash, img: Image, dest: Option<Node>)
    requires forall path :: FitsAt(img, dest, path)
    ensures CanRestore(hash, img, dest)
  {
    assert FitsAt(img, dest, []);
    if img.DirI? {
      forall k | k in img.entries ensures CanRestore(hash, img.entries[k], Child(dest, k)) {
        forall path ensures FitsAt(img.entries[k], Child(dest, k), path) {
          Below(img, dest, k, path);
          assert FitsAt(img, dest, [k] + path);
        }
        RestorableWhenFits(hash, img.entries[k], Child(dest, k));
      }
    }
  }

  // A restore completes if and only if everything in the destination fits at every path of the
  // snapshot. Otherwise it stops at a path where something does not, and leaves that as it was:
  // it fails, or goes no further, at what a link or a special file leads to.
  lemma RestoredIffFits(hash: Hash, made: Meta, img: Image, dest: Option<Node>, o: Outcome, node: Option<Node>)
    requires Restored(hash, made, img, dest, o, node)
    ensures o.Done? <==> forall path :: FitsAt(img, dest, path)
    ensures !o.Done? ==>
              && !FitsAt(img, dest, o.at) && NodeAt(node, o.at) == NodeAt(dest, o.at)
              && var there := NodeAt(dest, o.at).value;
                 o.Diverted? <==> there.Link? || (there.Special? && ImageAt(img, o.at).value.FileI?)
  {
    if o.Done? {
      forall path ensures FitsAt(img, dest, path) {
        FitsWhenRestorable(hash, img, dest, path);
      }
    } else {
      StopDoesNotFit(hash, made, img, dest, o, node);
    }
  }

  lemma {:induction false} StopDoesNotFit(hash: Hash, made: Meta, img: Image, dest: Option<Node>,
                                          o: Outcome, node: Option<Node>)
    requires !o.Done? && Spared(hash, made, img, dest, node, o)
    ensures !FitsAt(img, dest, o.at) && NodeAt(node, o.at) == NodeAt(dest, o.at)
    ensures var there := NodeAt(dest, o.at).value;
            o.Diverted? <==> there.Link? || (there.Special? && ImageAt(img, o.at).value.FileI?)
    decreases |o.at|
  {
    if o.at != [] {
      var k := o.at[0];
      StopDoesNotFit(hash, made, img.entries[k], Child(dest, k), o.(at := o.at[1..]), Child(node, k));
    }
  }

  // ------------------------------------------------------------ what is left at each path

  // A file of this length and second counts as unchanged without being read.
  ghost predicate LooksSame(bytes: Bytes, secs: nat, held: Bytes, mtime: int) {
    |held| == |bytes| && mtime == secs * 1_000_000_000
  }

  ghost predicate LeftAt(hash: Hash, made: Meta, part: Image, was: Option<Node>, left: Option<Node>) {
    match part
    case LinkI(t) => left == Some(Link(t, made))
    case DirI(es) =>
      && left.Some? && left.value.Dir? && left.value.entries.Keys == es.Keys
      && left.value.meta == if was.Some? && was.value.Dir? then was.value.meta else made
    case FileI(b, m, s) =>
      match was
      case None => left == Some(File(b, m, s * 1_000_000_000))
      case Some(File(held, _, t)) =>
        var kept := LooksSame(b, s, held, t) || hash(held) == hash(b);
        left == Some(File(if kept then held else b, m, s * 1_000_000_000))
      case Some(Dir(es, meta)) => left == Some(Dir(es, meta.(mode := m, mtime := s * 1_000_000_000)))
      case Some(_) => false
  }

  // Names, bytes, modes, times and targets at every path of the snapshot after a completed restore.
  lemma {:induction false} CompletedLeaves(hash: Hash, made: Meta, img: Image, dest: Option<Node>, path: seq<string>)
    requires CanRestore(hash, img, dest) && ImageAt(img, path).Some?
    ensures LeftAt(hash, made, ImageAt(img, path).value, NodeAt(dest, path),
                   NodeAt(Some(Overlay(hash, made, img, dest)), path))
    decreases |path|
  {
    if path != [] {
      CompletedLeaves(hash, made, img.entries[path[0]], Child(dest, path[0]), path[1..]);
    }
  }

  ghost predicate CopiedAt(hash: Hash, img: Image, dest: Option<Node>, path: seq<string>) {
    var part, was := ImageAt(img, path), NodeAt(dest, path);
    && part.Some? && part.value.FileI?
    && (was.None? || (was.value.File? && !LooksSame(part.value.bytes, part.value.secs, was.value.bytes, was.value.mtime)
                      && hash(was.value.bytes) != hash(part.value.bytes)))
  }

  // Content is copied exactly for the files that are missing, or differ in size or time and in hash.
  lemma {:induction false} CopiesIff(hash: Hash, img: Image, dest: Option<Node>)
    ensures Copies(hash, img, dest) <==> exists path :: CopiedAt(hash, img, dest, path)
  {
    if img.DirI? {
      forall k | k in img.entries
        ensures Copies(hash, img.entries[k], Child(dest, k)) <==> exists path :: CopiedAt(hash, img, dest, [k] + path)
      {
        CopiesIff(hash, img.entries[k], Child(dest, k));
        forall path
          ensures CopiedAt(hash, img, dest, [k] + path) <==> CopiedAt(hash, img.entries[k], Child(dest, k), path)
        {
          Below(img, dest, k, path);
        }
      }
      forall path | CopiedAt(hash, img, dest, path) ensures Copies(hash, img, dest) {
        assert path == [path[0]] + path[1..];
        assert CopiedAt(hash, img, dest, [path[0]] + path[1..]);
      }
    } else {
      assert CopiedAt(hash, img, dest, []) <==> Copies(hash, img, dest);
    }
  }

  ghost predicate ProbedAt(img: Image, dest: Option<Node>, path: seq<string>, content: Bytes) {
    var part, was := ImageAt(img, path), NodeAt(dest, path);
    && part.Some? && part.value.FileI? && was.Some? && was.value.File? && was.value.bytes == content
    && !LooksSame(part.value.bytes, part.value.secs, content, was.value.mtime)
  }

  // The files hashed for comparison are exactly those that differ in size or time.
  lemma {:induction false} ProbesIff(hash: Hash, img: Image, dest: Option<Node>, content: Bytes)
    ensures content in Probes(hash, img, dest) <==> exists path :: ProbedAt(img, dest, path, content)
  {
    if img.DirI? {
      forall k | k in img.entries
        ensures content in Probes(hash, img.entries[k], Child(dest, k))
                <==> exists path :: ProbedAt(img, dest, [k] + path, content)
      {
        ProbesIff(hash, img.entries[k], Child(dest, k), content);
        forall path
          ensures ProbedAt(img, dest, [k] + path, content) <==> ProbedAt(img.entries[k], Child(dest, k), path, content)
        {
          Below(img, dest, k, path);
        }
      }
      forall path | ProbedAt(img, dest, path, content) ensures content in Probes(hash, img, dest) {
        assert path == [path[0]] + path[1..];
        assert ProbedAt(img, dest, [path[0]] + path[1..], content);
      }
    } else {
      assert ProbedAt(img, dest, [], content) <==> content in Probes(hash, img, dest);
    }
  }

  // ------------------------------------------------------------ what a snapshot keeps

  // A mirroring copy has at each path what the directory has there: the same bytes and mode with
  // the time floored to the second, a link to the same target, a directory, or nothing for nothing
  // and for a special file.
  lemma {:induction false} MirrorsAt(c: Codec, dir: Node, copy: Node, path: seq<string>)
    requires Mirrors(c, dir, copy)
    ensures var held := NodeAt(Some(copy), path);
            match NodeAt(Some(dir), path)
            case None => held == None
            case Some(Special) => held == None
            case Some(File(b, m, t)) => held == Some(File(b, m, t - t % 1_000_000_000))
            case Some(Link(t, _)) => held.Some? && held.value.Link? && (c.utf8(t) ==> held.value.target == t)
            case Some(Dir(_, _)) => held.Some? && held.value.Dir?
    decreases |path|
  {
    if path != [] && dir.Dir? && path[0] in dir.entries {
      var next := dir.entries[path[0]];
      if next.Special? {
        NothingBelow(None, path[1..]);
        NothingBelow(Some(Special), path[1..]);
      } else {
        MirrorsAt(c, next, copy.entries[path[0]], path[1..]);
      }
    } else if path != [] {
      NothingBelow(None, path[1..]);
    }
  }

  lemma {:induction false} NothingBelow(node: Option<Node>, path: seq<string>)
    requires node.None? || node.value.Special?
    ensures NodeAt(node, path) == if path == [] then node else None
    decreases |path|
  {
    if path != [] {
      NothingBelow(None, path[1..]);
    }
  }

  // Nothing at the path, or not from before the epoch.
  ghost predicate DatedAt(dir: Node, path: seq<string>) {
    match NodeAt(Some(dir), path)
    case Some(File(_, _, t)) => t >= 0
    case Some(Link(_, meta)) => meta.mtime >= 0
    case Some(Dir(_, meta)) => meta.mtime >= 0
    case _ => true
  }

  // A directory can be stored if and only if nothing below it is from before the epoch.
  lemma {:induction false} EncodableIff(dir: Node)
    ensures Encodable(dir) <==> forall path | path != [] :: DatedAt(dir, path)
  {
    if dir.Dir? {
      forall k, path | k in dir.entries
        ensures DatedAt(dir, [k] + path) <==> DatedAt(dir.entries[k], path)
      {
        assert ([k] + path)[1..] == path;
      }
      forall k | k in dir.entries && !dir.entries[k].Special?
        ensures dir.entries[k].Mtime() >= 0 && Encodable(dir.entries[k]) <==> forall path :: DatedAt(dir, [k] + path)
      {
        EncodableIff(dir.entries[k]);
        assert DatedAt(dir, [k] + []) <==> dir.entries[k].Mtime() >= 0;
      }
      forall path | path != [] && Encodable(dir) ensures DatedAt(dir, path) {
        DatedBelow(dir, path);
      }
    } else {
      forall path | path != [] ensures DatedAt(dir, path) {
        DatedBelow(dir, path);
      }
    }
  }

  lemma DatedBelow(dir: Node, path: seq<string>)
    requires Encodable(dir) && path != []
    requires dir.Dir? ==> forall k | k in dir.entries && !dir.entries[k].Special? :: forall p :: DatedAt(dir, [k] + p)
    ensures DatedAt(dir, path)
  {
    if dir.Dir? && path[0] in dir.entries && !dir.entries[path[0]].Special? {
      assert path == [path[0]] + path[1..];
    } else {
      var next := Child(Some(dir), path[0]);
      NothingBelow(next, path[1..]);
    }
  }
}
