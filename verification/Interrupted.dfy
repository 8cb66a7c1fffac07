/** Restores cut short, and run again (manager.rs, restore_tree). */
module Interrupted {
  import opened Wrappers
  import opened Objects
  import opened Trees
  import opened Restore
  import opened RestoreLaws

  // A file half copied does not pass for the one it is to become: neither its size with the
  // recorded time, which is set last, nor its hash.
  ghost predicate Undeceiving(hash: Hash, img: Image, node: Node)
    requires img.FileI?
  {
    && node.File?
    && (|node.bytes| == |img.bytes| && node.mtime == img.secs * NANOS ==> node.bytes == img.bytes)
    && (hash(node.bytes) == hash(img.bytes) ==> node.bytes == img.bytes)
  }

  // What may be at a path when a restore of `img` over `dest` has been cut anywhere. For a file:
  // nothing done; any stage of its copy; the mode set, but not the time; all done. For a link: before
  // and after the removal, and made. In a directory every entry is at some such point, in whatever
  // order, and of the others any part may be gone.
  ghost predicate CutState(hash: Hash, made: Meta, img: Image, dest: Option<Node>, node: Option<Node>)
    decreases img
  {
    || node == dest
    || match img
       case FileI(b, m, s) =>
         if Meet(hash, b, s, dest).Copy? then node.Some? && Undeceiving(hash, img, node.value)
         else if dest.value.File? then
           || node == Some(File(dest.value.bytes, m, dest.value.mtime))
           || node == Some(Overlay(hash, made, img, dest))
         else dest.value.Dir? && node == Some(Overlay(hash, made, img, dest))
       case LinkI(t) => node.None? || (node.value.Link? && node.value.target == t)
       case DirI(es) =>
         && node.Some? && node.value.Dir?
         && forall k | k in es :: CutState(hash, made, es[k], Child(dest, k), Child(node, k))
  }

  lemma {:induction false} OverlayIsCutState(hash: Hash, made: Meta, img: Image, dest: Option<Node>)
    requires CanRestore(hash, img, dest)
    ensures CutState(hash, made, img, dest, Some(Overlay(hash, made, img, dest)))
  {
    if img.DirI? {
      var node := Some(Overlay(hash, made, img, dest));
      forall k | k in img.entries
        ensures CutState(hash, made, img.entries[k], Child(dest, k), Child(node, k))
      {
        OverlayIsCutState(hash, made, img.entries[k], Child(dest, k));
      }
    }
  }

  // Completed restores, and those that stopped by themselves, are among the states.
  lemma {:induction false} RestoredIsCutState(hash: Hash, made: Meta, img: Image, dest: Option<Node>,
                                              o: Outcome, node: Option<Node>)
    requires Restored(hash, made, img, dest, o, node)
    ensures CutState(hash, made, img, dest, node)
  {
    if o.Done? {
      OverlayIsCutState(hash, made, img, dest);
    } else {
      StoppedIsCutState(hash, made, img, dest, o, node);
    }
  }

  lemma {:induction false} StoppedIsCutState(hash: Hash, made: Meta, img: Image, dest: Option<Node>,
                                             o: Outcome, node: Option<Node>)
    requires !o.Done? && Spared(hash, made, img, dest, node, o)
    ensures CutState(hash, made, img, dest, node)
    decreases |o.at|
  {
    if o.at != [] {
      var name := o.at[0];
      StoppedIsCutState(hash, made, img.entries[name], Child(dest, name), o.(at := o.at[1..]), Child(node, name));
      forall k | k in img.entries && k != name
        ensures CutState(hash, made, img.entries[k], Child(dest, k), Child(node, k))
      {
        assert Settled(hash, made, img, dest, node, k);
        if Child(node, k) != Child(dest, k) {
          OverlayIsCutState(hash, made, img.entries[k], Child(dest, k));
        }
      }
    }
  }

  lemma {:induction false} CutKeepsChance(hash: Hash, made: Meta, img: Image, dest: Option<Node>, node: Option<Node>)
    requires CanRestore(hash, img, dest) && !Stale(hash, img, dest) && CutState(hash, made, img, dest, node)
    ensures CanRestore(hash, img, node) && !Stale(hash, img, node)
  {
    if img.DirI? && node != dest {
      forall k | k in img.entries
        ensures CanRestore(hash, img.entries[k], Child(node, k)) && !Stale(hash, img.entries[k], Child(node, k))
      {
        CutKeepsChance(hash, made, img.entries[k], Child(dest, k), Child(node, k));
      }
    }
  }

  // Running a restore again completes it and is exact, wherever it was cut, if and only if running
  // it once without a cut would have been: no path blocked, nothing stale kept.
  lemma RerunExactIff(hash: Hash, made: Meta, again: Meta, img: Image, dest: Option<Node>)
    ensures (forall node | CutState(hash, made, img, dest, node) ::
               CanRestore(hash, img, node) && Shows(Overlay(hash, again, img, node), img))
            <==> CanRestore(hash, img, dest) && !Stale(hash, img, dest)
  {
    if CanRestore(hash, img, dest) && !Stale(hash, img, dest) {
      forall node | CutState(hash, made, img, dest, node)
        ensures CanRestore(hash, img, node) && Shows(Overlay(hash, again, img, node), img)
      {
        CutKeepsChance(hash, made, img, dest, node);
        ExactIffNotStale(hash, again, img, node);
      }
    } else if CanRestore(hash, img, dest) {
      assert CutState(hash, made, img, dest, dest);
      ExactIffNotStale(hash, again, img, dest);
    } else {
      assert CutState(hash, made, img, dest, dest);
    }
  }
}
