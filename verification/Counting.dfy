/** What `file_count` and `total_size` count: the paths of a directory (manager.rs, build_tree). */
module Counting {
  import opened Wrappers
  import opened Objects
  import opened Trees

  // The path holds a file or a link.
  ghost predicate IsLeaf(img: Image, path: seq<string>) {
    ImageAt(img, path).Some? && !ImageAt(img, path).value.DirI?
  }

  // The length of the file at the path, if there is one.
  function LengthAt(img: Image, path: seq<string>): nat {
    var at := ImageAt(img, path);
    if at.Some? && at.value.FileI? then |at.value.bytes| else 0
  }

  function LengthsAt(img: Image, paths: seq<seq<string>>): nat {
    if paths == [] then 0 else LengthAt(img, paths[0]) + LengthsAt(img, paths[1..])
  }

  ghost predicate Once(paths: seq<seq<string>>) {
    forall i, j | 0 <= i < j < |paths| :: paths[i] != paths[j]
  }

  // All leaves, each once.
  ghost predicate Enumerates(img: Image, paths: seq<seq<string>>) {
    && Once(paths)
    && (forall p :: p in paths <==> IsLeaf(img, p))
  }

  ghost function LeafPaths(img: Image): (paths: seq<seq<string>>)
    decreases img, 1
  {
    if img.DirI? then PathsIn(img, img.entries.Keys) else [[]]
  }

  ghost function PathsIn(img: Image, names: set<string>): seq<seq<string>>
    requires img.DirI? && names <= img.entries.Keys
    decreases img, 0, names
  {
    if names == {} then []
    else
      var k := Pick(names);
      Prefixed(k, LeafPaths(img.entries[k])) + PathsIn(img, names - {k})
  }

  function Prefixed(k: string, paths: seq<seq<string>>): seq<seq<string>> {
    if paths == [] then [] else [[k] + paths[0]] + Prefixed(k, paths[1..])
  }

  lemma {:induction false} PrefixedAre(k: string, paths: seq<seq<string>>)
    ensures |Prefixed(k, paths)| == |paths|
    ensures forall i | 0 <= i < |paths| :: Prefixed(k, paths)[i] == [k] + paths[i]
  {
    if paths != [] {
      PrefixedAre(k, paths[1..]);
    }
  }

  lemma PrefixedOnce(k: string, paths: seq<seq<string>>)
    requires Once(paths)
    ensures Once(Prefixed(k, paths))
    ensures forall p :: p in Prefixed(k, paths) <==> p != [] && p[0] == k && p[1..] in paths
  {
    PrefixedAre(k, paths);
    forall i | 0 <= i < |paths| ensures Prefixed(k, paths)[i][1..] == paths[i] {
    }
    forall p | p != [] && p[0] == k && p[1..] in paths ensures p in Prefixed(k, paths) {
      var i :| 0 <= i < |paths| && paths[i] == p[1..];
      assert p == [k] + p[1..] == Prefixed(k, paths)[i];
    }
  }

  lemma {:induction false} PathsInAre(img: Image, names: set<string>)
    requires img.DirI? && names <= img.entries.Keys
    requires forall k | k in names :: Enumerates(img.entries[k], LeafPaths(img.entries[k]))
    ensures var paths := PathsIn(img, names);
            && Once(paths)
            && (forall p :: p in paths <==> p != [] && p[0] in names && IsLeaf(img.entries[p[0]], p[1..]))
    decreases names
  {
    if names != {} {
      var k := Pick(names);
      var first, rest := Prefixed(k, LeafPaths(img.entries[k])), PathsIn(img, names - {k});
      PathsInAre(img, names - {k});
      PrefixedOnce(k, LeafPaths(img.entries[k]));
      assert PathsIn(img, names) == first + rest;
      ConcatOnce(first, rest);
    }
  }

  lemma ConcatOnce(a: seq<seq<string>>, b: seq<seq<string>>)
    requires Once(a) && Once(b) && forall p :: !(p in a && p in b)
    ensures Once(a + b) && forall p :: p in a + b <==> p in a || p in b
  {
    forall i, j | 0 <= i < |a| && 0 <= j < |b| ensures a[i] != b[j] {
      assert a[i] in a && b[j] in b;
    }
  }

  lemma {:induction false} LeafPathsAre(img: Image)
    ensures Enumerates(img, LeafPaths(img))
  {
    if img.DirI? {
      forall k | k in img.entries ensures Enumerates(img.entries[k], LeafPaths(img.entries[k])) {
        LeafPathsAre(img.entries[k]);
      }
      PathsInAre(img, img.entries.Keys);
    } else {
      assert LeafPaths(img)[0] == [] && IsLeaf(img, []);
    }
  }

  lemma {:induction false} LengthsPrefixed(img: Image, k: string, paths: seq<seq<string>>)
    requires img.DirI? && k in img.entries
    ensures LengthsAt(img, Prefixed(k, paths)) == LengthsAt(img.entries[k], paths)
  {
    if paths != [] {
      assert ([k] + paths[0])[1..] == paths[0];
      LengthsPrefixed(img, k, paths[1..]);
    }
  }

  lemma {:induction false} LengthsConcat(img: Image, a: seq<seq<string>>, b: seq<seq<string>>)
    ensures LengthsAt(img, a + b) == LengthsAt(img, a) + LengthsAt(img, b)
  {
    if a == [] {
      assert a + b == b;
    } else {
      assert (a + b)[0] == a[0] && (a + b)[1..] == a[1..] + b;
      LengthsConcat(img, a[1..], b);
    }
  }

  lemma {:induction false} TallyInCounts(img: Image, names: set<string>)
    requires img.DirI? && names <= img.entries.Keys
    ensures Sum(Only(Tallies(img), names)) == Tally(|PathsIn(img, names)|, LengthsAt(img, PathsIn(img, names)))
    decreases img, 0, names
  {
    var tallies := Only(Tallies(img), names);
    assert tallies.Keys == names;
    if names != {} {
      var k := Pick(names);
      var paths := LeafPaths(img.entries[k]);
      TallyCounts(img.entries[k]);
      TallyInCounts(img, names - {k});
      assert tallies - {k} == Only(Tallies(img), names - {k});
      PrefixedAre(k, paths);
      LengthsPrefixed(img, k, paths);
      LengthsConcat(img, Prefixed(k, paths), PathsIn(img, names - {k}));
    }
  }

  // The tally of an image: how many leaves it has, and how long its files are in all.
  lemma {:induction false} TallyCounts(img: Image)
    ensures TallyOf(img) == Tally(|LeafPaths(img)|, LengthsAt(img, LeafPaths(img)))
    decreases img, 1
  {
    if img.DirI? {
      TallyInCounts(img, img.entries.Keys);
      assert Only(Tallies(img), img.entries.Keys) == Tallies(img);
    } else {
      assert LeafPaths(img)[1..] == [];
    }
  }
}
