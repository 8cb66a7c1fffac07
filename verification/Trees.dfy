/** Directories, tree objects (tree.rs), and what a stored tree represents. */
module Trees {
  import opened Wrappers
  import opened Objects

  const NANOS: int := 1_000_000_000  // times are in nanoseconds since the epoch

  // ------------------------------------------------------------ on disk

  // `len` is what `metadata().len()` reports for a directory or link.
  datatype Meta = Meta(mode: nat, mtime: int, len: nat)

  // Special: pipes, sockets, devices.
  datatype Node =
    | File(bytes: Bytes, mode: nat, mtime: int)
    | Link(target: Bytes, meta: Meta)
    | Dir(entries: map<string, Node>, meta: Meta)
    | Special
  {
    function Mode(): nat {
      match this
      case File(_, mode, _) => mode
      case Link(_, meta) => meta.mode
      case Dir(_, meta) => meta.mode
      case Special => 0
    }

    function Mtime(): int {
      match this
      case File(_, _, mtime) => mtime
      case Link(_, meta) => meta.mtime
      case Dir(_, meta) => meta.mtime
      case Special => 0
    }
  }

  // ------------------------------------------------------------ tree objects

  datatype EntryType = Blob | Tree | Symlink | SymlinkDir

  datatype TreeEntry = TreeEntry(name: string, mode: nat, kind: EntryType, hash: string, size: nat, modified: int)

  // A tree entry as JSON carries it: the time in whole seconds.
  datatype WireEntry = WireEntry(name: string, mode: nat, kind: EntryType, hash: string, size: nat, secs: nat)

  function Deserialize(w: WireEntry): TreeEntry {
    TreeEntry(w.name, w.mode, w.kind, w.hash, w.size, w.secs * NANOS)
  }

  function ToWire(e: TreeEntry): WireEntry
    requires e.modified >= 0
  {
    WireEntry(e.name, e.mode, e.kind, e.hash, e.size, e.modified / NANOS)
  }

  // Fails on a time before the epoch.
  function Serialize(entries: seq<TreeEntry>): Option<seq<WireEntry>> {
    if forall i | 0 <= i < |entries| :: entries[i].modified >= 0 then
      Some(seq(|entries|, i requires 0 <= i < |entries| && entries[i].modified >= 0 => ToWire(entries[i])))
    else None
  }

  // JSON text and UTF-8, of which only these laws matter.
  datatype Codec = Codec(
    encode: seq<WireEntry> -> Bytes,
    decode: Bytes -> Option<seq<WireEntry>>,
    utf8: Bytes -> bool,
    lossy: Bytes -> Bytes)
  {
    ghost predicate Valid() {
      && (forall ws :: decode(encode(ws)) == Some(ws))
      && (forall b :: utf8(lossy(b)))
      && (forall b :: utf8(b) ==> lossy(b) == b)
    }
  }

  // ------------------------------------------------------------ images

  // What a snapshot remembers of a directory.
  datatype Image =
    | FileI(bytes: Bytes, mode: nat, secs: nat)
    | LinkI(target: Bytes)
    | DirI(entries: map<string, Image>)

  function ImageOf(c: Codec, node: Node): Image
    requires !node.Special?
  {
    match node
    case File(b, m, t) => FileI(b, m, if t < 0 then 0 else t / NANOS)
    case Link(t, _) => LinkI(c.lossy(t))
    case Dir(es, _) => DirI(map k | k in es && !es[k].Special? :: ImageOf(c, es[k]))
  }

  // Nothing recorded in the tree objects of `node` is older than the epoch.
  ghost predicate Encodable(node: Node) {
    match node
    case Dir(es, _) => forall k | k in es :: es[k].Special? || (es[k].Mtime() >= 0 && Encodable(es[k]))
    case _ => true
  }

  function ImageAt(img: Image, path: seq<string>): Option<Image>
    decreases |path|
  {
    if path == [] then Some(img)
    else if img.DirI? && path[0] in img.entries then ImageAt(img.entries[path[0]], path[1..])
    else None
  }

  // `node` is exactly `img`: same names at every depth, bytes, modes, whole-second times, targets.
  ghost predicate Shows(node: Node, img: Image)
    decreases img
  {
    match img
    case FileI(b, m, s) => node == File(b, m, s * NANOS)
    case LinkI(t) => node.Link? && node.target == t
    case DirI(es) =>
      node.Dir? && node.entries.Keys == es.Keys && forall k | k in es :: Shows(node.entries[k], es[k])
  }

  // A directory showing an image is itself snapshotted to that image.
  lemma {:induction false} ShowsImage(c: Codec, node: Node, img: Image)
    requires c.Valid() && Shows(node, img) && Utf8Links(c, img)
    ensures !node.Special? && ImageOf(c, node) == img
  {
    match img
    case FileI(_, _, _) =>
    case LinkI(_) =>
    case DirI(es) =>
      forall k | k in es
        ensures !node.entries[k].Special? && ImageOf(c, node.entries[k]) == es[k]
      {
        ShowsImage(c, node.entries[k], es[k]);
      }
      assert ImageOf(c, node).entries == es;
  }

  ghost predicate Utf8Links(c: Codec, img: Image) {
    match img
    case FileI(_, _, _) => true
    case LinkI(t) => c.utf8(t)
    case DirI(es) => forall k | k in es :: Utf8Links(c, es[k])
  }

  // ------------------------------------------------------------ stored trees

  // `files` holds, under `h`, a tree object standing for the directory `img`.
  ghost predicate Repr(c: Codec, files: Files, h: string, img: Image)
    requires img.DirI?
    decreases img, 1
  {
    var obj := Lookup(files, h);
    obj.Some? && c.decode(obj.value).Some? && Lists(c, files, c.decode(obj.value).value, img)
  }

  ghost predicate Lists(c: Codec, files: Files, ws: seq<WireEntry>, img: Image)
    requires img.DirI?
    decreases img, 0
  {
    && (forall i, j | 0 <= i < j < |ws| :: ws[i].name != ws[j].name)
    && (forall k | k in img.entries :: exists i :: 0 <= i < |ws| && ws[i].name == k)
    && (forall i | 0 <= i < |ws| :: ws[i].name in img.entries && EntryRepr(c, files, ws[i], img.entries[ws[i].name]))
  }

  ghost predicate EntryRepr(c: Codec, files: Files, w: WireEntry, img: Image)
    decreases img, 2
  {
    match img
    case FileI(b, m, s) =>
      w.kind.Blob? && Lookup(files, w.hash) == Some(b) && w.size == |b| && w.mode == m && w.secs == s
    case LinkI(t) =>
      (w.kind.Symlink? || w.kind.SymlinkDir?) && Lookup(files, w.hash) == Some(t) && c.utf8(t)
    case DirI(_) =>
      w.kind.Tree? && Repr(c, files, w.hash, img)
  }

  lemma {:induction false} ReprGrows(c: Codec, before: Files, after: Files, h: string, img: Image)
    requires Grows(before, after) && img.DirI? && Repr(c, before, h, img)
    ensures Repr(c, after, h, img)
    decreases img, 0
  {
    var ws := c.decode(Lookup(before, h).value).value;
    forall i | 0 <= i < |ws|
      ensures EntryRepr(c, after, ws[i], img.entries[ws[i].name])
    {
      EntryGrows(c, before, after, ws[i], img.entries[ws[i].name]);
    }
  }

  lemma EntryGrows(c: Codec, before: Files, after: Files, w: WireEntry, img: Image)
    requires Grows(before, after) && EntryRepr(c, before, w, img)
    ensures EntryRepr(c, after, w, img)
    decreases img, 1
  {
    if img.DirI? {
      ReprGrows(c, before, after, w.hash, img);
    }
  }

  // Merkle determinism: one store never gives two meanings to one root hash.
  lemma {:induction false} ReprUnique(c: Codec, files: Files, h: string, a: Image, b: Image)
    requires a.DirI? && b.DirI? && Repr(c, files, h, a) && Repr(c, files, h, b)
    ensures a == b
    decreases a, 0
  {
    var ws := c.decode(Lookup(files, h).value).value;
    forall k | k in a.entries || k in b.entries
      ensures k in a.entries && k in b.entries && a.entries[k] == b.entries[k]
    {
      var i :| 0 <= i < |ws| && ws[i].name == k;
      EntryUnique(c, files, ws[i], a.entries[k], b.entries[k]);
    }
    assert a.entries == b.entries;
  }

  lemma EntryUnique(c: Codec, files: Files, w: WireEntry, a: Image, b: Image)
    requires EntryRepr(c, files, w, a) && EntryRepr(c, files, w, b)
    ensures a == b
    decreases a, 1
  {
    if a.DirI? {
      ReprUnique(c, files, w.hash, a, b);
    }
  }

  // ------------------------------------------------------------ counting

  // Counters are 64 bits wide.
  function Wrap64(n: nat): nat { n % 0x1_0000_0000_0000_0000 }

  lemma Wrap64Plus(a: nat, b: nat, a': nat, b': nat, sum: nat)
    requires a' == Wrap64(a) && b' == Wrap64(b) && sum == a + b
    ensures Wrap64(a' + b') == Wrap64(sum)
  {}

  datatype Tally = Tally(files: nat, bytes: nat) {
    function Plus(that: Tally): Tally { Tally(files + that.files, bytes + that.bytes) }
  }

  // Leaves (files and links) and file bytes below an image.
  ghost function TallyOf(img: Image): Tally
    decreases img, 1
  {
    match img
    case FileI(b, _, _) => Tally(1, |b|)
    case LinkI(_) => Tally(1, 0)
    case DirI(_) => Sum(Tallies(img))
  }

  ghost function Tallies(img: Image): map<string, Tally>
    requires img.DirI?
    decreases img, 0
  {
    map k | k in img.entries :: TallyOf(img.entries[k])
  }

  ghost function Sum(m: map<string, Tally>): Tally {
    if m == map[] then Tally(0, 0)
    else
      var k := Pick(m.Keys);
      m[k].Plus(Sum(m - {k}))
  }

  ghost function Pick(keys: set<string>): string
    requires keys != {}
  {
    var k :| k in keys; k
  }

  // The order of counting does not matter.
  lemma {:induction false} SumAny(m: map<string, Tally>, k: string)
    requires k in m
    ensures Sum(m) == m[k].Plus(Sum(m - {k}))
    decreases m
  {
    var j := Pick(m.Keys);
    if j != k {
      SumAny(m - {j}, k);
      SumAny(m - {k}, j);
      assert m - {j} - {k} == m - {k} - {j};
    }
  }

  function Only(m: map<string, Tally>, keys: set<string>): map<string, Tally> {
    map k | k in m && k in keys :: m[k]
  }

  lemma SumMore(m: map<string, Tally>, keys: set<string>, k: string)
    requires k in m && k !in keys
    ensures Sum(Only(m, keys + {k})) == Sum(Only(m, keys)).Plus(m[k])
  {
    SumAny(Only(m, keys + {k}), k);
    assert Only(m, keys + {k}) - {k} == Only(m, keys);
  }
}
