/** The content-addressed object store (object_store.rs). */
module Objects {
  import opened Wrappers
  import opened Paths
  import opened FileSteps

  newtype byte = x: int | 0 <= x < 256
  type Bytes = seq<byte>

  // What BLAKE3 in hexadecimal looks like to `hash_to_path`.
  type Digest = h: string | HashToPath(h).Some? witness "000"
  type Hash = Bytes -> Digest

  // The files below objects/, finished and temporary alike.
  type Files = map<ObjPath, Bytes>

  // The incremental BLAKE3 state, as the bytes absorbed so far.
  datatype Hasher = Hasher(absorbed: Bytes) {
    function Update(chunk: Bytes): Hasher { Hasher(absorbed + chunk) }
    function Finalize(hash: Hash): Digest { hash(absorbed) }
  }

  const BUFFER_SIZE: nat := 4 * 1024 * 1024

  function Lookup(files: Files, h: string): Option<Bytes> {
    var p := HashToPath(h);
    if p.Some? && p.value in files then Some(files[p.value]) else None
  }

  function PutSteps(h: Digest, content: Bytes): seq<Step<ObjPath, Bytes>> {
    var p := HashToPath(h).value;
    [Write(TempObject(p), content), Rename(TempObject(p), p)]
  }

  function PutFiles(files: Files, h: Digest, content: Bytes): Files {
    if HashToPath(h).value in files then files else Run(files, PutSteps(h, content))
  }

  // Every object a hash can name is complete: it holds content of that hash.
  ghost predicate Complete(hash: Hash, files: Files) {
    forall h: string :: Lookup(files, h).Some? ==> hash(Lookup(files, h).value) == h
  }

  // No object disappears or changes.
  ghost predicate Grows(before: Files, after: Files) {
    forall h: string :: Lookup(before, h).Some? ==> Lookup(after, h) == Lookup(before, h)
  }

  ghost predicate CollisionFree(hash: Hash, contents: set<Bytes>) {
    forall a, b :: a in contents && b in contents && hash(a) == hash(b) ==> a == b
  }

  // `hashed` is every content ever put; the store holds objects of no other.
  ghost predicate StoreInv(hash: Hash, files: Files, hashed: set<Bytes>) {
    && Complete(hash, files)
    && (forall c :: c in hashed ==> Lookup(files, hash(c)).Some?)
    && (forall h: string :: Lookup(files, h).Some? ==> Lookup(files, h).value in hashed)
  }

  lemma PutLookup(files: Files, h: Digest, content: Bytes, other: string)
    ensures Lookup(PutFiles(files, h, content), other) ==
            if other == h && Lookup(files, h).None? then Some(content) else Lookup(files, other)
  {
    var p := HashToPath(h).value;
    var after := Apply(Apply(files, Write(TempObject(p), content)), Rename(TempObject(p), p));
    assert PutFiles(files, h, content) == (if p in files then files else after) by {
      RunTwo(files, Write(TempObject(p), content), Rename(TempObject(p), p));
    }
    TempNotAddressable(h, other);
    if HashToPath(other) == Some(p) {
      HashToPathInjective(other, h);
    }
  }

  // Storing content keeps every object, keeps the invariant, and is a no-op for content put before.
  lemma PutKeeps(hash: Hash, files: Files, hashed: set<Bytes>, content: Bytes)
    requires StoreInv(hash, files, hashed)
    ensures StoreInv(hash, PutFiles(files, hash(content), content), hashed + {content})
    ensures Grows(files, PutFiles(files, hash(content), content))
    ensures content in hashed ==> PutFiles(files, hash(content), content) == files
  {
    var after := PutFiles(files, hash(content), content);
    forall h: string
      ensures Lookup(after, h)
              == if h == hash(content) && Lookup(files, h).None? then Some(content) else Lookup(files, h)
    {
      PutLookup(files, hash(content), content, h);
    }
  }

  // Content addressing is faithful for everything put exactly when the hash has not collided on it.
  lemma FaithfulIffCollisionFree(hash: Hash, files: Files, hashed: set<Bytes>)
    requires StoreInv(hash, files, hashed)
    ensures CollisionFree(hash, hashed) <==> forall c :: c in hashed ==> Lookup(files, hash(c)) == Some(c)
  {
  }

  // One object per content: equal contents share it, and no other content is filed under its hash.
  lemma Deduplicated(hash: Hash, files: Files, hashed: set<Bytes>, a: string, b: string)
    requires StoreInv(hash, files, hashed)
    requires Lookup(files, a).Some? && Lookup(files, a) == Lookup(files, b)
    ensures a == b
  {
    assert hash(Lookup(files, a).value) == a;
  }

  // Stopping a put anywhere, even inside the write, leaves every addressable object complete
  // and every old object in place.
  lemma PutCrashSafe(hash: Hash, files: Files, content: Bytes, k: nat, torn: bool, junk: Bytes)
    requires Complete(hash, files)
    requires Lookup(files, hash(content)).None? && k <= 2
    ensures var left := Crashed(files, PutSteps(hash(content), content), k, torn, junk);
            Complete(hash, left) && Grows(files, left)
  {
    var h := hash(content);
    var p := HashToPath(h).value;
    var steps := PutSteps(h, content);
    var left := Crashed(files, steps, k, torn, junk);
    var written := files[TempObject(p) := content];
    assert Run(files, steps[..1]) == written by {
      assert steps[..1] == [steps[0]] && steps[..1][1..] == [];
    }
    assert steps[..2] == steps;
    forall other: string
      ensures k < 2 ==> Lookup(left, other) == Lookup(files, other)
      ensures k == 2 ==> Lookup(left, other) == if other == h then Some(content) else Lookup(files, other)
    {
      TempNotAddressable(h, other);
      PutLookup(files, h, content, other);
    }
  }

  // A put stopped after `steps` steps; two or more complete it.
  datatype Attempt = Attempt(content: Bytes, steps: nat, torn: bool, junk: Bytes)

  function AfterAttempt(hash: Hash, files: Files, a: Attempt): Files {
    if Lookup(files, hash(a.content)).Some? then files
    else Crashed(files, PutSteps(hash(a.content), a.content), if a.steps < 2 then a.steps else 2, a.torn, a.junk)
  }

  function AfterAttempts(hash: Hash, files: Files, attempts: seq<Attempt>): Files
    decreases |attempts|
  {
    if attempts == [] then files else AfterAttempts(hash, AfterAttempt(hash, files, attempts[0]), attempts[1..])
  }

  // So does any run of puts, with crashes anywhere and left-over temporary files reused.
  lemma {:induction false} EveryRunComplete(hash: Hash, files: Files, attempts: seq<Attempt>)
    requires Complete(hash, files)
    ensures Complete(hash, AfterAttempts(hash, files, attempts)) && Grows(files, AfterAttempts(hash, files, attempts))
    decreases |attempts|
  {
    if attempts != [] {
      var a := attempts[0];
      if Lookup(files, hash(a.content)).None? {
        PutCrashSafe(hash, files, a.content, if a.steps < 2 then a.steps else 2, a.torn, a.junk);
      }
      EveryRunComplete(hash, AfterAttempt(hash, files, a), attempts[1..]);
    }
  }

  // Nothing but puts, finished or stopped, happened between the two.
  ghost predicate PutsOnly(hash: Hash, before: Files, after: Files) {
    exists attempts: seq<Attempt> :: after == AfterAttempts(hash, before, attempts)
  }

  lemma {:induction false} AttemptsConcat(hash: Hash, files: Files, a: seq<Attempt>, b: seq<Attempt>)
    ensures AfterAttempts(hash, files, a + b) == AfterAttempts(hash, AfterAttempts(hash, files, a), b)
    decreases |a|
  {
    if a == [] {
      assert a + b == b;
    } else {
      assert (a + b)[0] == a[0] && (a + b)[1..] == a[1..] + b;
      AttemptsConcat(hash, AfterAttempt(hash, files, a[0]), a[1..], b);
    }
  }

  lemma OnePut(hash: Hash, files: Files, content: Bytes)
    ensures PutsOnly(hash, files, PutFiles(files, hash(content), content))
    ensures PutsOnly(hash, files, files)
  {
    var a := Attempt(content, 2, false, []);
    var steps := PutSteps(hash(content), content);
    assert steps[..2] == steps;
    assert [a][1..] == [];
    assert AfterAttempts(hash, files, [a]) == AfterAttempt(hash, files, a);
    assert AfterAttempts(hash, files, []) == files;
  }

  // ------------------------------------------------------------ the store

  // `hashed`: every content put so far. `copies`: calls of CopyFile so far.
  datatype StoreState = StoreState(files: Files, hashed: set<Bytes>, copies: nat)

  // What every operation on a store does to it.
  ghost predicate Extends(hash: Hash, s: StoreState, s': StoreState) {
    && Grows(s.files, s'.files) && PutsOnly(hash, s.files, s'.files)
    && s.hashed <= s'.hashed && s.copies <= s'.copies
  }

  lemma ExtendsThen(hash: Hash, a: StoreState, b: StoreState, c: StoreState)
    requires Extends(hash, a, b) && Extends(hash, b, c)
    ensures Extends(hash, a, c)
  {
    var first: seq<Attempt> :| b.files == AfterAttempts(hash, a.files, first);
    var next: seq<Attempt> :| c.files == AfterAttempts(hash, b.files, next);
    AttemptsConcat(hash, a.files, first, next);
  }

  lemma ExtendsSelf(hash: Hash, s: StoreState)
    ensures Extends(hash, s, s)
  {
    OnePut(hash, s.files, []);
  }

  // The contents of the objects, temporary files aside.
  ghost function Contents(files: Files): set<Bytes> {
    set p | p in files.Keys && (exists h: string :: HashToPath(h) == Some(p)) :: files[p]
  }

  lemma ContentsInv(hash: Hash, files: Files)
    requires Complete(hash, files)
    ensures StoreInv(hash, files, Contents(files))
  {
    forall c | c in Contents(files) ensures Lookup(files, hash(c)).Some? {
      var p :| p in files.Keys && (exists h: string :: HashToPath(h) == Some(p)) && files[p] == c;
      var h: string :| HashToPath(h) == Some(p);
      assert Lookup(files, h) == Some(c);
    }
    forall h: string | Lookup(files, h).Some? ensures Lookup(files, h).value in Contents(files) {
      assert HashToPath(h).value in files.Keys;
    }
  }

  /** A handle on the objects/ directory. */
  class ObjectStore {
    const hash: Hash
    var files: Files
    ghost var hashed: set<Bytes>  // every content put so far
    ghost var copies: nat         // calls of CopyFile so far

    ghost predicate Valid()
      reads this
    {
      StoreInv(hash, files, hashed)
    }

    ghost function State(): StoreState
      reads this
    {
      StoreState(files, hashed, copies)
    }

    // A new session on what earlier sessions, and their crashes, have left.
    constructor (hash: Hash, files: Files)
      requires Complete(hash, files)
      ensures Valid() && this.hash == hash && State() == StoreState(files, Contents(files), 0)
    {
      this.hash := hash;
      this.files, hashed, copies := files, Contents(files), 0;
      ContentsInv(hash, files);
    }

    method PutBlob(content: Bytes) returns (h: Digest)
      requires Valid()
      modifies this`files, this`hashed
      ensures Valid() && h == hash(content) && hashed == old(hashed) + {content}
      ensures files == PutFiles(old(files), h, content) && Extends(hash, old(State()), State())
      ensures content in old(hashed) ==> files == old(files)
    {
      h := hash(content);
      Install(h, content);
    }

    // `content` is what the file at the given path holds; each read returns some non-empty
    // part of what is left, up to the buffer size, and nothing at the end of the file.
    method PutFile(content: Bytes) returns (h: Digest)
      requires Valid()
      modifies this`files, this`hashed
      ensures Valid() && h == hash(content) && hashed == old(hashed) + {content}
      ensures files == PutFiles(old(files), h, content) && Extends(hash, old(State()), State())
      ensures content in old(hashed) ==> files == old(files)
    {
      var hasher := Hasher([]);
      var pos := 0;
      while pos < |content|
        invariant 0 <= pos <= |content|
        invariant hasher.absorbed == content[..pos]
      {
        var n: nat :| 1 <= n <= BUFFER_SIZE && n <= |content| - pos;
        hasher := hasher.Update(content[pos..pos + n]);
        assert content[..pos] + content[pos..pos + n] == content[..pos + n];
        pos := pos + n;
      }
      assert content[..pos] == content;
      h := hasher.Finalize(hash);
      Install(h, content);
    }

    // Write to a temporary name, then rename, unless the object is there already.
    method Install(h: Digest, content: Bytes)
      requires Valid() && h == hash(content)
      modifies this`files, this`hashed
      ensures Valid() && hashed == old(hashed) + {content}
      ensures files == PutFiles(old(files), h, content) && Extends(hash, old(State()), State())
      ensures content in old(hashed) ==> files == old(files)
    {
      PutKeeps(hash, files, hashed, content);
      OnePut(hash, files, content);
      var path := HashToPath(h).value;
      if path !in files {
        var temp := TempObject(path);
        RunTwo(files, Write(temp, content), Rename(temp, path));
        files := Apply(files, Write(temp, content));
        files := Apply(files, Rename(temp, path));
      }
      hashed := hashed + {content};
    }

    method GetBlob(h: string) returns (r: Option<Bytes>)
      ensures r == Lookup(files, h)
    {
      var path := HashToPath(h);
      if path.None? || path.value !in files {
        return None;
      }
      r := Some(files[path.value]);
    }

    // The bytes that end up at the destination.
    method CopyFile(h: string) returns (r: Option<Bytes>)
      modifies this`copies
      ensures r == Lookup(files, h) && copies == old(copies) + 1
    {
      copies := copies + 1;
      r := GetBlob(h);
    }
  }
}
