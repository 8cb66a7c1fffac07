/** File names: extensions, temporary names, object paths and tag names. */
module Paths {
  import opened Wrappers

  predicate IsLastDot(name: string, k: int) {
    0 <= k < |name| && name[k] == '.' && forall j | k < j < |name| :: name[j] != '.'
  }

  // Position of the last dot of `name`, or -1.
  function LastDot(name: string): int {
    if exists k | 0 <= k < |name| :: IsLastDot(name, k) then
      var k :| 0 <= k < |name| && IsLastDot(name, k); k
    else -1
  }

  // A leading dot starts a hidden name, not an extension.
  function Stem(name: string): string {
    if LastDot(name) <= 0 then name else name[..LastDot(name)]
  }

  function Extension(name: string): Option<string> {
    if LastDot(name) <= 0 then None else Some(name[LastDot(name) + 1..])
  }

  // `Path::with_extension("tmp")` on a single component: it REPLACES an extension.
  function WithTmp(name: string): string {
    Stem(name) + ".tmp"
  }

  // The names whose temporary file is the file itself.
  predicate TmpNamed(name: string) {
    Extension(name) == Some("tmp")
  }

  // Appending an extension without dots and taking it off again.
  lemma DottedParts(stem: string, ext: string)
    requires stem != ""
    requires '.' !in ext
    ensures Stem(stem + "." + ext) == stem
    ensures Extension(stem + "." + ext) == Some(ext)
  {
    var name := stem + "." + ext;
    assert forall j | |stem| < j < |name| :: name[j] == ext[j - |stem| - 1];
    assert IsLastDot(name, |stem|);
    assert name[..|stem|] == stem;
    assert name[|stem| + 1..] == ext;
  }

  lemma StemNonEmpty(name: string)
    requires name != ""
    ensures Stem(name) != ""
  {}

  // Names without an extension: no dot, or none but a leading one.
  lemma PlainNames(name: string)
    requires name != "" && '.' !in name[1..]
    ensures WithTmp(name) == name + ".tmp" && Extension(name) == None
  {
    forall k | 0 < k < |name| ensures name[k] != '.' {
      assert name[k] == name[1..][k - 1];
    }
  }

  // Every temporary name is TmpNamed, and the TmpNamed names are the fixed points of WithTmp.
  lemma WithTmpFixpoints(name: string)
    requires name != ""
    ensures WithTmp(name) != "" && TmpNamed(WithTmp(name))
    ensures WithTmp(WithTmp(name)) == WithTmp(name)
    ensures WithTmp(name) == name <==> TmpNamed(name)
  {
    StemNonEmpty(name);
    DottedParts(Stem(name), "tmp");
    assert Stem(name) + "." + "tmp" == WithTmp(name);
    if TmpNamed(name) {
      var d := LastDot(name);
      assert name == name[..d] + [name[d]] + name[d + 1..];
    }
  }

  // ------------------------------------------------------------ object paths

  predicate HexDigit(c: char) {
    '0' <= c <= '9' || 'a' <= c <= 'f' || 'A' <= c <= 'F'
  }

  // objects/<dir>/<name>
  datatype ObjPath = ObjPath(dir: string, name: string)

  function HashToPath(hash: string): Option<ObjPath> {
    if |hash| < 3 then None
    else if exists i | 0 <= i < |hash| :: !HexDigit(hash[i]) then None
    else Some(ObjPath(hash[..2], hash[2..]))
  }

  function TempObject(p: ObjPath): ObjPath {
    p.(name := WithTmp(p.name))
  }

  // Three or more hexadecimal digits, cut after the second.
  lemma HashToPathIs(hash: string)
    ensures HashToPath(hash).Some? <==>
            |hash| >= 3 && forall c | c in hash :: '0' <= c <= '9' || 'a' <= c <= 'f' || 'A' <= c <= 'F'
    ensures HashToPath(hash).Some? ==>
              var p := HashToPath(hash).value;
              p.dir + p.name == hash && |p.dir| == 2 && TempObject(p).dir == p.dir
  {
    assert forall i | 0 <= i < |hash| :: hash[i] in hash;
    if HashToPath(hash).Some? {
      assert hash == hash[..2] + hash[2..];
    }
  }

  lemma HashToPathInjective(a: string, b: string)
    requires HashToPath(a).Some? && HashToPath(a) == HashToPath(b)
    ensures a == b
  {
    assert a == a[..2] + a[2..];
    assert b == b[..2] + b[2..];
  }

  // No hash, of whatever length or case, names the temporary file of an object.
  lemma TempNotAddressable(hash: string, other: string)
    requires HashToPath(hash).Some?
    ensures HashToPath(other) != Some(TempObject(HashToPath(hash).value))
  {
    var tmp := WithTmp(HashToPath(hash).value.name);
    assert tmp[|tmp| - 1] == 'p' && !HexDigit('p');
    assert HashToPath(other).Some? ==> HexDigit(other[|other| - 1]) && other[2..][|other| - 3] == other[|other| - 1];
  }

  // ------------------------------------------------------------ tag names

  // `char::is_control`: general category Cc.
  predicate Control(c: char) {
    c < ' ' || '\U{7F}' <= c <= '\U{9F}'
  }

  predicate ValidTag(tag: string) {
    && tag != ""
    && (forall i | 0 <= i < |tag| :: tag[i] != '/' && tag[i] != '\\' && !Control(tag[i]))
    && (forall i | 0 < i < |tag| :: !(tag[i - 1] == '.' && tag[i] == '.'))
    && tag != "."
  }

  ghost predicate HasDots(tag: string, before: string, after: string) {
    tag == before + ".." + after
  }

  // A tag is one path component, whatever else: no separator, no dots that lead elsewhere, nothing
  // that cannot be printed.
  lemma ValidTagIff(tag: string)
    ensures ValidTag(tag) <==>
            && tag != "" && tag != "." && (forall before, after :: !HasDots(tag, before, after))
            && '/' !in tag && '\\' !in tag
            && forall c | c in tag :: ' ' <= c < '\U{7F}' || '\U{9F}' < c
    ensures ValidTag(tag) ==> tag != ".."
  {
    forall before, after | HasDots(tag, before, after) ensures !ValidTag(tag) {
      assert tag[|before|] == '.' && tag[|before| + 1] == '.';
    }
    assert forall i | 0 <= i < |tag| :: tag[i] in tag;
    forall i | 0 < i < |tag| && tag[i - 1] == '.' && tag[i] == '.'
      ensures HasDots(tag, tag[..i - 1], tag[i + 1..])
    {
      assert tag == tag[..i - 1] + [tag[i - 1]] + [tag[i]] + tag[i + 1..];
    }
    if tag == ".." {
      assert tag[0] == '.' && tag[1] == '.';
    }
  }

  lemma VersionTags()
    ensures WithTmp("v1.0") == "v1.tmp" && !TmpNamed("v1.0") && TmpNamed("v1.tmp")
    ensures ValidTag("v1.0") && ValidTag("v1.tmp")
  {
    DottedParts("v1", "0");
    DottedParts("v1", "tmp");
    assert "v1" + "." + "0" == "v1.0" && "v1" + "." + "tmp" == "v1.tmp";
  }
}
