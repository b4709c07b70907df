/** The server's filesystem as the endpoints see it through `java.io.File` and
    `java.nio.file.Files`: a map from absolute path to entry, plus the set of
    paths the process is not permitted to create, write or delete. */
module FileSystem {

  newtype byte = x: int | 0 <= x < 256

  type Path = string

  /** A regular file holds bytes and a modification time in milliseconds. */
  datatype Entry = File(bytes: seq<byte>, mtime: int) | Directory

  type Entries = map<Path, Entry>

  /** `new File(dir, name)`. */
  function Join(dir: Path, name: string): (p: Path)
    ensures |p| == |dir| + 1 + |name|
  {
    dir + "/" + name
  }

  /** `p` with its trailing separators removed, as `File` normalises a path. */
  function StripTrailingSlashes(p: string): (r: string)
    ensures |r| <= |p| && r == p[..|r|]
    ensures r == [] || r[|r| - 1] != '/'
    ensures forall k :: |r| <= k < |p| ==> p[k] == '/'
  {
    if p != [] && p[|p| - 1] == '/' then StripTrailingSlashes(p[..|p| - 1]) else p
  }

  /** The text after the last separator of `p` (all of `p` if it has none). */
  function AfterLastSlash(p: string): (r: string)
    ensures |r| <= |p| && r == p[|p| - |r|..]
    ensures '/' !in r
    ensures |r| < |p| ==> p[|p| - |r| - 1] == '/'
  {
    if p == [] then []
    else if p[|p| - 1] == '/' then []
    else AfterLastSlash(p[..|p| - 1]) + [p[|p| - 1]]
  }

  /** `File.getName()`: the last segment of the normalised path. */
  function Name(p: string): (r: string)
    ensures '/' !in r
  {
    AfterLastSlash(StripTrailingSlashes(p))
  }

  /** A name without a separator is its own last segment. */
  lemma NameOfSegment(s: string)
    requires '/' !in s
    ensures Name(s) == s
  {
    assert StripTrailingSlashes(s) == s by {
      if s != [] {
        assert s[|s| - 1] in s;
      }
    }
  }

  /** A name with a separator is longer than its last segment. */
  lemma NameShorter(s: string)
    requires '/' in s
    ensures |Name(s)| < |s|
  {
    var t := StripTrailingSlashes(s);
    if |t| == |s| {
      assert t == s;
      var r := AfterLastSlash(s);
      if |r| == |s| {
        assert r == s;
      }
    }
  }

  /** The path of the directory that holds `p`. */
  function Parent(p: Path): Path
    requires '/' in p
  {
    p[..|p| - |AfterLastSlash(p)| - 1]
  }

  /** `p` is listed by `dir.listFiles()`: it is `dir`, a separator and a
      non-empty name without separator. */
  predicate ChildOf(p: Path, dir: Path) {
    |p| > |dir| + 1 && p[..|dir| + 1] == dir + "/" && '/' !in p[|dir| + 1..]
  }

  lemma JoinChild(dir: Path, name: string)
    requires name != [] && '/' !in name
    ensures ChildOf(Join(dir, name), dir)
    ensures '/' in Join(dir, name) && Parent(Join(dir, name)) == dir
    ensures Name(Join(dir, name)) == name
  {
    var p := Join(dir, name);
    assert p[..|dir| + 1] == dir + "/";
    assert p[|dir| + 1..] == name;
    assert p[|dir|] == '/';
    AfterLastSlashOfJoin(dir, name);
    NameOfJoin(dir, name);
  }

  lemma AfterLastSlashOfJoin(dir: Path, name: string)
    requires '/' !in name
    ensures AfterLastSlash(Join(dir, name)) == name
  {
    var p := Join(dir, name);
    var r := AfterLastSlash(p);
    assert p[|dir| + 1..] == name;
    assert p[|dir|] == '/';
  }

  lemma NameOfJoin(dir: Path, name: string)
    requires name != [] && '/' !in name
    ensures Name(Join(dir, name)) == name
  {
    var p := Join(dir, name);
    assert p[|p| - 1] == name[|name| - 1];
    assert StripTrailingSlashes(p) == p;
    AfterLastSlashOfJoin(dir, name);
  }

  /** `new File(dir, a + "_" + b)` for separator-free `a` and `b` is a child
      of `dir` named `a_b`. */
  lemma JoinSeparated(dir: Path, a: string, b: string)
    requires '/' !in a && '/' !in b
    ensures ChildOf(Join(dir, a + "_" + b), dir)
    ensures Name(Join(dir, a + "_" + b)) == a + "_" + b
  {
    var name := a + "_" + b;
    assert forall k :: 0 <= k < |name| ==> name[k] != '/' by {
      forall k | 0 <= k < |name|
        ensures name[k] != '/'
      {
        if k < |a| {
          assert name[k] == a[k];
        } else if k > |a| {
          assert name[k] == b[k - |a| - 1];
        }
      }
    }
    assert name[|a|] == '_';
    JoinChild(dir, name);
  }

  /** Children of one directory with different names are different paths. */
  lemma JoinInjective(dir: Path, a: string, b: string)
    requires Join(dir, a) == Join(dir, b)
    ensures a == b
  {
    assert Join(dir, a)[|dir| + 1..] == a;
    assert Join(dir, b)[|dir| + 1..] == b;
  }

  predicate IsFile(e: Entries, p: Path) {
    p in e && e[p].File?
  }

  predicate IsDirectory(e: Entries, p: Path) {
    p in e && e[p].Directory?
  }

  /** Some entry lies directly inside `p`. */
  predicate HasChildren(e: Entries, p: Path) {
    exists q :: q in e && ChildOf(q, p)
  }

  /** The directory that would hold `p` exists. */
  predicate ParentIsDirectory(e: Entries, p: Path) {
    '/' in p && IsDirectory(e, Parent(p))
  }

  /** `new FileOutputStream(p)` opens: `p` is not a directory, its parent is
      one, and the process may write `p`. */
  predicate CanCreateFile(e: Entries, denied: set<Path>, p: Path) {
    p !in denied && ParentIsDirectory(e, p) && !IsDirectory(e, p)
  }

  /** `Files.copy(src, p, REPLACE_EXISTING)` can write `p`: a directory there
      is replaced only when it is empty. */
  predicate CanCopyTo(e: Entries, denied: set<Path>, p: Path) {
    p !in denied && ParentIsDirectory(e, p) && !(IsDirectory(e, p) && HasChildren(e, p))
  }

  /** The entries once `exists() || mkdirs()` has succeeded for `dir`: unchanged
      when something is already there. */
  function WithDirectory(e: Entries, dir: Path): (r: Entries)
    ensures dir in r && r.Keys == e.Keys + {dir}
    ensures forall p :: p in e ==> r[p] == e[p]
  {
    if dir in e then e else e[dir := Directory]
  }

  /** The filesystem, which every endpoint call reads and changes in place. */
  class Disk {
    var entries: Entries
    const denied: set<Path>

    constructor (entries: Entries, denied: set<Path>)
      ensures this.entries == entries && this.denied == denied
    {
      this.entries := entries;
      this.denied := denied;
    }

    /** `new File(dir).mkdirs()` for a directory that does not exist yet. */
    method Mkdirs(dir: Path) returns (ok: bool)
      modifies this
      ensures ok == (dir !in old(entries) && dir !in denied)
      ensures entries == if ok then old(entries)[dir := Directory] else old(entries)
    {
      ok := dir !in entries && dir !in denied;
      if ok {
        entries := entries[dir := Directory];
      }
    }

    /** `Files.copy(src, dst, REPLACE_EXISTING)`: the bytes of `src` at `dst`,
        whose modification time is the time of the copy. */
    method Copy(src: Path, dst: Path, now: int) returns (ok: bool)
      requires IsFile(entries, src)
      modifies this
      ensures ok == CanCopyTo(old(entries), denied, dst)
      ensures entries == if ok then old(entries)[dst := File(old(entries)[src].bytes, now)] else old(entries)
    {
      ok := CanCopyTo(entries, denied, dst);
      if ok {
        entries := entries[dst := File(entries[src].bytes, now)];
      }
    }

    /** `new File(p).setLastModified(t)`. */
    method SetLastModified(p: Path, t: int) returns (ok: bool)
      modifies this
      ensures ok == (p in old(entries) && p !in denied)
      ensures entries == if ok && old(entries)[p].File? then old(entries)[p := File(old(entries)[p].bytes, t)] else old(entries)
    {
      ok := p in entries && p !in denied;
      if ok && entries[p].File? {
        entries := entries[p := File(entries[p].bytes, t)];
      }
    }

    /** `new File(p).delete()`: a directory goes only when it is empty. */
    method Delete(p: Path) returns (ok: bool)
      modifies this
      ensures ok == (p in old(entries) && p !in denied && (old(entries)[p].File? || !HasChildren(old(entries), p)))
      ensures entries == if ok then old(entries) - {p} else old(entries)
    {
      ok := p in entries && p !in denied && (entries[p].File? || !HasChildren(entries, p));
      if ok {
        entries := entries - {p};
      }
    }

    /** `new FileOutputStream(p)`: creates `p` or truncates it to no bytes. */
    method OpenForWrite(p: Path, now: int) returns (ok: bool)
      modifies this
      ensures ok == CanCreateFile(old(entries), denied, p)
      ensures entries == if ok then old(entries)[p := File([], now)] else old(entries)
    {
      ok := CanCreateFile(entries, denied, p);
      if ok {
        entries := entries[p := File([], now)];
      }
    }

    /** `out.write(buffer, 0, n)` on a stream opened for `p`. */
    method Append(p: Path, data: seq<byte>, now: int)
      requires IsFile(entries, p)
      modifies this
      ensures entries == old(entries)[p := File(old(entries)[p].bytes + data, now)]
    {
      entries := entries[p := File(entries[p].bytes + data, now)];
    }
  }
}
