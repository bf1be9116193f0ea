/** The filesystem below the storage root, as the store sees it through
    System.IO.File and System.IO.Directory. Every change to a location in
    `denied` fails, which stands for permission errors, a full disk and the like. */
module FileSystems {
  import opened Common
  import opened Dto

  /** The bytes File.WriteAllText stores for ASCII text. */
  function AsciiBytes(text: string): Bytes
    requires forall i :: 0 <= i < |text| ==> text[i] as int < 128
  {
    seq(|text|, i requires 0 <= i < |text| => text[i] as int)
  }

  /** File.ReadAllText, one character per byte. */
  function AsciiText(b: Bytes): string {
    seq(|b|, i requires 0 <= i < |b| => b[i] as char)
  }

  /** Text written by WriteAllText reads back unchanged. */
  lemma AsciiRoundTrip(text: string)
    requires forall i :: 0 <= i < |text| ==> text[i] as int < 128
    ensures AsciiText(AsciiBytes(text)) == text
  {
  }

  /** The locations p[..0], ..., p[..n]: the root and the first n ancestors. */
  function Prefixes(p: Path, n: nat): set<Path>
    requires n <= |p|
  {
    set j | 0 <= j <= n :: p[..j]
  }

  /** Extending a path does not change its first ancestors. */
  lemma PrefixesExtend(p: Path, name: string, n: nat)
    requires n <= |p|
    ensures Prefixes(p + [name], n) == Prefixes(p, n)
  {
    assert forall j :: 0 <= j <= n ==> (p + [name])[..j] == p[..j];
  }

  /** The files and the directories at one moment. */
  datatype Disk = Disk(files: map<Path, Bytes>, dirs: set<Path>)

  /** A location whose last segment is "." or ".." is the folder itself or its
      parent once the path is resolved: a directory, never a file. */
  predicate IsDotName(p: Path) {
    p != [] && (p[|p| - 1] == "." || p[|p| - 1] == "..")
  }

  /** Directory.CreateDirectory(p) can create every missing ancestor of p. */
  ghost predicate CanCreateIn(d: Disk, denied: set<Path>, p: Path) {
    forall j :: 0 <= j <= |p| ==> p[..j] in d.dirs || (p[..j] !in d.files && p[..j] !in denied)
  }

  /** File.Create, File.WriteAllText and the target of File.Move can write p
      when the directories are dirs: its parent is a directory and p names no
      directory and is not denied. */
  ghost predicate CanWriteIn(dirs: set<Path>, denied: set<Path>, p: Path) {
    p != [] && Parent(p) in dirs && p !in dirs && p !in denied && !IsDotName(p)
  }

  /** Directory.CreateDirectory(p) stopped at p[..k], the first ancestor it
      could not create: every ancestor above it existed or could be created and
      was, and p[..k] could not be because it is a file or denied. */
  ghost predicate StoppedAt(p: Path, k: int, before: Disk, after: set<Path>, denied: set<Path>) {
    1 <= k <= |p| && after == before.dirs + Prefixes(p, k - 1) &&
    (forall j :: 0 <= j < k ==> p[..j] in before.dirs || (p[..j] !in before.files && p[..j] !in denied)) &&
    p[..k] !in before.dirs && (p[..k] in before.files || p[..k] in denied)
  }

  /** Every ancestor of a directory is a directory. */
  lemma {:induction false} AncestorsAreDirs(fs: FileSystem, d: Path)
    requires fs.Valid() && d in fs.dirs
    ensures forall j :: 0 <= j <= |d| ==> d[..j] in fs.dirs
    decreases |d|
  {
    if d != [] {
      AncestorsAreDirs(fs, Parent(d));
      forall j | 0 <= j <= |d| ensures d[..j] in fs.dirs {
        if j < |d| {
          assert d[..j] == Parent(d)[..j];
        } else {
          assert d[..j] == d;
        }
      }
    }
  }

  /** A child can be created exactly when its parent can and the child itself
      is a directory already or is neither a file nor denied. */
  lemma CanCreateChild(fs: FileSystem, folder: Path, name: string)
    ensures fs.CanCreateDirectory(folder + [name]) <==>
      fs.CanCreateDirectory(folder) &&
      (folder + [name] in fs.dirs || (folder + [name] !in fs.files && folder + [name] !in fs.denied))
  {
    var q := folder + [name];
    assert forall j :: 0 <= j <= |folder| ==> q[..j] == folder[..j];
    assert q[..|q|] == q;
  }

  class FileSystem {
    var files: map<Path, Bytes>
    var dirs: set<Path>
    const denied: set<Path>
    const creationTime: Path -> Timestamp
    const lastWriteTime: Path -> Timestamp

    /** The root exists, every entry's parent is a directory, and nothing is both
        a file and a directory. */
    ghost predicate Valid()
      reads this
    {
      [] in dirs &&
      (forall d :: d in dirs && d != [] ==> Parent(d) in dirs) &&
      (forall f :: f in files ==> f != [] && Parent(f) in dirs && f !in dirs && !IsDotName(f))
    }

    function Snapshot(): Disk
      reads this
    {
      Disk(files, dirs)
    }

    constructor (denied: set<Path>, creationTime: Path -> Timestamp, lastWriteTime: Path -> Timestamp)
      ensures Valid()
      ensures files == map[] && dirs == {[]}
      ensures this.denied == denied
    {
      this.files := map[];
      this.dirs := {[]};
      this.denied := denied;
      this.creationTime := creationTime;
      this.lastWriteTime := lastWriteTime;
    }

    ghost predicate CanCreateDirectory(p: Path)
      reads this
    {
      CanCreateIn(Snapshot(), denied, p)
    }

    ghost predicate CanWrite(p: Path)
      reads this
    {
      CanWriteIn(dirs, denied, p)
    }

    /** Directory.CreateDirectory: creates the missing ancestors of p and p itself,
        outermost first, and fails at the first one that is a file or denied. */
    method CreateDirectory(p: Path) returns (ok: bool)
      requires Valid()
      modifies this
      ensures Valid()
      ensures files == old(files)
      ensures ok <==> old(CanCreateDirectory(p))
      ensures ok ==> dirs == old(dirs) + Prefixes(p, |p|)
      ensures old(dirs) <= dirs <= old(dirs) + Prefixes(p, |p|)
      ensures !ok ==> exists k :: StoppedAt(p, k, old(Snapshot()), dirs, denied)
    {
      var i := 1;
      while i <= |p|
        invariant 1 <= i <= |p| + 1
        invariant Valid()
        invariant files == old(files)
        invariant dirs == old(dirs) + Prefixes(p, i - 1)
        invariant forall j :: 0 <= j < i ==> p[..j] in old(dirs) || (p[..j] !in files && p[..j] !in denied)
      {
        var q := p[..i];
        assert Parent(q) == p[..i - 1];
        if q !in dirs {
          if q in files || q in denied {
            assert StoppedAt(p, i, old(Snapshot()), dirs, denied);
            return false;
          }
          dirs := dirs + {q};
        }
        i := i + 1;
      }
      ok := true;
    }

    /** File.Delete: removes the file at p; a missing file is no error, a
        directory (a "." or ".." name included) or a denied location is. */
    method Delete(p: Path) returns (ok: bool)
      requires Valid()
      modifies this
      ensures Valid()
      ensures dirs == old(dirs)
      ensures ok <==> p !in denied && p !in dirs && !IsDotName(p)
      ensures files == if ok then old(files) - {p} else old(files)
    {
      if p in denied || p in dirs || IsDotName(p) {
        return false;
      }
      files := files - {p};
      ok := true;
    }

    /** File.Create followed by copying data into it, or File.WriteAllBytes:
        the file at p then holds exactly data. */
    method WriteAllBytes(p: Path, data: Bytes) returns (ok: bool)
      requires Valid()
      modifies this
      ensures Valid()
      ensures dirs == old(dirs)
      ensures ok <==> old(CanWrite(p))
      ensures files == if ok then old(files)[p := data] else old(files)
    {
      if p == [] || Parent(p) !in dirs || p in dirs || p in denied || IsDotName(p) {
        return false;
      }
      files := files[p := data];
      ok := true;
    }

    /** File.WriteAllText for ASCII text. */
    method WriteAllText(p: Path, text: string) returns (ok: bool)
      requires Valid()
      requires forall i :: 0 <= i < |text| ==> text[i] as int < 128
      modifies this
      ensures Valid()
      ensures dirs == old(dirs)
      ensures ok <==> old(CanWrite(p))
      ensures files == if ok then old(files)[p := AsciiBytes(text)] else old(files)
    {
      ok := WriteAllBytes(p, AsciiBytes(text));
    }

    /** File.Move(src, dst, overwrite: true): the file at src replaces whatever
        file is at dst. */
    method Move(src: Path, dst: Path) returns (ok: bool)
      requires Valid()
      modifies this
      ensures Valid()
      ensures dirs == old(dirs)
      ensures ok <==> src in old(files) && src !in denied && old(CanWrite(dst))
      ensures ok ==> files == (old(files) - {src})[dst := old(files)[src]]
      ensures !ok ==> files == old(files)
    {
      if src !in files || src in denied || dst == [] || Parent(dst) !in dirs || dst in dirs || dst in denied || IsDotName(dst) {
        return false;
      }
      files := (files - {src})[dst := files[src]];
      ok := true;
    }
  }
}
