/** FileStorageService: validation of caller-supplied paths and names, and the
    deduplicating, transactional save and the listing of a folder. */
module Storage {
  import opened Common
  import opened Strings
  import opened Paths
  import opened SafeFileName
  import opened ContentHash
  import opened Dto
  import opened FileSystems
  import opened FileTransactions

  /** The folder, inside every storage folder, that holds the hash sidecars. */
  const HashesFolder: string := ".hashes"

  /** FileStorageService.Options, without the root path (the model's filesystem
      is the storage root). */
  datatype Options = Options(maxFileSize: int, maxFolderDepth: int, blockedExtensions: set<string>)

  /** 500 MiB, 16 levels, no blocked extensions. */
  const DefaultOptions: Options := Options(500 * 1024 * 1024, 16, {})

  /** A segment the store's ValidatePath lets through. */
  predicate SegmentAllowed(part: string) {
    part != HashesFolder && !IsBlank(part) && part != "." && part != ".."
  }

  /** FileStorageService.ValidatePath: a blank path is the root; otherwise the path
      must hold no invalid character, have at most MaxFolderDepth '/'-separated
      segments, and no segment may be blank, ".", ".." or the hashes folder. */
  function ValidatePath(opts: Options, platform: Platform, path: string): (r: Result<string>)
    ensures IsBlank(path) ==> r == Ok("")
    ensures r.Err? ==> r == Err(InvalidPath(path))
    ensures !IsBlank(path) ==>
      (r.Ok? <==>
        !ContainsAny(path, platform.InvalidChars()) &&
        |Split(path, '/')| <= opts.maxFolderDepth &&
        forall i :: 0 <= i < |Split(path, '/')| ==> SegmentAllowed(Split(path, '/')[i]))
  {
    if IsBlank(path) then Ok("")
    else if ContainsAny(path, platform.InvalidChars()) then Err(InvalidPath(path))
    else
      var parts := Split(path, '/');
      if |parts| > opts.maxFolderDepth then Err(InvalidPath(path))
      else if exists i :: 0 <= i < |parts| && !SegmentAllowed(parts[i]) then Err(InvalidPath(path))
      else Ok(Combine(parts, platform.separator))
  }

  /** FileStorageService.ValidateName: the hashes folder, blank names and names
      with an invalid character are refused; an accepted name comes back from
      MakeSafe unchanged. */
  function ValidateName(platform: Platform, fileName: string): (r: Result<string>)
    ensures r.Ok? <==>
      fileName != HashesFolder && !IsBlank(fileName) && !ContainsAny(fileName, platform.InvalidChars())
    ensures r.Err? ==> r == Err(InvalidName(fileName))
    ensures r.Ok? ==> r.value == fileName
  {
    if fileName == HashesFolder || IsBlank(fileName) then Err(InvalidName(fileName))
    else if ContainsAny(fileName, platform.InvalidChars()) then Err(InvalidName(fileName))
    else
      MakeSafeUnchanged(fileName, platform.invalidFileNameChars, DefaultReplacement);
      Ok(MakeSafe(fileName, platform.invalidFileNameChars, DefaultReplacement))
  }

  /** FileStorageService.EnsureValidFileType: the lower-cased extension is looked
      up in BlockedExtensions as it is; the entries are not normalised. */
  function EnsureValidFileType(opts: Options, extension: string): (r: Result<()>)
    ensures r.Err? ==> r == Err(InvalidFileType(extension))
    ensures r.Ok? <==> ToLower(extension) !in opts.blockedExtensions
  {
    if ToLower(extension) in opts.blockedExtensions then Err(InvalidFileType(extension)) else Ok(())
  }

  /** A folder below the root that validation can produce: within the depth
      limit, every segment allowed and free of invalid characters. */
  ghost predicate SafeFolder(opts: Options, platform: Platform, folder: Path) {
    (folder == [] || |folder| <= opts.maxFolderDepth) &&
    forall i :: 0 <= i < |folder| ==>
      SegmentAllowed(folder[i]) && !ContainsAny(folder[i], platform.InvalidChars())
  }

  /** On both real platforms, ValidatePath hands back an accepted non-blank path
      unchanged: the segments it splits off are joined again with the same
      separator, or there was only one. */
  lemma ValidatePathReturnsInput(opts: Options, platform: Platform, path: string)
    requires platform.WellFormed()
    requires !IsBlank(path) && ValidatePath(opts, platform, path).Ok?
    ensures ValidatePath(opts, platform, path).value == path
  {
    var parts := Split(path, '/');
    var sep := platform.separator;
    forall i | 0 <= i < |parts| ensures parts[i] != "" {
      assert SegmentAllowed(parts[i]);
    }
    NonEmptyOfNonEmpty(parts);
    if sep == '/' {
      JoinSplit(path, '/');
    } else {
      assert forall i :: 0 <= i < |path| ==> path[i] != '/';
      SplitWhole(path, '/');
    }
  }

  /** Validating an accepted path again accepts it with the same result. */
  lemma ValidatePathIdempotent(opts: Options, platform: Platform, path: string)
    requires platform.WellFormed()
    requires ValidatePath(opts, platform, path).Ok?
    ensures ValidatePath(opts, platform, ValidatePath(opts, platform, path).value) == ValidatePath(opts, platform, path)
  {
    if !IsBlank(path) {
      ValidatePathReturnsInput(opts, platform, path);
    }
  }

  /** The folder an accepted path names is a safe folder below the root: its
      segments are the '/'-separated segments of the input, and none of them is
      blank, ".", "..", the hashes folder or holds an invalid character. So no
      accepted path leaves the root or reaches a sidecar. */
  lemma AcceptedFolderIsSafe(opts: Options, platform: Platform, path: string)
    requires platform.WellFormed()
    requires ValidatePath(opts, platform, path).Ok?
    ensures var folder := Resolve(ValidatePath(opts, platform, path).value, platform.separator);
      SafeFolder(opts, platform, folder) &&
      (IsBlank(path) ==> folder == []) &&
      (!IsBlank(path) ==> folder == Split(path, '/'))
  {
    if !IsBlank(path) {
      ValidatePathReturnsInput(opts, platform, path);
      var sep := platform.separator;
      if sep != '/' {
        assert forall i :: 0 <= i < |path| ==> path[i] != '/' && path[i] != sep;
        SplitWhole(path, '/');
        SplitWhole(path, sep);
      }
      var parts := Split(path, '/');
      SplitChars(path, '/');
      forall i | 0 <= i < |parts| ensures !ContainsAny(parts[i], platform.InvalidChars()) {
        forall k | 0 <= k < |parts[i]| ensures parts[i][k] !in platform.InvalidChars() {
          var c := parts[i][k];
          assert c in parts[i];
          assert c in path;
        }
      }
    }
  }

  /** Where '/' is an invalid character, as on Linux, macOS and Windows, a path
      that is not blank has no room for a second segment: the character check
      rejects every nested path before the depth check is reached. */
  lemma SingleSegmentOnly(platform: Platform, path: string)
    requires '/' in platform.InvalidChars()
    requires !ContainsAny(path, platform.InvalidChars())
    ensures |Split(path, '/')| == 1
  {
    assert forall i :: 0 <= i < |path| ==> path[i] != '/';
    SplitWhole(path, '/');
  }

  /** Nested upload and listing paths are refused on both real platforms. */
  lemma NestedPathRejected(opts: Options, platform: Platform, path: string, k: int)
    requires platform == Unix || platform == Windows
    requires 0 <= k < |path| && path[k] == '/'
    ensures ValidatePath(opts, platform, path) == Err(InvalidPath(path))
  {
    assert '/' in platform.InvalidChars();
    assert !IsBlank(path) by { assert path[k] !in WhiteSpace; }
  }

  /** The character check depends on the platform: "<" is refused on Windows,
      as the integration tests expect, and accepted on Linux and macOS. */
  lemma AngleBracketPerPlatform()
    ensures ValidatePath(DefaultOptions, Windows, "<") == Err(InvalidPath("<"))
    ensures ValidatePath(DefaultOptions, Unix, "<") == Ok("<")
  {
    assert "<"[0] !in WhiteSpace;
    assert "<"[0] in Windows.InvalidChars();
    assert !ContainsAny("<", Unix.InvalidChars());
    SplitWhole("<", '/');
    assert SegmentAllowed("<");
    NonEmptyOfNonEmpty(["<"]);
  }

  /** A segment ".." or "." anywhere, or too many segments, is always refused. */
  lemma TraversalRejected(opts: Options, platform: Platform, path: string, k: int)
    requires !IsBlank(path) && 0 <= k < |Split(path, '/')|
    requires Split(path, '/')[k] in {".", "..", HashesFolder} || |Split(path, '/')| > opts.maxFolderDepth
    ensures ValidatePath(opts, platform, path) == Err(InvalidPath(path))
  {
    assert !SegmentAllowed(Split(path, '/')[k]) || |Split(path, '/')| > opts.maxFolderDepth;
  }

  /** The extension matched against the blocked set is lower-cased, so a
      blocked ".exe" refuses "virus.EXE". */
  lemma UpperCaseExtensionBlocked()
    ensures EnsureValidFileType(Options(DefaultOptions.maxFileSize, 16, {".exe"}),
      GetExtension("virus.EXE", Unix.directorySeparators)) == Err(InvalidFileType(".EXE"))
  {
    var name := "virus.EXE";
    assert ExtensionAt(name, 5, Unix.directorySeparators);
    ExtensionSpec(name, Unix.directorySeparators);
    assert name[5..] == ".EXE";
    assert ToLower(".EXE") == ".exe";
  }

  /** A blocked entry that is not written as the lower-cased extension with its
      leading '.' (such as "exe" or ".EXE") never refuses anything. */
  lemma UnnormalisedEntryNeverMatches(platform: Platform, fileName: string, entry: string)
    requires entry != ""
    requires entry[0] != '.' || exists k :: 0 <= k < |entry| && 'A' <= entry[k] <= 'Z'
    ensures ToLower(GetExtension(fileName, platform.directorySeparators)) != entry
  {
    var seps := platform.directorySeparators;
    var ext := GetExtension(fileName, seps);
    ExtensionSpec(fileName, seps);
    if ext != "" {
      var k :| ExtensionAt(fileName, k, seps);
      assert ToLower(ext)[0] == '.';
    }
  }

  /** The sidecar written for earlier content matches the hash of new content
      exactly when the two SHA-1 digests are equal. */
  lemma SidecarMatch(sha1: Bytes -> Digest, earlier: Bytes, content: Bytes)
    ensures forall i :: 0 <= i < |CalculateHash(sha1, earlier)| ==> CalculateHash(sha1, earlier)[i] as int < 128
    ensures AsciiText(AsciiBytes(CalculateHash(sha1, earlier))) == CalculateHash(sha1, content) <==>
      sha1(earlier) == sha1(content)
  {
    HashIsAscii(sha1, earlier);
    AsciiRoundTrip(CalculateHash(sha1, earlier));
    FormatHashFaithful(sha1(earlier), sha1(content));
  }

  /** The hash text is ASCII, so WriteAllText stores it one byte per character. */
  lemma HashIsAscii(sha1: Bytes -> Digest, content: Bytes)
    ensures forall i :: 0 <= i < |CalculateHash(sha1, content)| ==> CalculateHash(sha1, content)[i] as int < 128
  {
    var h := CalculateHash(sha1, content);
    FormatHashFaithful(sha1(content), sha1(content));
    forall i | 0 <= i < |h| ensures h[i] as int < 128 {
      assert h[i] in "0123456789abcdef";
    }
  }

  /** The bytes of the sidecar: the hash text as WriteAllText stores it. */
  function HashBytes(sha1: Bytes -> Digest, content: Bytes): Bytes {
    HashIsAscii(sha1, content);
    AsciiBytes(CalculateHash(sha1, content))
  }

  /** Removing a set of keys forgets an earlier update of one of them. */
  lemma RemoveOverwritten(m: map<Path, Bytes>, k: Path, v: Bytes, gone: set<Path>)
    requires k in gone
    ensures m[k := v] - gone == m - gone
  {
  }

  lemma RemoveRemoved(m: map<Path, Bytes>, k: Path, gone: set<Path>)
    requires k in gone
    ensures (m - {k}) - gone == m - gone
  {
  }

  /** The names of a sequence of entries. */
  function Names(entries: seq<FileMetadata>): set<string> {
    set e | e in entries :: e.name
  }

  lemma NamesAppend(entries: seq<FileMetadata>, e: FileMetadata)
    ensures Names(entries + [e]) == Names(entries) + {e.name}
  {
    assert forall x :: x in entries + [e] <==> x in entries || x == e;
  }

  /** What SaveFileAsync decides before it touches the disk: an answer for
      content that is too large, a blocked extension or an invalid path, or the
      folder the file goes into. */
  datatype Screening = Refused(outcome: Result<FileMetadata>) | Admitted(folder: Path)

  /** The checks of SaveFileAsync, in the order it makes them: size first, then
      the extension, then the path. */
  function Screen(opts: Options, platform: Platform, path: string, fileName: string, size: int): (s: Screening)
    ensures size > opts.maxFileSize <==> s == Refused(Ok(Oversize(fileName)))
    ensures s.Refused? && s.outcome.Ok? ==> s.outcome.value.length == -1
    ensures s.Admitted? <==>
      size <= opts.maxFileSize &&
      EnsureValidFileType(opts, GetExtension(fileName, platform.directorySeparators)).Ok? &&
      ValidatePath(opts, platform, path).Ok?
    ensures size <= opts.maxFileSize && EnsureValidFileType(opts, GetExtension(fileName, platform.directorySeparators)).Err? ==>
      s == Refused(Err(InvalidFileType(GetExtension(fileName, platform.directorySeparators))))
    ensures (size <= opts.maxFileSize && EnsureValidFileType(opts, GetExtension(fileName, platform.directorySeparators)).Ok? &&
             ValidatePath(opts, platform, path).Err?) ==> s == Refused(Err(InvalidPath(path)))
    ensures s.Admitted? ==> s.folder == Resolve(ValidatePath(opts, platform, path).value, platform.separator)
  {
    if size > opts.maxFileSize then Refused(Ok(Oversize(fileName)))
    else
      var extension := GetExtension(fileName, platform.directorySeparators);
      match EnsureValidFileType(opts, extension)
      case Err(e) => Refused(Err(e))
      case Ok(_) =>
        match ValidatePath(opts, platform, path)
        case Err(e) => Refused(Err(e))
        case Ok(v) => Admitted(Resolve(v, platform.separator))
  }

  /** With the default options, a 500 MiB upload is admitted exactly when its
      path is valid and the 501 MiB upload of the integration tests is answered
      with the oversize marker; no extension is blocked; and a path of more
      than 16 segments is refused. */
  lemma DefaultOptionsBoundaries(platform: Platform, path: string, fileName: string, extension: string)
    ensures Screen(DefaultOptions, platform, path, fileName, 500 * 1024 * 1024) != Refused(Ok(Oversize(fileName)))
    ensures Screen(DefaultOptions, platform, path, fileName, 500 * 1024 * 1024).Admitted? <==>
      ValidatePath(DefaultOptions, platform, path).Ok?
    ensures Screen(DefaultOptions, platform, path, fileName, 501 * 1024 * 1024) == Refused(Ok(Oversize(fileName)))
    ensures EnsureValidFileType(DefaultOptions, extension).Ok?
    ensures !IsBlank(path) && |Split(path, '/')| > 16 ==> ValidatePath(DefaultOptions, platform, path).Err?
  {
  }

  /** The stored file. */
  function StoragePath(folder: Path, name: string): Path { folder + [name] }

  /** The sidecar holding the hash of the stored file. */
  function HashPath(folder: Path, name: string): Path { folder + [HashesFolder, name] }

  /** The staging copy: $"{storagePath}.{guid}.tmp". */
  function TempPath(folder: Path, name: string, guid: string): Path { folder + [name + "." + guid + ".tmp"] }

  class FileStorageService {
    const fs: FileSystem
    const options: Options
    const platform: Platform
    /** SHA1.ComputeHash */
    const sha1: Bytes -> Digest

    /** The constructor creates the root and its hashes folder. A store whose
        root cannot be prepared is never constructed (the constructor throws). */
    constructor (fs: FileSystem, options: Options, platform: Platform, sha1: Bytes -> Digest)
      requires fs.Valid()
      requires fs.CanCreateDirectory([HashesFolder])
      modifies fs
      ensures this.fs == fs && this.options == options && this.platform == platform && this.sha1 == sha1
      ensures fs.Valid()
      ensures fs.files == old(fs.files) && fs.dirs == old(fs.dirs) + {[HashesFolder]}
    {
      this.fs := fs;
      this.options := options;
      this.platform := platform;
      this.sha1 := sha1;
      new;
      assert [] + [HashesFolder] == [HashesFolder];
      var _ := EnsureDirectories([]);
      assert Prefixes([HashesFolder], 1) == {[], [HashesFolder]} by {
        assert [HashesFolder][..0] == [] && [HashesFolder][..1] == [HashesFolder];
      }
    }

    function MaxFileSize(): int {
      options.maxFileSize
    }

    /** FileStorageService.FileExistsInStore over the files present: the sidecar
        at p exists and reads back as hash, byte for character. */
    function FileExistsInStore(files: map<Path, Bytes>, p: Path, hash: string): (r: bool)
      ensures r <==> (p in files && |files[p]| == |hash| &&
                      forall i :: 0 <= i < |hash| ==> files[p][i] as int == hash[i] as int)
    {
      var found := p in files && hash == AsciiText(files[p]);
      assert p in files && |files[p]| == |hash| ==>
        (hash == AsciiText(files[p]) <==> forall i :: 0 <= i < |hash| ==> AsciiText(files[p])[i] == hash[i]);
      found
    }

    /** CreateMetadata(FileInfo) of an existing file: its own name, its length in
        bytes (never the oversize marker) and its timestamps. */
    function FileMetadataOf(files: map<Path, Bytes>, p: Path): (r: FileMetadata)
      requires p in files && p != []
      ensures r.name == p[|p| - 1] && !r.folder
      ensures r.length == |files[p]| && r.length >= 0
      ensures r.created == fs.creationTime(p) && r.modified == fs.lastWriteTime(p)
    {
      FileMetadata(p[|p| - 1], |files[p]|, false, fs.creationTime(p), fs.lastWriteTime(p))
    }

    /** CreateMetadata(DirectoryInfo): a folder reports its own name and length 0. */
    function DirectoryMetadata(p: Path): (r: FileMetadata)
      requires p != []
      ensures r.name == p[|p| - 1] && r.folder && r.length == 0
      ensures r.created == fs.creationTime(p) && r.modified == fs.lastWriteTime(p)
    {
      FileMetadata(p[|p| - 1], 0, true, fs.creationTime(p), fs.lastWriteTime(p))
    }

    /** CreateMetadata(string): FileInfo.Length throws when there is no file at p. */
    function CreateMetadata(files: map<Path, Bytes>, p: Path): (r: Result<FileMetadata>)
      ensures r.Ok? <==> p in files && p != []
      ensures r.Ok? ==> r.value.name == p[|p| - 1] && !r.value.folder && r.value.length == |files[p]|
      ensures r.Err? ==> r.error == IOError(p)
    {
      if p in files && p != [] then Ok(FileMetadataOf(files, p)) else Err(IOError(p))
    }

    /** What SaveFileAsync does, as a relation between the filesystem before the
        call, the filesystem after it and the result. */
    ghost predicate SaveOutcome(path: string, fileName: string, content: Bytes, guid: string,
                                before: Disk, after: Disk, r: Result<FileMetadata>)
    {
      (r.Ok? ==> r.value.name == fileName && (r.value.length == -1 <==> |content| > options.maxFileSize)) &&
      match Screen(options, platform, path, fileName, |content|)
      // refused before anything is touched
      case Refused(outcome) => r == outcome && after == before
      case Admitted(folder) =>
        var hashes := folder + [HashesFolder];
        // the folder and its hashes folder are created first, and nothing else
        if !CanCreateIn(before, fs.denied, hashes) then
          r.Err? && r.error.IOError? && after.files == before.files &&
          exists k :: StoppedAt(hashes, k, before, after.dirs, fs.denied)
        else
          after.dirs == before.dirs + Prefixes(hashes, |folder| + 1) &&
          // then the name is checked
          if ValidateName(platform, fileName).Err? then
            r == Err(InvalidName(fileName)) && after.files == before.files
          else
            var storagePath := StoragePath(folder, fileName);
            var tempPath := TempPath(folder, fileName, guid);
            var hashPath := HashPath(folder, fileName);
            // a sidecar holding the same hash means the file is stored already
            if FileExistsInStore(before.files, hashPath, CalculateHash(sha1, content)) then
              after.files == before.files && r == CreateMetadata(before.files, storagePath)
            // otherwise the content is written, or every location the write
            // touched is removed
            else if CanWriteIn(after.dirs, fs.denied, tempPath) && CanWriteIn(after.dirs, fs.denied, storagePath) &&
                    CanWriteIn(after.dirs, fs.denied, hashPath) then
              after.files == (before.files - {tempPath})[storagePath := content][hashPath := HashBytes(sha1, content)] &&
              r == Ok(FileMetadata(fileName, |content|, false, fs.creationTime(storagePath), fs.lastWriteTime(storagePath)))
            else
              r.Err? && r.error.IOError? &&
              after.files == before.files - ({tempPath, storagePath, hashPath} - fs.denied)
    }

    /** The branch of SaveOutcome in which the content is written. */
    lemma WrittenOutcome(path: string, fileName: string, content: Bytes, guid: string,
                         before: Disk, after: Disk, r: Result<FileMetadata>, folder: Path)
      requires Screen(options, platform, path, fileName, |content|) == Admitted(folder)
      requires CanCreateIn(before, fs.denied, folder + [HashesFolder])
      requires after.dirs == before.dirs + Prefixes(folder + [HashesFolder], |folder| + 1)
      requires ValidateName(platform, fileName).Ok?
      requires !FileExistsInStore(before.files, HashPath(folder, fileName), CalculateHash(sha1, content))
      requires CanWriteIn(after.dirs, fs.denied, TempPath(folder, fileName, guid))
      requires CanWriteIn(after.dirs, fs.denied, StoragePath(folder, fileName))
      requires CanWriteIn(after.dirs, fs.denied, HashPath(folder, fileName))
      requires after.files == (before.files - {TempPath(folder, fileName, guid)})
        [StoragePath(folder, fileName) := content][HashPath(folder, fileName) := HashBytes(sha1, content)]
      requires r == CreateMetadata(after.files, StoragePath(folder, fileName))
      ensures SaveOutcome(path, fileName, content, guid, before, after, r)
    {
      var storagePath := StoragePath(folder, fileName);
      assert storagePath in after.files && after.files[storagePath] == content;
    }

    /** The branch of SaveOutcome in which a write fails and is rolled back. */
    lemma RolledBackOutcome(path: string, fileName: string, content: Bytes, guid: string,
                            before: Disk, after: Disk, r: Result<FileMetadata>, folder: Path)
      requires Screen(options, platform, path, fileName, |content|) == Admitted(folder)
      requires CanCreateIn(before, fs.denied, folder + [HashesFolder])
      requires after.dirs == before.dirs + Prefixes(folder + [HashesFolder], |folder| + 1)
      requires ValidateName(platform, fileName).Ok?
      requires !FileExistsInStore(before.files, HashPath(folder, fileName), CalculateHash(sha1, content))
      requires !(CanWriteIn(after.dirs, fs.denied, TempPath(folder, fileName, guid)) &&
                 CanWriteIn(after.dirs, fs.denied, StoragePath(folder, fileName)) &&
                 CanWriteIn(after.dirs, fs.denied, HashPath(folder, fileName)))
      requires after.files == before.files -
        ({TempPath(folder, fileName, guid), StoragePath(folder, fileName), HashPath(folder, fileName)} - fs.denied)
      requires r == Err(IOError(StoragePath(folder, fileName)))
      ensures SaveOutcome(path, fileName, content, guid, before, after, r)
    {
    }

    /** The branch of SaveOutcome in which the sidecar already holds the hash. */
    lemma DeduplicatedOutcome(path: string, fileName: string, content: Bytes, guid: string,
                              before: Disk, after: Disk, r: Result<FileMetadata>, folder: Path)
      requires Screen(options, platform, path, fileName, |content|) == Admitted(folder)
      requires CanCreateIn(before, fs.denied, folder + [HashesFolder])
      requires after.dirs == before.dirs + Prefixes(folder + [HashesFolder], |folder| + 1)
      requires ValidateName(platform, fileName).Ok?
      requires FileExistsInStore(before.files, HashPath(folder, fileName), CalculateHash(sha1, content))
      requires after.files == before.files
      requires r == CreateMetadata(after.files, StoragePath(folder, fileName))
      ensures SaveOutcome(path, fileName, content, guid, before, after, r)
    {
    }

    /** What SaveOutcome allows for a "." or ".." name when no file has such a
        name: only the oversize marker is an answer with metadata, and once the
        directories can be created and the name passes, the move fails and only
        the staging location is deleted. */
    lemma DotNameOutcome(path: string, fileName: string, content: Bytes, guid: string,
                         before: Disk, after: Disk, r: Result<FileMetadata>)
      requires fileName == "." || fileName == ".."
      requires forall f :: f in before.files ==> !IsDotName(f)
      requires SaveOutcome(path, fileName, content, guid, before, after, r)
      ensures r.Ok? ==> r == Ok(Oversize(fileName))
      ensures var s := Screen(options, platform, path, fileName, |content|);
        s.Admitted? && CanCreateIn(before, fs.denied, s.folder + [HashesFolder]) &&
        ValidateName(platform, fileName).Ok? ==>
          r.Err? && r.error.IOError? &&
          after.files == before.files - ({TempPath(s.folder, fileName, guid)} - fs.denied)
    {
      var s := Screen(options, platform, path, fileName, |content|);
      if s.Admitted? {
        var storagePath, hashPath := StoragePath(s.folder, fileName), HashPath(s.folder, fileName);
        assert IsDotName(storagePath) && IsDotName(hashPath);
        assert storagePath !in before.files && hashPath !in before.files;
        var tempPath := TempPath(s.folder, fileName, guid);
        assert before.files - ({tempPath, storagePath, hashPath} - fs.denied) ==
               before.files - ({tempPath} - fs.denied);
      }
    }

    /** A save that answered with metadata other than the oversize marker left a
        file at the destination, in the folder the path names, and answered with
        that file's metadata. */
    lemma SavedIsStored(path: string, fileName: string, content: Bytes, guid: string,
                        before: Disk, r: Result<FileMetadata>)
      requires fs.Valid()
      requires SaveOutcome(path, fileName, content, guid, before, fs.Snapshot(), r)
      requires r.Ok? && r.value.length != -1
      ensures Screen(options, platform, path, fileName, |content|).Admitted?
      ensures var folder := Screen(options, platform, path, fileName, |content|).folder;
        folder in fs.dirs && StoragePath(folder, fileName) in fs.files &&
        r.value == FileMetadataOf(fs.files, StoragePath(folder, fileName))
    {
      var folder := Screen(options, platform, path, fileName, |content|).folder;
      var storagePath := StoragePath(folder, fileName);
      assert storagePath in fs.files;
      assert Parent(storagePath) == folder;
    }

    /** EnsureDirectories: creates the folder, then its hashes folder, each only
        if it does not exist yet. It succeeds exactly when every missing ancestor
        of the hashes folder can be created, and creates nothing else. */
    method EnsureDirectories(folder: Path) returns (ok: bool)
      requires fs.Valid()
      modifies fs
      ensures fs.Valid() && fs.files == old(fs.files)
      ensures ok <==> old(fs.CanCreateDirectory(folder + [HashesFolder]))
      ensures ok ==> fs.dirs == old(fs.dirs) + Prefixes(folder + [HashesFolder], |folder| + 1)
      ensures old(fs.dirs) <= fs.dirs <= old(fs.dirs) + Prefixes(folder + [HashesFolder], |folder| + 1)
      ensures !ok ==> exists k :: StoppedAt(folder + [HashesFolder], k, old(fs.Snapshot()), fs.dirs, fs.denied)
    {
      ghost var before := fs.Snapshot();
      var hashes := folder + [HashesFolder];
      assert forall j :: 0 <= j <= |folder| ==> hashes[..j] == folder[..j];
      assert hashes[..|folder| + 1] == hashes;
      assert Prefixes(hashes, |folder| + 1) == Prefixes(folder, |folder|) + {hashes};
      PrefixesExtend(folder, HashesFolder, |folder|);
      CanCreateChild(fs, folder, HashesFolder);
      if folder !in fs.dirs {
        ok := fs.CreateDirectory(folder);
        if !ok {
          ghost var k :| StoppedAt(folder, k, before, fs.dirs, fs.denied);
          PrefixesExtend(folder, HashesFolder, k - 1);
          assert StoppedAt(hashes, k, before, fs.dirs, fs.denied);
          return;
        }
        CanCreateChild(fs, folder, HashesFolder);
      } else {
        AncestorsAreDirs(fs, folder);
      }
      assert Prefixes(folder, |folder|) <= fs.dirs;
      if hashes !in fs.dirs {
        ghost var middle := fs.Snapshot();
        ok := fs.CreateDirectory(hashes);
        if !ok {
          ghost var k :| StoppedAt(hashes, k, middle, fs.dirs, fs.denied);
          assert StoppedAt(hashes, k, before, fs.dirs, fs.denied);
        }
      } else {
        ok := true;
      }
    }

    /** The steps inside the transaction: copy the content to the staging file,
        move it over the stored file and write the sidecar. A step that fails
        leaves changes only at locations the transaction will try to delete. */
    method WriteSteps(storagePath: Path, tempPath: Path, hashPath: Path, content: Bytes, hash: string)
      returns (ok: bool)
      requires fs.Valid()
      requires storagePath != [] && tempPath != [] && hashPath != []
      requires Parent(storagePath) in fs.dirs && Parent(tempPath) in fs.dirs && Parent(hashPath) in fs.dirs
      requires storagePath != tempPath && hashPath != tempPath && hashPath != storagePath
      requires forall i :: 0 <= i < |hash| ==> hash[i] as int < 128
      modifies fs
      ensures fs.Valid() && fs.dirs == old(fs.dirs)
      ensures ok <==> fs.CanWrite(tempPath) && fs.CanWrite(storagePath) && fs.CanWrite(hashPath)
      ensures ok ==> fs.files == (old(fs.files) - {tempPath})[storagePath := content][hashPath := AsciiBytes(hash)]
      ensures !ok ==>
        var doomed := {tempPath, storagePath, hashPath} - fs.denied;
        fs.files - doomed == old(fs.files) - doomed
    {
      ghost var before := fs.files;
      ghost var doomed := {tempPath, storagePath, hashPath} - fs.denied;
      ok := fs.WriteAllBytes(tempPath, content);
      if !ok {
        assert !fs.CanWrite(tempPath);
        return;
      }
      assert fs.CanWrite(tempPath);
      RemoveOverwritten(before, tempPath, content, doomed);
      ok := fs.Move(tempPath, storagePath);
      if !ok {
        assert !fs.CanWrite(storagePath);
        return;
      }
      assert fs.CanWrite(storagePath);
      ghost var moved := fs.files;
      assert moved == (before - {tempPath})[storagePath := content];
      RemoveOverwritten(before - {tempPath}, storagePath, content, doomed);
      RemoveRemoved(before, tempPath, doomed);
      ok := fs.WriteAllText(hashPath, hash);
      if !ok {
        assert fs.files == moved && !fs.CanWrite(hashPath);
      }
    }

    /** The try block of SaveFileAsync: the steps inside a transaction over the
        three locations, committed when all of them succeed. If one fails,
        disposing the transaction deletes whatever it can of the three, a stored
        file that was there before included. */
    method WriteNew(storagePath: Path, tempPath: Path, hashPath: Path, content: Bytes, hash: string)
      returns (ok: bool)
      requires fs.Valid()
      requires storagePath != [] && tempPath != [] && hashPath != []
      requires Parent(storagePath) in fs.dirs && Parent(tempPath) in fs.dirs && Parent(hashPath) in fs.dirs
      requires storagePath != tempPath && hashPath != tempPath && hashPath != storagePath
      requires forall i :: 0 <= i < |hash| ==> hash[i] as int < 128
      modifies fs
      ensures fs.Valid() && fs.dirs == old(fs.dirs)
      ensures ok <==> fs.CanWrite(tempPath) && fs.CanWrite(storagePath) && fs.CanWrite(hashPath)
      ensures ok ==> fs.files == (old(fs.files) - {tempPath})[storagePath := content][hashPath := AsciiBytes(hash)]
      ensures !ok ==> fs.files == old(fs.files) - ({tempPath, storagePath, hashPath} - fs.denied)
    {
      var tx := new FileTransaction([storagePath, tempPath, hashPath]);
      assert tx.pending == {storagePath, tempPath, hashPath};
      ok := WriteSteps(storagePath, tempPath, hashPath, content, hash);
      if ok {
        tx.Commit(None);
      }
      tx.Dispose(fs);
    }

    /** FileStorageService.SaveFileAsync, with the stream given as its content and
        the Guid of the staging file as a parameter. */
    method SaveFile(path: string, fileName: string, content: Bytes, guid: string)
      returns (r: Result<FileMetadata>)
      requires fs.Valid()
      modifies fs
      ensures fs.Valid()
      ensures r.Ok? ==> r.value.name == fileName
      ensures r.Ok? ==> (r.value.length == -1 <==> |content| > options.maxFileSize)
      ensures SaveOutcome(path, fileName, content, guid, old(fs.Snapshot()), fs.Snapshot(), r)
    {
      ghost var before := fs.Snapshot();
      var screening := Screen(options, platform, path, fileName, |content|);
      if screening.Refused? {
        return screening.outcome;
      }
      var folder := screening.folder;
      var created := EnsureDirectories(folder);
      if !created {
        return Err(IOError(folder + [HashesFolder]));
      }
      var name := ValidateName(platform, fileName);
      if name.Err? {
        return Err(name.error);
      }
      var safeName := name.value;
      var storagePath := StoragePath(folder, safeName);
      var hash := CalculateHash(sha1, content);
      var hashPath := HashPath(folder, safeName);
      if !FileExistsInStore(fs.files, hashPath, hash) {
        var tempPath := TempPath(folder, safeName, guid);
        assert folder + [HashesFolder] in fs.dirs by {
          assert (folder + [HashesFolder])[..|folder| + 1] == folder + [HashesFolder];
        }
        assert folder in fs.dirs by {
          assert (folder + [HashesFolder])[..|folder|] == folder;
        }
        assert Parent(hashPath) == folder + [HashesFolder];
        assert Parent(storagePath) == folder && Parent(tempPath) == folder;
        assert tempPath[|folder|] != storagePath[|folder|] by {
          assert |tempPath[|folder|]| > |safeName|;
        }
        HashIsAscii(sha1, content);
        var ok := WriteNew(storagePath, tempPath, hashPath, content, hash);
        if !ok {
          r := Err(IOError(storagePath));
          RolledBackOutcome(path, fileName, content, guid, before, fs.Snapshot(), r, folder);
          return;
        }
        r := CreateMetadata(fs.files, storagePath);
        WrittenOutcome(path, fileName, content, guid, before, fs.Snapshot(), r, folder);
        return;
      }
      r := CreateMetadata(fs.files, storagePath);
      DeduplicatedOutcome(path, fileName, content, guid, before, fs.Snapshot(), r, folder);
    }

    /** DirectoryInfo.GetDirectories(): the names of the folders directly in dir. */
    function SubdirectoryNames(dir: Path): set<string>
      reads fs
    {
      set d | d in fs.dirs && |d| == |dir| + 1 && d[..|dir|] == dir :: d[|dir|]
    }

    /** DirectoryInfo.GetFiles(): the names of the files directly in dir. */
    function FileNames(dir: Path): set<string>
      reads fs
    {
      set f | f in fs.files && |f| == |dir| + 1 && f[..|dir|] == dir :: f[|dir|]
    }

    /** The entries name each of the names exactly once. */
    ghost predicate Enumerates(entries: seq<FileMetadata>, names: set<string>) {
      Names(entries) == names &&
      forall i, j :: 0 <= i < j < |entries| ==> entries[i].name != entries[j].name
    }

    /** What ListFiles returns for the folder dir: nothing when it does not exist;
        otherwise its folders other than the hashes folder, then its files, each
        once, with the metadata CreateMetadata gives them. */
    ghost predicate IsListing(dir: Path, entries: seq<FileMetadata>, folderCount: nat)
      reads fs
    {
      (dir !in fs.dirs ==> entries == []) &&
      (dir in fs.dirs ==>
        folderCount <= |entries| &&
        Enumerates(entries[..folderCount], SubdirectoryNames(dir) - {HashesFolder}) &&
        Enumerates(entries[folderCount..], FileNames(dir)) &&
        (forall i :: 0 <= i < folderCount ==> entries[i] == DirectoryMetadata(dir + [entries[i].name])) &&
        (forall i :: folderCount <= i < |entries| ==>
          dir + [entries[i].name] in fs.files && entries[i] == FileMetadataOf(fs.files, dir + [entries[i].name])))
    }

    /** A file of a listed folder has its entry among the listed files. */
    lemma ListedFile(dir: Path, entries: seq<FileMetadata>, folderCount: nat, name: string)
      requires IsListing(dir, entries, folderCount)
      requires dir in fs.dirs && dir + [name] in fs.files
      ensures exists i :: folderCount <= i < |entries| && entries[i] == FileMetadataOf(fs.files, dir + [name])
    {
      var f := dir + [name];
      assert f[..|dir|] == dir && f[|dir|] == name;
      assert name in FileNames(dir);
      var files := entries[folderCount..];
      assert name in Names(files);
      var e :| e in files && e.name == name;
      var k :| 0 <= k < |files| && files[k] == e;
      assert entries[folderCount + k] == e;
    }

    /** FileStorageService.ListFiles. The order within the folders and within the
        files is whatever the filesystem reports, so it is left open. */
    method ListFiles(path: string) returns (r: Result<seq<FileMetadata>>, ghost folderCount: nat)
      requires fs.Valid()
      ensures ValidatePath(options, platform, path).Err? ==> r == Err(InvalidPath(path))
      ensures ValidatePath(options, platform, path).Ok? ==>
        r.Ok? && IsListing(Resolve(ValidatePath(options, platform, path).value, platform.separator), r.value, folderCount)
    {
      folderCount := 0;
      var valid := ValidatePath(options, platform, path);
      if valid.Err? {
        return Err(valid.error), 0;
      }
      var dir := Resolve(valid.value, platform.separator);
      if dir !in fs.dirs {
        return Ok([]), 0;
      }
      var folders := ListFolders(dir);
      var files := ListFilesIn(dir);
      folderCount := |folders|;
      r := Ok(folders + files);
      assert r.value[..folderCount] == folders && r.value[folderCount..] == files;
    }

    /** di.GetDirectories().Where(d => d.Name != HashesFolder).Select(CreateMetadata) */
    method ListFolders(dir: Path) returns (entries: seq<FileMetadata>)
      ensures Enumerates(entries, SubdirectoryNames(dir) - {HashesFolder})
      ensures forall i :: 0 <= i < |entries| ==> entries[i] == DirectoryMetadata(dir + [entries[i].name])
    {
      var names := SubdirectoryNames(dir) - {HashesFolder};
      entries := [];
      while names != {}
        invariant forall i :: 0 <= i < |entries| ==>
          entries[i] == DirectoryMetadata(dir + [entries[i].name]) && entries[i].name !in names
        invariant forall i, j :: 0 <= i < j < |entries| ==> entries[i].name != entries[j].name
        invariant Names(entries) + names == SubdirectoryNames(dir) - {HashesFolder}
        decreases names
      {
        var n :| n in names;
        entries := entries + [DirectoryMetadata(dir + [n])];
        names := names - {n};
        NamesAppend(entries[..|entries| - 1], entries[|entries| - 1]);
        assert entries[..|entries| - 1] + [entries[|entries| - 1]] == entries;
      }
    }

    /** di.GetFiles().Select(CreateMetadata) */
    method ListFilesIn(dir: Path) returns (entries: seq<FileMetadata>)
      ensures Enumerates(entries, FileNames(dir))
      ensures forall i :: 0 <= i < |entries| ==>
        dir + [entries[i].name] in fs.files && entries[i] == FileMetadataOf(fs.files, dir + [entries[i].name])
    {
      var names := FileNames(dir);
      entries := [];
      while names != {}
        invariant names <= FileNames(dir)
        invariant forall i :: 0 <= i < |entries| ==>
          dir + [entries[i].name] in fs.files && entries[i] == FileMetadataOf(fs.files, dir + [entries[i].name]) &&
          entries[i].name !in names
        invariant forall i, j :: 0 <= i < j < |entries| ==> entries[i].name != entries[j].name
        invariant Names(entries) + names == FileNames(dir)
        decreases names
      {
        var n :| n in names;
        assert dir + [n] in fs.files by {
          var f :| f in fs.files && |f| == |dir| + 1 && f[..|dir|] == dir && f[|dir|] == n;
          assert f == dir + [n];
        }
        var entry := FileMetadataOf(fs.files, dir + [n]);
        NamesAppend(entries, entry);
        entries, names := entries + [entry], names - {n};
      }
    }
  }

  /** Saving the same content under the same name twice writes it once: once
      the first save has returned metadata, the second finds the sidecar,
      changes no file and returns the same metadata. */
  method SaveTwice(store: FileStorageService, path: string, fileName: string, content: Bytes, guid1: string, guid2: string)
    returns (first: Result<FileMetadata>, second: Result<FileMetadata>, ghost between: map<Path, Bytes>)
    requires store.fs.Valid()
    modifies store.fs
    ensures first.Ok? && first.value.length != -1 ==> store.fs.files == between && second == first
  {
    first := store.SaveFile(path, fileName, content, guid1);
    between := store.fs.files;
    ghost var s := Screen(store.options, store.platform, path, fileName, |content|);
    if first.Ok? && first.value.length != -1 {
      var hashes := s.folder + [HashesFolder];
      var hash := CalculateHash(store.sha1, content);
      assert store.fs.CanCreateDirectory(hashes) by {
        forall j | 0 <= j <= |hashes| ensures hashes[..j] in store.fs.dirs {
          assert hashes[..j] in Prefixes(hashes, |s.folder| + 1);
        }
      }
      HashIsAscii(store.sha1, content);
      AsciiRoundTrip(hash);
      assert store.FileExistsInStore(store.fs.files, HashPath(s.folder, fileName), hash);
    }
    second := store.SaveFile(path, fileName, content, guid2);
  }

  /** A save that stored or found the content is seen by a listing of the same
      path made right after it: the listing is accepted and holds, among the
      files, the entry the save returned, under the uploaded name. */
  method SaveThenList(store: FileStorageService, path: string, fileName: string, content: Bytes, guid: string)
    returns (r: Result<FileMetadata>, listing: Result<seq<FileMetadata>>, ghost folderCount: nat)
    requires store.fs.Valid()
    modifies store.fs
    ensures r.Ok? && r.value.length != -1 ==>
      r.value.name == fileName && listing.Ok? &&
      exists i :: folderCount <= i < |listing.value| && listing.value[i] == r.value
  {
    ghost var before := store.fs.Snapshot();
    r := store.SaveFile(path, fileName, content, guid);
    listing, folderCount := store.ListFiles(path);
    if r.Ok? && r.value.length != -1 {
      store.SavedIsStored(path, fileName, content, guid, before, r);
      var folder := Screen(store.options, store.platform, path, fileName, |content|).folder;
      store.ListedFile(folder, listing.value, folderCount, fileName);
    }
  }

  /** On both platforms "." and ".." pass ValidateName: neither is blank, the
      hashes folder's name or made of invalid characters. */
  lemma DotNamesAccepted(platform: Platform, fileName: string)
    requires platform == Unix || platform == Windows
    requires fileName == "." || fileName == ".."
    ensures ValidateName(platform, fileName) == Ok(fileName)
  {
    assert !IsBlank(fileName) by { assert fileName[0] !in WhiteSpace; }
    assert !ContainsAny(fileName, platform.InvalidChars()) by {
      assert forall i :: 0 <= i < |fileName| ==> fileName[i] == '.';
    }
  }

  /** Saving under "." or "..": the stored location is the folder itself or its
      parent, so only the move onto it fails. The save ends in an I/O error,
      unless it is refused or oversize before that, and the transaction deletes
      the staging copy again: no file is ever stored under such a name. */
  method SaveDotName(store: FileStorageService, path: string, fileName: string, content: Bytes, guid: string)
    returns (r: Result<FileMetadata>)
    requires store.fs.Valid()
    requires fileName == "." || fileName == ".."
    modifies store.fs
    ensures store.fs.Valid()
    ensures r.Ok? ==> r == Ok(Oversize(fileName))
    ensures forall f :: f in store.fs.files ==> f[|f| - 1] != fileName
    ensures var s := Screen(store.options, store.platform, path, fileName, |content|);
      s.Admitted? && old(store.fs.CanCreateDirectory(s.folder + [HashesFolder])) &&
      ValidateName(store.platform, fileName).Ok? ==>
        r.Err? && r.error.IOError? &&
        store.fs.files == old(store.fs.files) - ({TempPath(s.folder, fileName, guid)} - store.fs.denied)
  {
    ghost var before := store.fs.Snapshot();
    r := store.SaveFile(path, fileName, content, guid);
    store.DotNameOutcome(path, fileName, content, guid, before, store.fs.Snapshot(), r);
  }
}
