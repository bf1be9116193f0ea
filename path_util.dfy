/** PathUtil: a stand-alone path validator with a configurable reserved-name set
    and depth limit. Its fields are set once by a constructor, so it is a value. */
module PathUtilities {
  import opened Common
  import opened Strings
  import opened Paths
  import opened SafeFileName

  const DefaultMaxDepth: uint32 := 32

  datatype PathUtil = PathUtil(platform: Platform, reservedNames: set<string>, maxDepth: uint32)

  /** new PathUtil() */
  function Default(platform: Platform): PathUtil {
    PathUtil(platform, {".", ".."}, DefaultMaxDepth)
  }

  /** new PathUtil(reservedNames, maxDepth): the names are added to "." and "..". */
  function WithReserved(platform: Platform, reservedNames: seq<string>, maxDepth: uint32): PathUtil {
    PathUtil(platform, {".", ".."} + (set n | n in reservedNames), maxDepth)
  }

  /** PathUtil.ValidateName. Unlike the store's own check it has no blank test. */
  function ValidateName(u: PathUtil, fileName: string): (r: Result<string>)
    ensures r.Ok? <==> fileName !in u.reservedNames && !ContainsAny(fileName, u.platform.InvalidChars())
    ensures r.Err? ==> r.error == InvalidName(fileName)
    ensures r.Ok? ==> r.value == fileName
  {
    if fileName in u.reservedNames then Err(InvalidName(fileName))
    else if ContainsAny(fileName, u.platform.InvalidChars()) then Err(InvalidName(fileName))
    else
      MakeSafeUnchanged(fileName, u.platform.invalidFileNameChars, DefaultReplacement);
      Ok(MakeSafe(fileName, u.platform.invalidFileNameChars, DefaultReplacement))
  }

  /** Segment i is the first one ValidateName rejects. */
  ghost predicate FirstRejectedAt(u: PathUtil, parts: seq<string>, i: int) {
    0 <= i < |parts| && ValidateName(u, parts[i]).Err? &&
    forall j :: 0 <= j < i ==> ValidateName(u, parts[j]).Ok?
  }

  /** The segment the foreach in ValidatePath throws for: the first one that
      ValidateName rejects. */
  function FirstRejected(u: PathUtil, parts: seq<string>): (r: Option<string>)
    ensures r.None? <==> forall i :: 0 <= i < |parts| ==> ValidateName(u, parts[i]).Ok?
    ensures r.Some? ==> exists i :: FirstRejectedAt(u, parts, i) && parts[i] == r.value
  {
    if parts == [] then None
    else if ValidateName(u, parts[0]).Err? then
      assert FirstRejectedAt(u, parts, 0);
      Some(parts[0])
    else
      var r := FirstRejected(u, parts[1..]);
      assert r.Some? ==> exists i :: FirstRejectedAt(u, parts, i) && parts[i] == r.value by {
        if r.Some? {
          var i :| FirstRejectedAt(u, parts[1..], i) && parts[1..][i] == r.value;
          assert FirstRejectedAt(u, parts, i + 1) by {
            forall j | 0 <= j < i + 1 ensures ValidateName(u, parts[j]).Ok? {
              if j > 0 { assert parts[j] == parts[1..][j - 1]; }
            }
          }
        }
      }
      r
  }

  /** PathUtil.ValidatePath. The maxDepth argument is never read: the depth limit
      is the one given to the constructor. */
  function ValidatePath(u: PathUtil, path: string, maxDepth: int): (r: Result<string>)
    ensures IsBlank(path) ==> r == Ok("")
    ensures !IsBlank(path) && |Split(path, '/')| > u.maxDepth ==> r == Err(InvalidPath(path))
    ensures !IsBlank(path) && |Split(path, '/')| <= u.maxDepth ==>
      (r.Ok? <==> forall i :: 0 <= i < |Split(path, '/')| ==> ValidateName(u, Split(path, '/')[i]).Ok?)
    ensures r.Err? && r.error.InvalidName? ==>
      r.error.name in Split(path, '/') && ValidateName(u, r.error.name).Err?
    ensures !IsBlank(path) && |Split(path, '/')| <= u.maxDepth && r.Err? ==>
      r == Err(InvalidName(FirstRejected(u, Split(path, '/')).value))
  {
    if IsBlank(path) then Ok("")
    else
      var parts := Split(path, '/');
      if |parts| > u.maxDepth then Err(InvalidPath(path))
      else
        match FirstRejected(u, parts)
        case Some(part) => Err(InvalidName(part))
        case None => Ok(Combine(parts, u.platform.separator))
  }

  /** On acceptance the result holds the non-empty segments of the input, in
      order: Path.Combine drops the empty ones that "a//b" or "/a" produce. */
  lemma ValidatePathSegments(u: PathUtil, path: string, maxDepth: int)
    requires u.platform.WellFormed()
    requires !IsBlank(path) && ValidatePath(u, path, maxDepth).Ok?
    ensures var v := ValidatePath(u, path, maxDepth).value;
      var kept := NonEmpty(Split(path, '/'));
      (kept == [] ==> v == "") && (kept != [] ==> Split(v, u.platform.separator) == kept)
  {
    var parts := Split(path, '/');
    var sep := u.platform.separator;
    forall i | 0 <= i < |parts| ensures sep !in parts[i] {
      assert ValidateName(u, parts[i]).Ok?;
      assert sep != '/' ==> sep in u.platform.InvalidChars();
    }
    CombineSegments(parts, sep);
  }

  /** "." and ".." are always reserved, and so is every name given to the
      constructor: ValidateName rejects each of them. */
  lemma ReservedNamesRejected(platform: Platform, names: seq<string>, maxDepth: uint32, name: string)
    requires name == "." || name == ".." || name in names
    ensures ValidateName(Default(platform), name) == Err(InvalidName(name)) || name in names
    ensures ValidateName(WithReserved(platform, names, maxDepth), name) == Err(InvalidName(name))
  {
  }

  /** A path with a reserved segment is rejected, whatever its other segments. */
  lemma ReservedSegmentRejected(u: PathUtil, path: string, maxDepth: int, k: int)
    requires !IsBlank(path) && 0 <= k < |Split(path, '/')| && Split(path, '/')[k] in u.reservedNames
    ensures ValidatePath(u, path, maxDepth).Err?
  {
    assert ValidateName(u, Split(path, '/')[k]).Err?;
  }

  /** The maxDepth argument of ValidatePath changes nothing. */
  lemma MaxDepthArgumentIgnored(u: PathUtil, path: string, a: int, b: int)
    ensures ValidatePath(u, path, a) == ValidatePath(u, path, b)
  {
  }

  /** ValidateName accepts a blank name, which the store's own check rejects. */
  lemma BlankNameAccepted()
    ensures ValidateName(Default(Unix), " ") == Ok(" ")
  {
    assert !ContainsAny(" ", Unix.InvalidChars());
  }

  /** PathUtil.ValidatePath is not idempotent: " /" is accepted as " ", which is
      blank and so validates to the root. */
  lemma ValidatePathNotIdempotent()
    ensures ValidatePath(Default(Unix), " /", 0) == Ok(" ")
    ensures ValidatePath(Default(Unix), " ", 0) == Ok("")
  {
    var u := Default(Unix);
    assert !IsBlank(" /") by { assert " /"[1] !in WhiteSpace; }
    assert " /"[1..] == "/" && "/"[1..] == "";
    assert Split("/", '/') == [""] + Split("", '/') == ["", ""];
    assert Split(" /", '/') == [[' '] + ""] + [""];
    assert [' '] + "" == " ";
    assert ValidateName(u, " ").Ok? by { assert !ContainsAny(" ", Unix.InvalidChars()); }
    assert ValidateName(u, "").Ok?;
    assert NonEmpty([" ", ""]) == [" "];
  }
}
