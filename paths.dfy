/** The parts of System.IO.Path the store relies on, for a given platform. */
module Paths {
  import opened Common
  import opened Strings

  /** What Path reports about the platform it runs on. */
  datatype Platform = Platform(
    invalidPathChars: set<char>,      // Path.GetInvalidPathChars()
    invalidFileNameChars: set<char>,  // Path.GetInvalidFileNameChars()
    separator: char,                  // Path.DirectorySeparatorChar
    directorySeparators: set<char>)   // the characters Path treats as separators
  {
    /** GetInvalidPathChars() and GetInvalidFileNameChars() together: the set
        both validators search with IndexOfAny. */
    function InvalidChars(): set<char> {
      invalidPathChars + invalidFileNameChars
    }

    /** A segment that passed validation cannot contain the separator, and a path
        joined with the separator splits back on '/' into its segments. Both real
        platforms below satisfy this. */
    predicate WellFormed() {
      separator in directorySeparators &&
      (separator == '/' || (separator in invalidFileNameChars && '/' in invalidFileNameChars))
    }
  }

  const ControlChars: set<char> := set i | 0 <= i < 32 :: i as char

  /** .NET on Linux and macOS. */
  const Unix: Platform := Platform({'\0'}, {'\0', '/'}, '/', {'/'})

  /** .NET on Windows. */
  const Windows: Platform := Platform(
    {'|'} + ControlChars,
    {'"', '<', '>', '|', ':', '*', '?', '\\', '/'} + ControlChars,
    '\\',
    {'\\', '/'})

  /** The segments that are not empty, in order. */
  function NonEmpty(parts: seq<string>): (r: seq<string>)
  {
    if parts == [] then []
    else if parts[0] == "" then NonEmpty(parts[1..])
    else [parts[0]] + NonEmpty(parts[1..])
  }

  /** Path.Combine(parts) for segments that hold no separator and are not rooted:
      empty segments are skipped and the rest joined with the separator. */
  function Combine(parts: seq<string>, sep: char): string
  {
    Join(NonEmpty(parts), sep)
  }

  lemma {:induction false} NonEmptyOfNonEmpty(parts: seq<string>)
    requires forall i :: 0 <= i < |parts| ==> parts[i] != ""
    ensures NonEmpty(parts) == parts
  {
    if parts != [] {
      NonEmptyOfNonEmpty(parts[1..]);
      assert parts == [parts[0]] + parts[1..];
    }
  }

  lemma {:induction false} NonEmptyElements(parts: seq<string>)
    ensures forall s :: s in NonEmpty(parts) <==> s in parts && s != ""
  {
    if parts != [] {
      NonEmptyElements(parts[1..]);
      assert forall s :: s in parts <==> s == parts[0] || s in parts[1..];
    }
  }

  /** Combine keeps exactly the non-empty segments: splitting its result on the
      separator gives them back, and it is "" when there are none. */
  lemma CombineSegments(parts: seq<string>, sep: char)
    requires forall i :: 0 <= i < |parts| ==> sep !in parts[i]
    ensures NonEmpty(parts) == [] ==> Combine(parts, sep) == ""
    ensures NonEmpty(parts) != [] ==> Split(Combine(parts, sep), sep) == NonEmpty(parts)
  {
    NonEmptyElements(parts);
    var kept := NonEmpty(parts);
    if kept != [] {
      forall i | 0 <= i < |kept| ensures sep !in kept[i] {
        assert kept[i] in kept;
      }
      SplitJoin(kept, sep);
    }
  }

  /** How the filesystem reads a relative path string below the root, for strings
      made by the validators (which hold no other separator). */
  function Resolve(v: string, sep: char): Path {
    if v == "" then [] else Split(v, sep)
  }

  /** Path.GetExtension: scanning back from index i, the text from the last '.'
      that comes after the last directory separator, or "" when that '.' ends
      the path or there is none. */
  function ExtensionScan(path: string, i: nat, seps: set<char>): string
    requires i <= |path|
    decreases i
  {
    if i == 0 then ""
    else if path[i - 1] == '.' then (if i != |path| then path[i - 1..] else "")
    else if path[i - 1] in seps then ""
    else ExtensionScan(path, i - 1, seps)
  }

  function GetExtension(path: string, seps: set<char>): string {
    ExtensionScan(path, |path|, seps)
  }

  /** The extension of path starts with the '.' at index k. */
  ghost predicate ExtensionAt(path: string, k: int, seps: set<char>) {
    0 <= k < |path| - 1 && path[k] == '.' &&
    forall j :: k < j < |path| ==> path[j] != '.' && path[j] !in seps
  }

  lemma {:induction false} ExtensionScanSpec(path: string, i: nat, seps: set<char>)
    requires i <= |path|
    requires forall j :: i <= j < |path| ==> path[j] != '.' && path[j] !in seps
    ensures ExtensionScan(path, i, seps) != "" <==> exists k :: ExtensionAt(path, k, seps)
    ensures forall k :: ExtensionAt(path, k, seps) ==> ExtensionScan(path, i, seps) == path[k..]
    decreases i
  {
    if i == 0 {
      assert forall k :: !ExtensionAt(path, k, seps);
    } else if path[i - 1] == '.' {
      if i != |path| {
        assert ExtensionAt(path, i - 1, seps);
        forall k | ExtensionAt(path, k, seps) ensures k == i - 1 {}
      } else {
        forall k | ExtensionAt(path, k, seps) ensures false {}
      }
    } else if path[i - 1] in seps {
      forall k | ExtensionAt(path, k, seps) ensures false {}
    } else {
      ExtensionScanSpec(path, i - 1, seps);
    }
  }

  /** GetExtension is not empty exactly when some '.' before the last character
      has neither a '.' nor a separator after it, and then it is the text from
      that '.' on. */
  lemma ExtensionSpec(path: string, seps: set<char>)
    ensures GetExtension(path, seps) != "" <==> exists k :: ExtensionAt(path, k, seps)
    ensures forall k :: ExtensionAt(path, k, seps) ==> GetExtension(path, seps) == path[k..]
  {
    ExtensionScanSpec(path, |path|, seps);
  }
}
