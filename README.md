# VisualArt media store, modelled in Dafny

VisualArt.MediaApi is an HTTP service that stores uploaded files below a
storage root. Its core is `FileStorageService`, which does three things:

- It validates a caller-supplied folder path and file name.
- It refuses uploads that are over size or have a blocked extension.
- It saves a file under a rollback guard (`FileTransaction`). The file is copied
  to a staging file, moved over the destination, and its SHA-1 hash is written
  to a sidecar file in a `.hashes` folder beside it. An upload whose sidecar
  already holds the same hash is not written again.

`MediaApiController` pages folder listings and loops over the files of a
multipart upload. `PathUtil` is a second path validator with its own reserved
names and depth limit. `SafeFileName.MakeSafe` replaces invalid file-name
characters.

The model has one module per concern:

- `Common`, `Dto`: paths as segment sequences, errors, results, `FileMetadata`.
- `Strings`, `Paths`: the parts of `System.String` and `System.IO.Path` the
  code relies on (blank tests, `Split`, `Join`, `Path.Combine`,
  `Path.GetExtension`) and the invalid-character sets of .NET on Linux/macOS
  (`Unix`) and on Windows (`Windows`).
- `SafeFileName`, `PathUtilities`: `SafeFilename.cs` and `PathUtil.cs`, as
  functions.
- `ContentHash`: the text `CalculateHash` makes of a SHA-1 digest.
- `FileSystems`: the filesystem below the storage root, as a class whose
  methods are the `File`/`Directory` calls the store makes. Every change to a
  location in the `denied` set fails, which stands for permission errors, a
  full disk and the like.
- `FileTransactions`: the `FileTransaction` class.
- `Storage`: `FileStorageService`. The validators are functions; the store is a
  class. `SaveFile` is proved against `SaveOutcome`, a predicate that gives, for
  every path through the save, the files and directories afterwards in terms of
  those before, and the result. `ListFiles` changes nothing and is proved
  against `IsListing`, which describes the listing of a folder.
- `MediaApi`: the controller, with `Skip`/`Take` paging and the upload loop.

## Behaviour of the code

The model follows the code. These consequences of the code are easy to miss.

- **Nested folders cannot be used.** `Path.GetInvalidFileNameChars()` contains
  '/' on Linux, macOS and Windows. `ValidatePath` searches the whole path for
  those characters (`FileStorageService.cs:127-130`) before it splits on '/'
  (`FileStorageService.cs:131`). So every non-blank path with a '/' is refused
  (`Storage.NestedPathRejected`). Only single-segment paths reach the depth
  limit (`Storage.SingleSegmentOnly`). The integration tests that save and list
  three levels deep (`TestMediaStoreApi.cs:186-219`) therefore get
  `InvalidPath`. The 20-level test is refused by the character check, not by
  the depth check.
- **Which characters are refused depends on the platform.** The tests at
  `TestMediaStoreApi.cs:55-69` list folders named "<", ">", "|" and ":" and
  expect them to be refused. `ListFiles` validates the path, and the check at
  `FileStorageService.cs:127` uses the platform's invalid characters,
  so that holds on Windows only (`Storage.AngleBracketPerPlatform`).
- **A failed write deletes the previous file.** The transaction tracks the
  destination and the sidecar from the start (`FileStorageService.cs:92`). If
  any step fails, `Dispose` deletes the staging file, a file stored earlier
  under the same name, and its sidecar (`FileTransaction.cs:25-38`). The
  rollback case of `SaveOutcome` states exactly this.
- **Directories are created before the name is checked.** `EnsureDirectories`
  runs at `FileStorageService.cs:75` and `ValidateName` at line 77. A save with
  an invalid name leaves the folder and its `.hashes` folder behind.
- **"." and ".." pass the name check.** `ValidateName` refuses only ".hashes",
  blank names and invalid characters (`FileStorageService.cs:145-156`), so "."
  and ".." are accepted (`Storage.DotNamesAccepted`). The destination and the
  sidecar then resolve to directories. The staging file is written. The move
  onto the destination fails (`FileStorageService.cs:99`), and the rollback
  deletes the staging file. The save ends in an IO error and stores nothing
  under such a name (`Storage.SaveDotName`).
- **Blocked extensions are not normalised.** The lower-cased extension, with
  its dot, is looked up as is (`FileStorageService.cs:116`). An entry such as
  "exe" or ".EXE" never blocks anything (`Storage.UnnormalisedEntryNeverMatches`).
  An empty entry blocks every name that has no extension.
- **The deduplication check reads only the sidecar.** When the sidecar matches
  (`FileStorageService.cs:83`), the answer is the metadata of whatever is at the
  destination (line 112), or an error when nothing is there. Either way nothing
  is written.
- **Paging casts `uint` to `int`.** `MediaApiController.cs:23` casts start and
  count with `(int)`. A start of 2^31 or more becomes negative, so the page
  starts at the first entry. A count that large gives an empty page
  (`MediaApi.PageWraps`).
- **`PathUtil` is laxer than the store's own validation.** It has no
  whole-path character check and no blank test (`PathUtil.cs:18-47`). It
  ignores its `maxDepth` argument (`PathUtil.cs:18-25`). It is not idempotent:
  " /" becomes " ", which then becomes "".
- **The `-1` marker never reaches the controller's output.** The controller
  skips files over the limit before it calls the store
  (`MediaApiController.cs:31-35`), so the store's oversize answer does not
  occur during uploads.

## Model

| member | source | states |
|---|---|---|
| SafeFileName.MakeSafe | VisualArt.Media/Util/SafeFilename.cs:12-15 | every character of the result is a character of the name that is not invalid, or a character of the replacement |
| SafeFileName.MakeSafeAppend | VisualArt.Media/Util/SafeFilename.cs:12-15 | the replacement works character by character: making a concatenation safe is concatenating the two safe halves, so order is kept |
| SafeFileName.MakeSafePointwise | VisualArt.Media/Util/SafeFilename.cs:9-15 | with a one-character replacement the length is kept, every invalid character becomes the replacement and every other character stays |
| SafeFileName.MakeSafeUnchanged | VisualArt.Media/Util/SafeFilename.cs:12-15 | a name without invalid characters comes back unchanged |
| SafeFileName.MakeSafeClean | VisualArt.Media/Util/SafeFilename.cs:12-15 | when the replacement has no invalid character, neither has the result |
| SafeFileName.MakeSafeIdempotent | VisualArt.Media/Util/SafeFilename.cs:12-15 | making a name safe twice gives the same as once |
| Paths.CombineSegments | VisualArt.Media/Services/FileStorageService.cs:143 | Path.Combine of separator-free segments keeps exactly the non-empty ones: its result splits back into them, or is "" when there are none |
| Paths.ExtensionSpec | VisualArt.Media/Services/FileStorageService.cs:73 | Path.GetExtension is non-empty exactly when a '.' before the last character has no '.' or separator after it, and is then the text from that '.' on |
| PathUtilities.ValidateName | VisualArt.Media/Util/PathUtil.cs:36-47 | accepts exactly the names that are not reserved and hold no invalid path or file-name character; a refusal names the input; an accepted name is returned unchanged |
| PathUtilities.FirstRejected | VisualArt.Media/Util/PathUtil.cs:29-32 | the foreach finds no segment to refuse exactly when ValidateName accepts every segment; otherwise it stops at the first refused one |
| PathUtilities.ValidatePath | VisualArt.Media/Util/PathUtil.cs:18-34 | blank is the root; more segments than the constructor's depth is InvalidPath; otherwise accepted exactly when every segment passes ValidateName, and a refusal is InvalidName of the first refused segment, as the foreach throws |
| PathUtilities.ValidatePathSegments | VisualArt.Media/Util/PathUtil.cs:24-33 | an accepted path splits back into the non-empty '/'-separated segments of the input, in order |
| PathUtilities.ReservedNamesRejected | VisualArt.Media/Util/PathUtil.cs:6-17 | "." and ".." are reserved by both constructors, and the names given to the second one are reserved as well |
| PathUtilities.ReservedSegmentRejected | VisualArt.Media/Util/PathUtil.cs:29-32 | a path with a reserved segment anywhere is refused |
| PathUtilities.MaxDepthArgumentIgnored | VisualArt.Media/Util/PathUtil.cs:18-25 | the maxDepth argument does not change the result |
| PathUtilities.BlankNameAccepted | VisualArt.Media/Util/PathUtil.cs:36-47 | a blank name passes, unlike in the store's own check |
| PathUtilities.ValidatePathNotIdempotent | VisualArt.Media/Util/PathUtil.cs:18-34 | " /" is accepted as " ", and " " validates to the root |
| ContentHash.FormatHashIsLowerHex | VisualArt.Media/Services/FileStorageService.cs:176 | BitConverter.ToString, removing the dashes and lower-casing give two lower-case hex digits per byte |
| ContentHash.ParseLowerHex | VisualArt.Media/Services/FileStorageService.cs:176 | the hex text parses back to the digest bytes |
| ContentHash.FormatHashFaithful | VisualArt.Media/Services/FileStorageService.cs:170-178 | the hash text is 40 lower-case hex digits, and two texts are equal exactly when the digests are |
| FileSystems.AsciiRoundTrip | VisualArt.Media/Services/FileStorageService.cs:58-61 | ASCII text written with WriteAllText reads back unchanged |
| FileSystems.FileSystem.CreateDirectory | VisualArt.Media/Services/FileStorageService.cs:30-44 | Directory.CreateDirectory succeeds exactly when every missing ancestor can be created, and then adds exactly the ancestors; on failure it has created exactly the ancestors above the first one that is a file or denied |
| FileSystems.FileSystem.WriteAllBytes | VisualArt.Media/Services/FileStorageService.cs:94-97 | creating and filling the staging file succeeds exactly when its folder exists and it is neither a directory, a "." or ".." name, nor denied; it then holds the content |
| FileSystems.FileSystem.Move | VisualArt.Media/Services/FileStorageService.cs:99 | File.Move with overwrite succeeds exactly when the source is a file and the destination can be written (not a directory, "." or ".." name, or denied); it then replaces the destination with the source's content and removes the source; on failure nothing changes |
| FileSystems.FileSystem.WriteAllText | VisualArt.Media/Services/FileStorageService.cs:100 | the sidecar then holds the bytes of the hash text |
| FileSystems.FileSystem.Delete | VisualArt.Media/Util/FileTransaction.cs:31 | File.Delete removes the file; a missing file is no error; a directory, a "." or ".." name or a denied location is |
| FileTransactions.FileTransaction.constructor | VisualArt.Media/Util/FileTransaction.cs:6-9 | the pending set is the set of the given locations |
| FileTransactions.FileTransaction.StartTracking | VisualArt.Media/Util/FileTransaction.cs:10-13 | adds one location to the pending set |
| FileTransactions.FileTransaction.Commit | VisualArt.Media/Util/FileTransaction.cs:14-24 | with no location it empties the pending set; with one it removes only that location |
| FileTransactions.FileTransaction.Dispose | VisualArt.Media/Util/FileTransaction.cs:25-38 | never fails; afterwards exactly the pending locations that can be deleted are gone, and every other file and every directory is kept |
| Storage.ValidatePath | VisualArt.Media/Services/FileStorageService.cs:121-144 | blank is the root; otherwise accepted exactly when there is no invalid character, at most MaxFolderDepth segments and no blank, ".", ".." or ".hashes" segment; a refusal is InvalidPath of the input |
| Storage.ValidatePathReturnsInput | VisualArt.Media/Services/FileStorageService.cs:131-143 | an accepted non-blank path is returned unchanged |
| Storage.ValidatePathIdempotent | VisualArt.Media/Services/FileStorageService.cs:121-144 | validating an accepted path again gives the same result |
| Storage.AcceptedFolderIsSafe | VisualArt.Media/Services/FileStorageService.cs:121-144 | the folder an accepted path names is a stored path: segments are the input's, none blank, ".", "..", ".hashes" or holding an invalid character, within the depth limit |
| Storage.SingleSegmentOnly | VisualArt.Media/Services/FileStorageService.cs:127-135 | where '/' is an invalid character, a path that passes the character check is a single segment |
| Storage.NestedPathRejected | VisualArt.Media/Services/FileStorageService.cs:127-130 | on Linux, macOS and Windows every path containing '/' is InvalidPath |
| Storage.AngleBracketPerPlatform | VisualArt.Media.IntegrationTest/TestMediaStoreApi.cs:55-69 | "<" is refused on Windows and accepted on Linux and macOS |
| Storage.TraversalRejected | VisualArt.Media/Services/FileStorageService.cs:132-142 | a ".", ".." or ".hashes" segment, or too many segments, always gives InvalidPath |
| Storage.ValidateName | VisualArt.Media/Services/FileStorageService.cs:145-156 | accepts exactly the names that are not ".hashes", not blank and free of invalid characters; a refusal is InvalidName of the input; an accepted name is returned unchanged by MakeSafe |
| Storage.EnsureValidFileType | VisualArt.Media/Services/FileStorageService.cs:114-120 | refuses with InvalidFileType exactly when the lower-cased extension is in BlockedExtensions |
| Storage.UpperCaseExtensionBlocked | VisualArt.Media/Services/FileStorageService.cs:114-120 | a blocked ".exe" refuses "virus.EXE" |
| Storage.UnnormalisedEntryNeverMatches | VisualArt.Media/Services/FileStorageService.cs:116 | a non-empty entry without a leading '.' or with an upper-case letter never matches any file name |
| Storage.HashIsAscii | VisualArt.Media/Services/FileStorageService.cs:100 | the hash text is ASCII, one byte per character in the sidecar |
| Storage.SidecarMatch | VisualArt.Media/Services/FileStorageService.cs:58-61 | a sidecar written for earlier content matches new content exactly when their SHA-1 digests are equal |
| Storage.FileStorageService.FileExistsInStore | VisualArt.Media/Services/FileStorageService.cs:58-61 | true exactly when the sidecar exists and its bytes, read one character each, are the hash text |
| Storage.Screen | VisualArt.Media/Services/FileStorageService.cs:68-75 | oversize content gets the -1 marker first; otherwise a blocked extension is refused with InvalidFileType of the extension, even when the path is also invalid; then an invalid path with InvalidPath of the path; the upload is admitted exactly when all three checks pass, into the folder named by the validated path |
| Storage.DefaultOptionsBoundaries | VisualArt.Media/Services/FileStorageService.cs:186-194 | with the default options a 500 MiB upload is admitted exactly when its path is valid and 501 MiB gets the oversize marker, no extension is blocked, and a path of more than 16 segments is refused |
| Storage.FileStorageService.constructor | VisualArt.Media/Services/FileStorageService.cs:20-29 | creates the root's .hashes folder and nothing else |
| Storage.FileStorageService.EnsureDirectories | VisualArt.Media/Services/FileStorageService.cs:30-44 | succeeds exactly when the folder and its .hashes folder can be created; creates only their missing ancestors; on failure has created exactly the ancestors above the first blocked one; changes no file |
| Storage.FileStorageService.WriteSteps | VisualArt.Media/Services/FileStorageService.cs:94-100 | staging, move and sidecar write all succeed exactly when none of the three locations is a directory or denied; partial effects stay within the locations the transaction cleans up |
| Storage.FileStorageService.WriteNew | VisualArt.Media/Services/FileStorageService.cs:89-111 | on success the destination holds the content, the sidecar the hash and the staging file is gone; on failure each of the three locations is deleted unless denied, and nothing else changes |
| Storage.FileStorageService.CreateMetadata | VisualArt.Media/Services/FileStorageService.cs:158-165 | metadata exactly when a file is at the location, with its name, its length and not a folder; otherwise an IO error naming the location |
| Storage.FileStorageService.FileMetadataOf | VisualArt.Media/Services/FileStorageService.cs:162-165 | the entry of a file: its last segment as name, its length, not a folder, and its timestamps |
| Storage.FileStorageService.DirectoryMetadata | VisualArt.Media/Services/FileStorageService.cs:166-169 | the entry of a folder: its last segment as name, length 0, a folder, and its timestamps |
| Storage.FileStorageService.SaveFile | VisualArt.Media/Services/FileStorageService.cs:63-113 | relates the files and directories before and after, and the result, on every path: an oversize, blocked or invalid-path upload changes nothing; a blocked directory gives an IO error with exactly the ancestors above it created; an invalid name gives InvalidName after the directories exist; a matching sidecar writes nothing and returns the destination's metadata; otherwise either the destination holds the content and the sidecar its hash, or all three locations are deleted unless denied and the result is an IO error |
| Storage.SaveTwice | VisualArt.Media/Services/FileStorageService.cs:83-86 | after a save that returned metadata, saving the same content under the same name changes no file and returns the same metadata |
| Storage.DotNamesAccepted | VisualArt.Media/Services/FileStorageService.cs:145-156 | "." and ".." pass the name check unchanged on Linux, macOS and Windows |
| Storage.FileStorageService.DotNameOutcome | VisualArt.Media/Services/FileStorageService.cs:77-111 | for a "." or ".." name, when no file has such a name, the only answer with metadata is the oversize marker, and once the directories can be created and the name passes, the result is an IO error and only the staging location is deleted |
| Storage.SaveDotName | VisualArt.Media/Services/FileStorageService.cs:77-111 | saving under "." or ".." never stores a file of that name; when the folder and its .hashes folder can be created and the name passes, it is an IO error and the only file removed is the staging location |
| Storage.FileStorageService.ListFolders | VisualArt.Media/Services/FileStorageService.cs:53-54 | one folder entry, with length 0, for each subfolder other than .hashes, each exactly once |
| Storage.FileStorageService.ListFilesIn | VisualArt.Media/Services/FileStorageService.cs:55 | one entry per file of the folder, exactly once, with its name and length |
| Storage.FileStorageService.ListFiles | VisualArt.Media/Services/FileStorageService.cs:45-56 | an invalid path is InvalidPath; a missing folder lists nothing; otherwise its folders come first, then its files |
| Storage.FileStorageService.SavedIsStored | VisualArt.Media/Services/FileStorageService.cs:63-113 | a save that answered with metadata other than the oversize marker was admitted, left a file at the destination in the folder the path names, and answered with that file's metadata |
| Storage.FileStorageService.ListedFile | VisualArt.Media/Services/FileStorageService.cs:53-55 | every file of a listed folder has its entry among the listed files |
| Storage.SaveThenList | VisualArt.Media/Services/FileStorageService.cs:45-113 | after a save that returned metadata other than the oversize marker, listing the same path succeeds and holds that entry, under the uploaded name, among the files |
| MediaApi.ToInt32 | VisualArt.Media/Controllers/MediaApiController.cs:23 | the cast agrees with the uint modulo 2^32, lies in the int range, and is negative exactly from 2^31 on |
| MediaApi.Skip | VisualArt.Media/Controllers/MediaApiController.cs:23 | Enumerable.Skip drops the first n entries, none for n of zero or less, all when n exceeds the length |
| MediaApi.Take | VisualArt.Media/Controllers/MediaApiController.cs:23 | Enumerable.Take keeps the first n entries, none for n of zero or less, all when n exceeds the length |
| MediaApi.Page | VisualArt.Media/Controllers/MediaApiController.cs:23 | below 2^31 a page is the slice of at most count entries from start on |
| MediaApi.PagesConcatenate | VisualArt.Media/Controllers/MediaApiController.cs:20-24 | consecutive pages put together are the page of their combined length |
| MediaApi.PageWraps | VisualArt.Media/Controllers/MediaApiController.cs:23 | a start from 2^31 on pages from the first entry; a count from 2^31 on gives nothing |
| MediaApi.WithinSizeSpec | VisualArt.Media/Controllers/MediaApiController.cs:29-35 | the files handed to the store are exactly those within the limit, in increasing order |
| MediaApi.WithinSizePrefix | VisualArt.Media/Controllers/MediaApiController.cs:29-35 | the files handed over after the first n are the first of those handed over overall |
| MediaApi.OneOversizeAmongSix | VisualArt.Media.IntegrationTest/TestMediaStoreApi.cs:300-339 | one 501 MiB file and five within the limit: the five are handed to the store, in order |
| MediaApi.MediaApiController.constructor | VisualArt.Media/Controllers/MediaApiController.cs:14-18 | keeps the store |
| MediaApi.MediaApiController.ListFiles | VisualArt.Media/Controllers/MediaApiController.cs:20-24 | the result is the page of the store's listing of the folder, or the store's InvalidPath |
| MediaApi.MediaApiController.SaveInTurn | VisualArt.Media/Controllers/MediaApiController.cs:36-38 | one save of the upload loop, related to the filesystem before and after it by SaveOutcome |
| MediaApi.MediaApiController.UploadFiles | VisualArt.Media/Controllers/MediaApiController.cs:26-46 | the files handed to the store are those within the limit, in order, up to and including the first one whose save fails; each save relates the filesystem state before and after it by SaveOutcome; the yielded entries are exactly the Ok results of those saves, none with length -1; a failure is the error of the last save |

## Left out

- Async code and concurrency: `await`, the async enumerable and concurrent uploads to the same location. Each operation runs to completion alone.
- Logging, null-argument checks (Dafny values are never null) and the `ILogger`/`IOptions` plumbing.
- `WebUtility.UrlDecode`: the controller receives the path already decoded.
- The storage root: `RootPath`, `ExpandEnvironmentVariables` and combining with the root. The model's filesystem is the storage root.
- `DropStorage`, `FileSystemMonitor`, the `IFileStorage` interface, `FileMetadata.Create`, HTTP routing and middleware. They are not part of this model.
- SHA-1 itself is a function parameter of the store, `Guid.NewGuid()` is a parameter of each save, and timestamps are fixed functions of the location.
- Reads never fail: `File.Exists`, `ReadAllText`, `GetDirectories`, `GetFiles` and `FileInfo` fail only on a missing file. Faults are limited to changes at denied locations, and a failed copy writes nothing rather than part of the content.
- File and directory names are compared exactly. Windows and macOS case folding, Windows' trimming of trailing dots and spaces, and path-length limits are not modelled.
- `File.ReadAllText` byte-order-mark detection: sidecars hold ASCII hash text, read one character per byte.
- Storage.EnsureValidFileType: lower-cases only the ASCII letters A to Z, while `string.ToLower()` also lowers other letters by the current culture.
- SafeFileName.MakeSafe: treats the replacement as literal text, while `Regex.Replace` would expand `$` substitutions in it. The code only passes "_".
- Storage.FileStorageService.constructor: requires that the root's `.hashes` folder can be created; otherwise the source's constructor throws and no store exists.
- The order of the folders among themselves, and of the files among themselves, is left open in `ListFiles`, as `GetDirectories` and `GetFiles` do not define one.
- Integer widths: file sizes and `MaxFileSize` are unbounded integers, since `long` cannot overflow at these sizes. The `uint` to `int` casts of paging are modelled.
- Paths are not normalised: a "." or ".." segment inside a folder path would be taken as a plain name. The store never builds such a folder, since `ValidatePath` refuses those segments (`Storage.AcceptedFolderIsSafe`); only a last segment of "." or ".." is resolved, as a directory.
- MediaApi.Page: its contract gives the slice only for start and count below 2^31; `MediaApi.PageWraps` states what larger values do.
- Storage.SaveThenList: does not promise that the listed length is the uploaded one. When the sidecar already matches, the save answers with the file already at the destination, whose length may differ; when the save writes, `SaveOutcome` gives the uploaded length.
