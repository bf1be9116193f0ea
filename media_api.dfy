/** MediaApiController: paging of a folder listing, and the upload loop that
    hands each file of a multipart request to the store. */
module MediaApi {
  import opened Common
  import opened Dto
  import opened Paths
  import opened FileSystems
  import opened Storage

  /** IFormFile: the client's file name and the uploaded bytes. */
  datatype FormFile = FormFile(fileName: string, content: Bytes)

  /** The (int) cast of a uint: values from 2^31 on wrap to negative numbers. */
  function ToInt32(n: uint32): (r: int)
    ensures -0x8000_0000 <= r < 0x8000_0000
    ensures r == n as int || r == n as int - 0x1_0000_0000
    ensures r < 0 <==> n >= 0x8000_0000
  {
    if n < 0x8000_0000 then n as int else n as int - 0x1_0000_0000
  }

  function Min(a: int, b: int): int {
    if a <= b then a else b
  }

  /** n limited to 0 .. hi. */
  function Clamp(n: int, hi: nat): nat {
    if n <= 0 then 0 else Min(n, hi)
  }

  /** Enumerable.Skip: a count of zero or less skips nothing. */
  function Skip<T>(s: seq<T>, n: int): (r: seq<T>)
    ensures r == s[Clamp(n, |s|)..]
  {
    if n <= 0 then s else if n >= |s| then [] else s[n..]
  }

  /** Enumerable.Take: a count of zero or less takes nothing. */
  function Take<T>(s: seq<T>, n: int): (r: seq<T>)
    ensures r == s[..Clamp(n, |s|)]
  {
    if n <= 0 then [] else if n >= |s| then s else s[..n]
  }

  /** The page ListFiles returns: Skip((int)start).Take((int)count). Below 2^31
      it is the run of at most count entries from position start on. */
  function Page<T>(s: seq<T>, start: uint32, count: uint32): (r: seq<T>)
    ensures start < 0x8000_0000 && count < 0x8000_0000 ==>
      r == s[Min(start as int, |s|)..Min(start as int + count as int, |s|)]
  {
    Take(Skip(s, ToInt32(start)), ToInt32(count))
  }

  /** Consecutive pages fit together: the page of b entries at start followed by
      the page of c entries after it is the page of b + c entries at start. */
  lemma PagesConcatenate<T>(s: seq<T>, start: uint32, b: uint32, c: uint32)
    requires start as int + b as int + c as int < 0x8000_0000
    ensures Page(s, start, b) + Page(s, (start as int + b as int) as uint32, c) ==
      Page(s, start, (b as int + c as int) as uint32)
  {
    var mid, both := (start as int + b as int) as uint32, (b as int + c as int) as uint32;
    var i, j, k := Min(start as int, |s|), Min(mid as int, |s|), Min(mid as int + c as int, |s|);
    assert s[i..j] + s[j..k] == s[i..k];
  }

  /** A start of 2^31 or more wraps to a negative number and skips nothing, so
      the page starts at the first entry; a count of 2^31 or more gives an empty
      page. */
  lemma PageWraps<T>(s: seq<T>, start: uint32, count: uint32)
    ensures start >= 0x8000_0000 ==> Page(s, start, count) == Take(s, ToInt32(count))
    ensures count >= 0x8000_0000 ==> Page(s, start, count) == []
  {
  }

  /** The positions of the files the upload loop hands to the store, in order:
      those whose length is within the limit. */
  function WithinSize(files: seq<FormFile>, max: int): seq<nat>
    decreases |files|
  {
    if files == [] then []
    else
      var earlier := WithinSize(files[..|files| - 1], max);
      if |files[|files| - 1].content| <= max then earlier + [|files| - 1] else earlier
  }

  /** WithinSize lists, in increasing order, exactly the positions of the files
      within the limit. */
  lemma {:induction false} WithinSizeSpec(files: seq<FormFile>, max: int)
    ensures forall k :: 0 <= k < |WithinSize(files, max)| ==>
      WithinSize(files, max)[k] < |files| && |files[WithinSize(files, max)[k]].content| <= max
    ensures forall k, l :: 0 <= k < l < |WithinSize(files, max)| ==> WithinSize(files, max)[k] < WithinSize(files, max)[l]
    ensures forall i :: 0 <= i < |files| && |files[i].content| <= max ==> i in WithinSize(files, max)
    decreases |files|
  {
    if files != [] {
      var front := files[..|files| - 1];
      WithinSizeSpec(front, max);
      forall i | 0 <= i < |front| ensures front[i] == files[i] {}
    }
  }

  /** The positions the store has seen after the first n files are the first
      positions of the whole list. */
  lemma {:induction false} WithinSizePrefix(files: seq<FormFile>, n: nat, max: int)
    requires n <= |files|
    ensures WithinSize(files[..n], max) <= WithinSize(files, max)
    decreases |files| - n
  {
    if n < |files| {
      WithinSizePrefix(files, n + 1, max);
      assert files[..n + 1][..n] == files[..n];
    } else {
      assert files[..n] == files;
    }
  }

  /** The integration test: a 501 MiB file followed by five files within the
      default limit; the store sees the five, in their order. */
  lemma OneOversizeAmongSix(files: seq<FormFile>)
    requires |files| == 6 && |files[0].content| == 501 * 1024 * 1024
    requires forall i :: 1 <= i < 6 ==> |files[i].content| <= DefaultOptions.maxFileSize
    ensures WithinSize(files, DefaultOptions.maxFileSize) == [1, 2, 3, 4, 5]
  {
    var max := DefaultOptions.maxFileSize;
    assert WithinSize(files[..1], max) == [] by { assert files[..1][..0] == []; }
    assert WithinSize(files[..2], max) == [1] by { assert files[..2][..1] == files[..1]; }
    assert WithinSize(files[..3], max) == [1, 2] by { assert files[..3][..2] == files[..2]; }
    assert WithinSize(files[..4], max) == [1, 2, 3] by { assert files[..4][..3] == files[..3]; }
    assert WithinSize(files[..5], max) == [1, 2, 3, 4] by { assert files[..5][..4] == files[..4]; }
    assert files[..6] == files;
    assert files[..6][..5] == files[..5];
  }

  class MediaApiController {
    const storage: FileStorageService

    constructor (storage: FileStorageService)
      ensures this.storage == storage
    {
      this.storage := storage;
    }

    /** MediaApiController.ListFiles: the store's listing of the folder, paged.
        The path arrives already URL-decoded. */
    method ListFiles(path: string, start: uint32, count: uint32)
      returns (r: Result<seq<FileMetadata>>, ghost listing: seq<FileMetadata>, ghost folderCount: nat)
      requires storage.fs.Valid()
      ensures ValidatePath(storage.options, storage.platform, path).Err? ==> r == Err(InvalidPath(path))
      ensures ValidatePath(storage.options, storage.platform, path).Ok? ==>
        var dir := Resolve(ValidatePath(storage.options, storage.platform, path).value, storage.platform.separator);
        r.Ok? && storage.IsListing(dir, listing, folderCount) && r.value == Page(listing, start, count)
    {
      var all;
      all, folderCount := storage.ListFiles(path);
      listing := [];
      if all.Err? {
        return Err(all.error), listing, folderCount;
      }
      listing := all.value;
      r := Ok(Page(all.value, start, count));
    }

    /** The store was handed files[saved[0]], files[saved[1]], ... in turn:
        the k-th save went from trace[k] to trace[k + 1] and answered results[k]. */
    ghost predicate Replayed(path: string, files: seq<FormFile>, guidFor: nat -> string,
                             saved: seq<nat>, results: seq<Result<FileMetadata>>, trace: seq<Disk>)
    {
      |results| == |saved| && |trace| == |saved| + 1 &&
      (forall k :: 0 <= k < |saved| ==> saved[k] < |files|) &&
      forall k {:trigger storage.SaveOutcome(path, files[saved[k]].fileName, files[saved[k]].content, guidFor(saved[k]),
                                             trace[k], trace[k + 1], results[k])} ::
        0 <= k < |saved| ==>
        storage.SaveOutcome(path, files[saved[k]].fileName, files[saved[k]].content, guidFor(saved[k]),
                            trace[k], trace[k + 1], results[k])
    }

    /** One more save, starting where the last one ended, extends the replay. */
    lemma ReplayedStep(path: string, files: seq<FormFile>, guidFor: nat -> string,
                       saved: seq<nat>, results: seq<Result<FileMetadata>>, trace: seq<Disk>,
                       file: FormFile, i: nat, result: Result<FileMetadata>, before: Disk, after: Disk)
      requires Replayed(path, files, guidFor, saved, results, trace)
      requires i < |files| && file == files[i] && before == trace[|saved|]
      requires storage.SaveOutcome(path, file.fileName, file.content, guidFor(i), before, after, result)
      ensures Replayed(path, files, guidFor, saved + [i], results + [result], trace + [after])
    {
      var saved', results', trace' := saved + [i], results + [result], trace + [after];
      forall k | 0 <= k < |saved'|
        ensures storage.SaveOutcome(path, files[saved'[k]].fileName, files[saved'[k]].content, guidFor(saved'[k]),
                                    trace'[k], trace'[k + 1], results'[k])
      {
        if k < |saved| {
          assert saved'[k] == saved[k] && trace'[k] == trace[k] && trace'[k + 1] == trace[k + 1] && results'[k] == results[k];
          assert storage.SaveOutcome(path, files[saved[k]].fileName, files[saved[k]].content, guidFor(saved[k]),
                                     trace[k], trace[k + 1], results[k]);
        }
      }
    }

    /** The await of SaveFileAsync for the i-th file: the store saves it, and
        the replay grows by that save. */
    method SaveInTurn(path: string, files: seq<FormFile>, guidFor: nat -> string, i: nat,
                      ghost saved: seq<nat>, ghost results: seq<Result<FileMetadata>>, ghost trace: seq<Disk>)
      returns (result: Result<FileMetadata>)
      requires storage.fs.Valid()
      requires i < |files|
      requires Replayed(path, files, guidFor, saved, results, trace) && trace[|saved|] == storage.fs.Snapshot()
      modifies storage.fs
      ensures storage.fs.Valid()
      ensures result.Ok? ==> result.value.name == files[i].fileName
      ensures result.Ok? ==> (result.value.length == -1 <==> |files[i].content| > storage.MaxFileSize())
      ensures Replayed(path, files, guidFor, saved + [i], results + [result], trace + [storage.fs.Snapshot()])
    {
      ghost var before := storage.fs.Snapshot();
      var file := files[i];
      result := storage.SaveFile(path, file.fileName, file.content, guidFor(i));
      ReplayedStep(path, files, guidFor, saved, results, trace, file, i, result, before, storage.fs.Snapshot());
    }

    /** MediaApiController.UploadFiles: files over the store's limit are skipped,
        each other file is saved in turn and its metadata yielded unless it is the
        oversize marker. An error from the store ends the stream after the
        entries yielded so far. guidFor(i) is the Guid of the i-th file's staging
        copy. The ghost results are what the store answered, and trace holds the
        filesystem before the first save and after each. */
    method UploadFiles(path: string, files: seq<FormFile>, guidFor: nat -> string)
      returns (yielded: seq<FileMetadata>, failure: Option<Error>,
               ghost saved: seq<nat>, ghost results: seq<Result<FileMetadata>>, ghost trace: seq<Disk>)
      requires storage.fs.Valid()
      modifies storage.fs
      ensures storage.fs.Valid()
      // the store saves files[saved[k]], going from trace[k] to trace[k + 1]
      // with result results[k], and nothing else touches the filesystem
      ensures |results| == |saved| && |trace| == |saved| + 1 && forall k :: 0 <= k < |saved| ==> saved[k] < |files|
      ensures Replayed(path, files, guidFor, saved, results, trace)
      ensures trace[0] == old(storage.fs.Snapshot()) && trace[|saved|] == storage.fs.Snapshot()
      // the store is given the files within the limit, in order, up to the first error
      ensures failure.None? ==> saved == WithinSize(files, storage.MaxFileSize()) && |yielded| == |saved|
      ensures failure.Some? ==>
        saved <= WithinSize(files, storage.MaxFileSize()) && |yielded| == |saved| - 1 &&
        results[|saved| - 1] == Err(failure.value)
      // and what it returned before that is yielded
      ensures forall k :: 0 <= k < |yielded| ==>
        results[k] == Ok(yielded[k]) && yielded[k].length != -1 && yielded[k].name == files[saved[k]].fileName
    {
      var max := storage.MaxFileSize();
      yielded, failure, saved, results, trace := [], None, [], [], [storage.fs.Snapshot()];
      var i := 0;
      while i < |files|
        invariant 0 <= i <= |files|
        invariant storage.fs.Valid()
        invariant saved == WithinSize(files[..i], max)
        invariant |yielded| == |saved| && |results| == |saved| && |trace| == |saved| + 1
        invariant forall k :: 0 <= k < |saved| ==> saved[k] < i
        invariant Replayed(path, files, guidFor, saved, results, trace)
        invariant trace[0] == old(storage.fs.Snapshot()) && trace[|saved|] == storage.fs.Snapshot()
        invariant forall k :: 0 <= k < |yielded| ==>
          results[k] == Ok(yielded[k]) && yielded[k].length != -1 && yielded[k].name == files[saved[k]].fileName
      {
        assert files[..i + 1][..i] == files[..i];
        var file := files[i];
        if |file.content| > max {
          i := i + 1;
          continue;
        }
        var result := SaveInTurn(path, files, guidFor, i, saved, results, trace);
        saved, results, trace := saved + [i], results + [result], trace + [storage.fs.Snapshot()];
        if result.Err? {
          failure := Some(result.error);
          WithinSizePrefix(files, i + 1, max);
          return;
        }
        if result.value.length != -1 {
          yielded := yielded + [result.value];
        }
        i := i + 1;
      }
      assert files[..i] == files;
    }
  }
}
