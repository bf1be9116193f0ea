/** FileTransaction: a rollback guard over a set of pending file locations.
    Whatever is still pending when it is disposed is deleted. */
module FileTransactions {
  import opened Common
  import opened FileSystems

  class FileTransaction {
    /** The HashSet of locations not yet committed. */
    var pending: set<Path>

    /** new FileTransaction(paths): duplicates collapse into one entry. */
    constructor (paths: seq<Path>)
      ensures pending == set p | p in paths
    {
      pending := set p | p in paths;
    }

    method StartTracking(path: Path)
      modifies this
      ensures pending == old(pending) + {path}
    {
      pending := pending + {path};
    }

    /** Commit() with no location empties the pending set; Commit(path) drops
        that one location and keeps the others. */
    method Commit(path: Option<Path>)
      modifies this
      ensures path.None? ==> pending == {}
      ensures path.Some? ==> pending == old(pending) - {path.value}
    {
      if path.None? {
        pending := {};
      } else {
        pending := pending - {path.value};
      }
    }

    /** Dispose: tries to delete every pending location and swallows each failure,
        so it never fails itself. Exactly the pending locations whose deletion can
        succeed are gone afterwards; directories and every other file are kept. */
    method Dispose(fs: FileSystem)
      requires fs.Valid()
      modifies fs
      ensures fs.Valid()
      ensures fs.dirs == old(fs.dirs)
      ensures fs.files == old(fs.files) - (pending - fs.denied)
    {
      var remaining := pending;
      while remaining != {}
        invariant remaining <= pending
        invariant fs.Valid()
        invariant fs.dirs == old(fs.dirs)
        invariant fs.files == old(fs.files) - ((pending - remaining) - fs.denied)
        decreases remaining
      {
        var p :| p in remaining;
        var _ := fs.Delete(p);
        remaining := remaining - {p};
      }
    }
  }
}
