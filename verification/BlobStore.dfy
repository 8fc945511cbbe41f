/** The reference-counted blob store: `LocalBlobStore` (internal/grits/blobstore.go). */
module BlobStore {
  import opened Merkle

  /** A blob's expiry; `Never` is the zero time new blobs get, which lies before every moment. */
  datatype Expiry = Never | At(time: int)

  datatype CachedFile = CachedFile(refCount: int, expiresAt: Expiry)

  type Files = map<Addr, CachedFile>

  predicate Expired(e: Expiry, now: int) {
    e.Never? || now > e.time
  }

  /** The references counted on a blob; none on one that is not held. */
  function RefOf(files: Files, a: Addr): int {
    if a in files then files[a].refCount else 0
  }

  function Retain(files: Files, a: Addr): Files
    requires a in files
  {
    files[a := files[a].(refCount := files[a].refCount + 1)]
  }

  /** A blob that is new to the store starts with one reference and no expiry. */
  function Create(files: Files, a: Addr): Files {
    files[a := CachedFile(1, Never)]
  }

  /** A touched blob expires after the duration. */
  function Touched(files: Files, a: Addr, now: int, duration: int): Files
    requires a in files
  {
    files[a := CachedFile(files[a].refCount, At(now + duration))]
  }

  /** Giving back the last reference removes the blob exactly if it has expired. */
  function Drop(files: Files, a: Addr, now: int): Files
    requires a in files
  {
    var f := files[a].(refCount := files[a].refCount - 1);
    if f.refCount <= 0 && Expired(f.expiresAt, now) then files - {a} else files[a := f]
  }

  predicate Evictable(f: CachedFile, now: int) {
    f.refCount <= 0 && Expired(f.expiresAt, now)
  }

  /** What an eviction leaves while the blobs in todo have not been looked at. */
  function Surviving(files: Files, todo: set<Addr>, now: int): Files {
    map a | a in files && (a in todo || !Evictable(files[a], now)) :: files[a]
  }

  class LocalBlobStore {
    var files: Files

    /** `scanAndLoadExistingFiles`: every blob found is loaded, unreferenced, with its stored expiry. */
    constructor Scan(found: map<Addr, int>)
      ensures files == map a | a in found :: CachedFile(0, At(found[a]))
    {
      files := map[];
      new;
      var todo := found.Keys;
      while todo != {}
        invariant todo <= found.Keys
        invariant files == map a | a in found && a !in todo :: CachedFile(0, At(found[a]))
      {
        var a :| a in todo;
        files := files[a := CachedFile(0, At(found[a]))];
        todo := todo - {a};
      }
    }

    method ReadFile(a: Addr) returns (found: bool)
      modifies this
      ensures found <==> a in old(files)
      ensures found ==> files == Retain(old(files), a)
      ensures !found ==> files == old(files)
    {
      found := a in files;
      if found {
        files := files[a := files[a].(refCount := files[a].refCount + 1)];
      }
    }

    method AddDataBlock(a: Addr)
      modifies this
      ensures a in old(files) ==> files == Retain(old(files), a)
      ensures a !in old(files) ==> files == Create(old(files), a)
    {
      if a in files {
        files := files[a := files[a].(refCount := files[a].refCount + 1)];
      } else {
        files := files[a := CachedFile(1, Never)];
      }
    }

    method Touch(a: Addr, now: int, duration: int)
      requires a in files
      modifies this
      ensures files == Touched(old(files), a, now, duration)
      ensures forall t :: Expired(files[a].expiresAt, t) <==> t > now + duration
      ensures RefOf(files, a) == RefOf(old(files), a) && files - {a} == old(files) - {a}
    {
      files := files[a := files[a].(expiresAt := At(now + duration))];
    }

    method Take(a: Addr)
      requires a in files
      modifies this
      ensures files == Retain(old(files), a)
    {
      files := files[a := files[a].(refCount := files[a].refCount + 1)];
    }

    /** The caller gives back a reference it holds, so the count is positive. */
    method Release(a: Addr, now: int)
      requires RefOf(files, a) > 0
      modifies this
      ensures files == Drop(old(files), a, now)
    {
      var f := files[a].(refCount := files[a].refCount - 1);
      if f.refCount < 0 {
        assert false;  // the fatal branch
      }
      if f.refCount <= 0 && Expired(f.expiresAt, now) {
        files := files - {a};
      } else {
        files := files[a := f];
      }
    }

    /** Eviction removes exactly the unreferenced blobs that have expired. */
    method EvictOldFiles(now: int)
      modifies this
      ensures files == Surviving(old(files), {}, now)
    {
      var todo := files.Keys;
      while todo != {}
        invariant todo <= old(files).Keys
        invariant files == Surviving(old(files), todo, now)
      {
        var a :| a in todo;
        todo := todo - {a};
        if Evictable(files[a], now) {
          files := files - {a};
        }
      }
    }
  }
}
