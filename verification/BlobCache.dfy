/** The cache of recently used blobs in front of the blob store (internal/grits/blobcache.go), one call at a time. */
module BlobCache {
  import opened Merkle
  import opened BlobStore

  datatype CacheEntry = CacheEntry(size: nat, lastAccessed: int)

  type Cached = map<Addr, CacheEntry>

  // ---------------------------------------------------------------- what cleanup removes

  function ToSet(s: seq<Addr>): set<Addr> {
    set a | a in s
  }

  /** All entries, the one that was used least recently first. */
  ghost predicate IsByAge(entries: seq<Addr>, cached: Cached) {
    && ToSet(entries) == cached.Keys
    && (forall i, j :: 0 <= i < j < |entries| ==>
          entries[i] != entries[j] && cached[entries[i]].lastAccessed <= cached[entries[j]].lastAccessed)
  }

  function TotalSize(entries: seq<Addr>, cached: Cached): nat
    requires ToSet(entries) <= cached.Keys
  {
    if entries == [] then 0
    else
      var n := |entries| - 1;
      assert entries[n] in ToSet(entries);
      assert ToSet(entries[..n]) <= ToSet(entries);
      TotalSize(entries[..n], cached) + cached[entries[n]].size
  }

  /** Nine tenths of the limit. */
  function Target(maxSize: nat): nat {
    maxSize * 9 / 10
  }

  /** The first k entries are the fewest, oldest first, that bring the size to nine tenths of the limit, if any do. */
  ghost predicate IsShortestRun(entries: seq<Addr>, cached: Cached, size: int, maxSize: nat, k: nat)
    requires ToSet(entries) <= cached.Keys && k <= |entries|
  {
    && (forall j :: 0 <= j < k ==> 10 * SizeAfter(entries, cached, size, j) > 9 * maxSize)
    && (k == |entries| || 10 * SizeAfter(entries, cached, size, k) <= 9 * maxSize)
  }

  /** The tracked size once the first j entries are gone. */
  function SizeAfter(entries: seq<Addr>, cached: Cached, size: int, j: nat): int
    requires ToSet(entries) <= cached.Keys && j <= |entries|
  {
    assert ToSet(entries[..j]) <= ToSet(entries);
    size - TotalSize(entries[..j], cached)
  }

  lemma SizeAfterNext(entries: seq<Addr>, cached: Cached, size: int, j: nat)
    requires ToSet(entries) <= cached.Keys && j < |entries|
    ensures entries[j] in cached
    ensures SizeAfter(entries, cached, size, j + 1) == SizeAfter(entries, cached, size, j) - cached[entries[j]].size
  {
    assert entries[j] in ToSet(entries);
    assert entries[..j + 1][..j] == entries[..j];
  }

  method Oldest(cached: Cached, among: set<Addr>) returns (oldest: Addr)
    requires among != {} && among <= cached.Keys
    ensures oldest in among && forall a :: a in among ==> cached[oldest].lastAccessed <= cached[a].lastAccessed
  {
    oldest :| oldest in among;
    var todo := among;
    while todo != {}
      invariant todo <= among && oldest in among
      invariant forall a :: a in among && a !in todo ==> cached[oldest].lastAccessed <= cached[a].lastAccessed
    {
      var a :| a in todo;
      todo := todo - {a};
      if cached[a].lastAccessed < cached[oldest].lastAccessed {
        oldest := a;
      }
    }
  }

  /** The sorted list of entries. */
  method ByAge(cached: Cached) returns (entries: seq<Addr>)
    ensures IsByAge(entries, cached)
  {
    entries := [];
    var todo := cached.Keys;
    while todo != {}
      invariant todo <= cached.Keys && ToSet(entries) == cached.Keys - todo
      invariant forall i :: 0 <= i < |entries| ==> entries[i] in ToSet(entries)
      invariant forall i, j :: 0 <= i < j < |entries| ==>
        entries[i] != entries[j] && cached[entries[i]].lastAccessed <= cached[entries[j]].lastAccessed
      invariant forall i, a :: 0 <= i < |entries| && a in todo ==>
        cached[entries[i]].lastAccessed <= cached[a].lastAccessed
    {
      var a := Oldest(cached, todo);
      assert a !in entries by { assert a !in ToSet(entries); }
      assert ToSet(entries + [a]) == ToSet(entries) + {a};
      entries := entries + [a];
      todo := todo - {a};
    }
  }

  // ---------------------------------------------------------------- the cache

  /** What the counts of the store are, when the cache owns one reference for each of its blobs. */
  ghost predicate OwnsOneEach(files: Files, outside: multiset<Addr>, owned: set<Addr>) {
    forall a {:trigger OwnsAt(files, outside, owned, a)} :: OwnsAt(files, outside, owned, a)
  }

  predicate OwnsAt(files: Files, outside: multiset<Addr>, owned: set<Addr>, a: Addr) {
    RefOf(files, a) == outside[a] + if a in owned then 1 else 0
  }

  lemma RetainedFor(files: Files, outside: multiset<Addr>, owned: set<Addr>, a: Addr)
    requires OwnsOneEach(files, outside, owned) && a in files
    ensures OwnsOneEach(Retain(files, a), outside + multiset{a}, owned)
    ensures a !in owned ==> OwnsOneEach(Retain(files, a), outside, owned + {a})
  {
    forall b ensures OwnsAt(Retain(files, a), outside + multiset{a}, owned, b) {
      assert OwnsAt(files, outside, owned, b);
    }
    forall b ensures a !in owned ==> OwnsAt(Retain(files, a), outside, owned + {a}, b) {
      assert OwnsAt(files, outside, owned, b);
    }
  }

  lemma CreatedFor(files: Files, outside: multiset<Addr>, owned: set<Addr>, a: Addr)
    requires OwnsOneEach(files, outside, owned) && a !in files
    ensures OwnsOneEach(Create(files, a), outside + multiset{a}, owned)
  {
    forall b ensures OwnsAt(Create(files, a), outside + multiset{a}, owned, b) {
      assert OwnsAt(files, outside, owned, b);
    }
  }

  lemma DroppedFrom(files: Files, outside: multiset<Addr>, owned: set<Addr>, a: Addr, now: int)
    requires OwnsOneEach(files, outside, owned) && a in owned
    ensures RefOf(files, a) > 0 && OwnsOneEach(Drop(files, a, now), outside, owned - {a})
  {
    assert OwnsAt(files, outside, owned, a);
    forall b ensures OwnsAt(Drop(files, a, now), outside, owned - {a}, b) {
      assert OwnsAt(files, outside, owned, b);
    }
  }

  /** What is left, and how large, when the first i entries are out and the size was above the target until then. */
  ghost predicate IsTakenOut(byAge: seq<Addr>, cached: Cached, start: int, maxSize: nat, left: Cached, size: int, i: nat)
    requires ToSet(byAge) <= cached.Keys
  {
    && i <= |byAge| && left == cached - ToSet(byAge[..i]) && size == SizeAfter(byAge, cached, start, i)
    && forall j :: 0 <= j < i ==> 10 * SizeAfter(byAge, cached, start, j) > 9 * maxSize
  }

  lemma OneMoreOut(byAge: seq<Addr>, cached: Cached, i: nat)
    requires IsByAge(byAge, cached) && i < |byAge|
    ensures byAge[..i + 1] == byAge[..i] + [byAge[i]] && byAge[i] !in ToSet(byAge[..i])
    ensures ToSet(byAge[..i + 1]) == ToSet(byAge[..i]) + {byAge[i]}
  {
    assert byAge[..i + 1] == byAge[..i] + [byAge[i]];
  }

  lemma TakeOutNext(byAge: seq<Addr>, cached: Cached, start: int, maxSize: nat, left: Cached, size: int, i: nat)
    requires IsByAge(byAge, cached) && i < |byAge| && size > Target(maxSize)
    requires IsTakenOut(byAge, cached, start, maxSize, left, size, i)
    ensures byAge[i] in left && byAge[..i + 1] == byAge[..i] + [byAge[i]]
    ensures IsTakenOut(byAge, cached, start, maxSize, left - {byAge[i]}, size - left[byAge[i]].size, i + 1)
  {
    SizeAfterNext(byAge, cached, start, i);
    OneMoreOut(byAge, cached, i);
  }

  class BlobCache {
    const blobStore: LocalBlobStore
    const maxSize: nat
    var cachedBlobs: Cached
    var currentSize: int

    /** The references on blobs of the store that callers and others hold. */
    ghost var outside: multiset<Addr>

    ghost predicate Valid()
      reads this, blobStore
    {
      OwnsOneEach(blobStore.files, outside, cachedBlobs.Keys)
    }

    constructor (blobStore: LocalBlobStore, maxSize: nat, ghost outside: multiset<Addr>)
      requires OwnsOneEach(blobStore.files, outside, {})
      ensures Valid() && this.blobStore == blobStore && this.maxSize == maxSize && this.outside == outside
      ensures cachedBlobs == map[] && currentSize == 0
    {
      this.blobStore, this.maxSize := blobStore, maxSize;
      cachedBlobs, currentSize := map[], 0;
      this.outside := outside;
      new;
      assert cachedBlobs.Keys == {};
    }

    /**
      `Get`: a blob from the cache, else from the store, else fetched (by a fetch that succeeds if `fetched` says
      so and adds the blob to the store). The caller gets one reference; a blob new to the cache costs one more.
    */
    method Get(a: Addr, size: nat, fetched: bool, now: int) returns (found: bool, cleanup: bool)
      requires Valid()
      modifies this, blobStore
      ensures Valid()
      ensures found <==> a in old(cachedBlobs) || a in old(blobStore.files) || fetched
      ensures found ==> outside == old(outside) + multiset{a} && a in cachedBlobs
      ensures found ==>
        cachedBlobs[a] == CacheEntry(if a in old(cachedBlobs) then old(cachedBlobs)[a].size else size, now)
      ensures !found ==> outside == old(outside) && cachedBlobs == old(cachedBlobs)
      ensures forall b :: b in blobStore.files <==> b in old(blobStore.files) || (found && b == a)
      ensures cachedBlobs - {a} == old(cachedBlobs) - {a}
      ensures currentSize == old(currentSize) + if found && a !in old(blobStore.files) then size else 0
      ensures cleanup <==> found && a !in old(blobStore.files) && currentSize > maxSize
    {
      cleanup := false;
      CachedIsStored(a);
      if a in cachedBlobs {
        RetainedFor(blobStore.files, outside, cachedBlobs.Keys, a);
        blobStore.Take(a);
        cachedBlobs := cachedBlobs[a := cachedBlobs[a].(lastAccessed := now)];
        assert cachedBlobs.Keys == old(cachedBlobs.Keys);
        outside := outside + multiset{a};
        return true, false;
      }
      ghost var files := blobStore.files;
      found := blobStore.ReadFile(a);
      if found {
        RetainedFor(files, outside, cachedBlobs.Keys, a);
      } else {
        if !fetched {
          return false, false;
        }
        CreatedFor(files, outside, cachedBlobs.Keys, a);
        blobStore.AddDataBlock(a);
        currentSize := currentSize + size;
        cleanup := currentSize > maxSize;
      }
      Insert(a, CacheEntry(size, now));
      found := true;
    }

    /** A blob that is referenced for the caller is referenced once more for the cache. */
    method Insert(a: Addr, entry: CacheEntry)
      requires a !in cachedBlobs && a in blobStore.files
      requires OwnsOneEach(blobStore.files, outside + multiset{a}, cachedBlobs.Keys)
      modifies this`cachedBlobs, this`outside, blobStore
      ensures Valid() && outside == old(outside) + multiset{a} && cachedBlobs == old(cachedBlobs)[a := entry]
      ensures forall b :: b in blobStore.files <==> b in old(blobStore.files)
    {
      RetainedFor(blobStore.files, outside + multiset{a}, cachedBlobs.Keys, a);
      blobStore.Take(a);
      cachedBlobs := cachedBlobs[a := entry];
      assert cachedBlobs.Keys == old(cachedBlobs.Keys) + {a};
      outside := outside + multiset{a};
    }

    /** `performCleanup`: the shortest run of least recently used blobs goes, and each is given back once. */
    method PerformCleanup(now: int) returns (ghost entries: seq<Addr>, ghost k: nat)
      requires Valid()
      modifies this, blobStore
      ensures Valid() && outside == old(outside)
      ensures IsByAge(entries, old(cachedBlobs)) && k <= |entries|
      ensures IsShortestRun(entries, old(cachedBlobs), old(currentSize), maxSize, k)
      ensures cachedBlobs == old(cachedBlobs) - ToSet(entries[..k])
      ensures currentSize == SizeAfter(entries, old(cachedBlobs), old(currentSize), k)
    {
      var byAge := ByAge(cachedBlobs);
      entries := byAge;
      var toRemove := TakeOut(byAge);
      k := |toRemove|;
      assert old(cachedBlobs).Keys == cachedBlobs.Keys + ToSet(toRemove);
      ReleaseAll(toRemove, now);
    }

    /** The part under the lock: entries leave the cache until the tracked size is low enough. */
    method TakeOut(byAge: seq<Addr>) returns (toRemove: seq<Addr>)
      requires IsByAge(byAge, cachedBlobs)
      modifies this`cachedBlobs, this`currentSize
      ensures toRemove <= byAge && cachedBlobs == old(cachedBlobs) - ToSet(toRemove)
      ensures IsShortestRun(byAge, old(cachedBlobs), old(currentSize), maxSize, |toRemove|)
      ensures currentSize == SizeAfter(byAge, old(cachedBlobs), old(currentSize), |toRemove|)
    {
      ghost var cached := cachedBlobs;
      var size, i := currentSize, 0;
      toRemove := [];
      assert byAge[..0] == [];
      while i < |byAge| && size > Target(maxSize)
        invariant 0 <= i <= |byAge| && toRemove == byAge[..i]
        invariant IsTakenOut(byAge, cached, currentSize, maxSize, cachedBlobs, size, i)
        modifies this`cachedBlobs
      {
        var a := byAge[i];
        TakeOutNext(byAge, cached, currentSize, maxSize, cachedBlobs, size, i);
        size := size - cachedBlobs[a].size;
        cachedBlobs := cachedBlobs - {a};
        toRemove := toRemove + [a];
        i := i + 1;
      }
      currentSize := size;
    }

    /** The references of entries that are out of the cache already. */
    method ReleaseAll(toRemove: seq<Addr>, now: int)
      requires forall i, j :: 0 <= i < j < |toRemove| ==> toRemove[i] != toRemove[j]
      requires ToSet(toRemove) !! cachedBlobs.Keys
      requires OwnsOneEach(blobStore.files, outside, cachedBlobs.Keys + ToSet(toRemove))
      modifies blobStore
      ensures Valid()
    {
      var i := 0;
      while i < |toRemove|
        invariant 0 <= i <= |toRemove|
        invariant OwnsOneEach(blobStore.files, outside, cachedBlobs.Keys + ToSet(toRemove[i..]))
      {
        ghost var owned := cachedBlobs.Keys + ToSet(toRemove[i..]);
        assert toRemove[i] == toRemove[i..][0];
        DroppedFrom(blobStore.files, outside, owned, toRemove[i], now);
        assert owned - {toRemove[i]} == cachedBlobs.Keys + ToSet(toRemove[i + 1..]);
        blobStore.Release(toRemove[i], now);
        i := i + 1;
      }
      assert cachedBlobs.Keys + ToSet(toRemove[i..]) == cachedBlobs.Keys;
    }

    lemma CachedIsStored(a: Addr)
      requires Valid()
      ensures a in cachedBlobs ==> a in blobStore.files
    {
      assert OwnsAt(blobStore.files, outside, cachedBlobs.Keys, a);
    }
  }
}
