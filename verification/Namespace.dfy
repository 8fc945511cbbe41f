/**
  The volume itself: `NameStore` with its node cache, and the `DenseRefManager` that keeps every node
  reachable from the root alive (internal/grits/namestore.go).  Public operations run under treeMtx and are
  atomic steps here.
*/
module Namespace {
  import opened Wrappers
  import opened Merkle
  import opened PathTree
  import opened RefCounts
  import opened Ownership
  import opened BlobStore
  import opened Requests

  /** rc is base plus one count for each address on the rollback list. */
  ghost predicate TakenSince(base: Counts, rc: Counts, taken: seq<Addr>) {
    forall x {:trigger IsTakenSince(base, rc, taken, x)} :: IsTakenSince(base, rc, taken, x)
  }

  ghost predicate IsTakenSince(base: Counts, rc: Counts, taken: seq<Addr>, x: Addr) {
    CountOf(rc, x) == CountOf(base, x) + multiset(taken)[x]
  }

  lemma TookOne(base: Counts, rc: Counts, taken: seq<Addr>, a: Addr, c: Positive)
    requires TakenSince(base, rc, taken) && c == CountOf(rc, a) + 1
    ensures TakenSince(base, rc[a := c], taken + [a])
  {
    var rc', more := rc[a := c], taken + [a];
    assert multiset(more) == multiset(taken) + multiset{a};
    forall x ensures IsTakenSince(base, rc', more, x) {
      assert IsTakenSince(base, rc, taken, x);
    }
  }

  /** Undoing the first entry of the list; a count of one goes with its entry. */
  lemma UndidOne(base: Counts, rc: Counts, taken: seq<Addr>)
    requires TakenSince(base, rc, taken) && taken != []
    ensures taken[0] in rc
    ensures rc[taken[0]] <= 1 ==> TakenSince(base, rc - {taken[0]}, taken[1..])
    ensures rc[taken[0]] > 1 ==> TakenSince(base, rc[taken[0] := rc[taken[0]] - 1], taken[1..])
  {
    var a, rest := taken[0], taken[1..];
    assert taken == [a] + rest && multiset(taken) == multiset{a} + multiset(rest);
    assert IsTakenSince(base, rc, taken, a);
    var rc' := if rc[a] <= 1 then rc - {a} else rc[a := rc[a] - 1];
    forall x ensures IsTakenSince(base, rc', rest, x) {
      assert IsTakenSince(base, rc, taken, x);
    }
  }

  lemma AllUndone(base: Counts, rc: Counts)
    requires TakenSince(base, rc, [])
    ensures rc == base
  {
    forall x ensures x in rc <==> x in base {
      assert IsTakenSince(base, rc, [], x);
    }
    assert rc.Keys == base.Keys;
    forall x | x in rc ensures rc[x] == base[x] {
      assert IsTakenSince(base, rc, [], x);
    }
  }

  /** Loading a node with an unknown type number fails but keeps its reference on the content blob. */
  predicate Leaks(present: set<Addr>, a: Addr) {
    a.Metadata? && a.kind.Unknown? && a in present && a.content in present
  }

  /** A node's reference count is its callers' references plus one for the reference manager. */
  ghost predicate NodesCounted(cache: map<Addr, int>, pins: multiset<Addr>, rc: Counts) {
    forall m {:trigger IsNodeCounted(cache, pins, rc, m)} :: IsNodeCounted(cache, pins, rc, m)
  }

  ghost predicate IsNodeCounted(cache: map<Addr, int>, pins: multiset<Addr>, rc: Counts, m: Addr) {
    m in cache || m in pins || m in rc ==>
      && m in cache && IsNode(m)
      && cache[m] == pins[m] + (if m in rc then 1 else 0)
      && (m in rc ==> !ChildrenOf(m).Corrupt?)
  }

  lemma NodeCached(cache: map<Addr, int>, pins: multiset<Addr>, rc: Counts, m: Addr)
    requires NodesCounted(cache, pins, rc) && m !in cache && IsNode(m)
    ensures NodesCounted(cache[m := 0], pins, rc)
  {
    var cache' := cache[m := 0];
    forall x ensures IsNodeCounted(cache', pins, rc, x) {
      assert IsNodeCounted(cache, pins, rc, x);
    }
  }

  lemma NodeCountChanged(cache: map<Addr, int>, pins: multiset<Addr>, rc: Counts, m: Addr, c: Positive)
    requires NodesCounted(cache, pins, rc) && m in rc
    ensures NodesCounted(cache, pins, rc[m := c])
  {
    var rc' := rc[m := c];
    forall x ensures IsNodeCounted(cache, pins, rc', x) {
      assert IsNodeCounted(cache, pins, rc, x);
    }
  }

  lemma NodeFirstCounted(cache: map<Addr, int>, pins: multiset<Addr>, rc: Counts, m: Addr)
    requires NodesCounted(cache, pins, rc) && m in cache && m !in rc
    requires IsNode(m) && !ChildrenOf(m).Corrupt?
    ensures NodesCounted(cache[m := cache[m] + 1], pins, rc[m := 1])
  {
    var cache', rc' := cache[m := cache[m] + 1], rc[m := 1];
    forall x ensures IsNodeCounted(cache', pins, rc', x) {
      assert IsNodeCounted(cache, pins, rc, x);
    }
  }

  lemma NodeNotCounted(cache: map<Addr, int>, pins: multiset<Addr>, rc: Counts, m: Addr)
    requires NodesCounted(cache, pins, rc) && m in rc
    ensures m in cache && cache[m] > 0 && NodesCounted(cache[m := cache[m] - 1], pins, rc - {m})
  {
    assert IsNodeCounted(cache, pins, rc, m);
    var cache', rc' := cache[m := cache[m] - 1], rc - {m};
    forall x ensures IsNodeCounted(cache', pins, rc', x) {
      assert IsNodeCounted(cache, pins, rc, x);
    }
  }

  /** How `GetFileNode` ends; a reference that comes too late is on a node that has given back its blobs. */
  datatype GetOutcome = Missing | Pinned | TooLate

  /** The lookup callbacks object to the response that describes the new tree. */
  ghost predicate Vetoed(present: set<Addr>, root: Addr, reqs: seq<LinkRequest>, respond: Option<Responder>)
    requires IsNode(root)
  {
    respond.Some? && respond.value(Response(present, root, reqs), reqs, root).None?
  }

  /** What comes of a tree that the batch has built: lookup callbacks may object, and all of it must be held. */
  ghost predicate IsVerdict(present: set<Addr>, root: Addr, reqs: seq<LinkRequest>, respond: Option<Responder>,
                            r: Result<Addr, Error>)
    requires IsNode(root)
  {
    if Complete(present, root) then
      r == if Vetoed(present, root, reqs, respond) then Err(Denied) else Ok(root)
    else
      && (r == Err(Denied) || r == Err(Unavailable))
      && (respond.None? || (forall entries :: respond.value(entries, reqs, root).Some?) ==> r == Err(Unavailable))
  }

  method Answer(entries: seq<ResponseEntry>, path: Path, pairs: seq<PathNodePair>) returns (more: seq<ResponseEntry>)
    requires pairs != []
    ensures more == AddAnswer(entries, path, pairs)
  {
    more := entries;
    if Leaf(pairs).outcome.NotFound? {
      return entries + [Gone(path)];
    }
    var i := 0;
    while i < |pairs|
      invariant 0 <= i <= |pairs| && AddPairs(more, pairs[i..]) == AddPairs(entries, pairs)
    {
      assert pairs[i..][1..] == pairs[i + 1..];
      if !Mentions(more, pairs[i].path) {
        more := more + [Pair(pairs[i])];
      }
      i := i + 1;
    }
  }

  class NameStore {
    const blobStore: LocalBlobStore
    var rootAddr: Addr
    var serialNumber: nat
    /** The cached nodes, each with its own reference count. */
    var fileCache: map<Addr, int>
    /** The reference manager's table: how often each address is held or linked to. */
    var refCount: Counts
    /** Node references that callers of this store hold. */
    ghost var pins: multiset<Addr>
    /** Nodes on which a recursive take has not been undone. */
    ghost var holds: multiset<Addr>
    /** Blob references that no cached node owns. */
    ghost var outside: multiset<Addr>

    /** A store with an empty cache, beside others who hold the given blob references. */
    constructor (bs: LocalBlobStore, ghost others: multiset<Addr>)
      requires forall x :: RefOf(bs.files, x) == others[x]
      ensures CountsValid() && blobStore == bs
      ensures pins == holds == multiset{} && outside == others
    {
      blobStore := bs;
      serialNumber := 1;
      rootAddr := Bytes("");
      fileCache, refCount := map[], map[];
      pins, holds, outside := multiset{}, multiset{}, others;
      new;
      assert Owned({}) == multiset{};
      forall x ensures IsAccounted(bs.files, {}, others, x) {
        assert RefOf(bs.files, x) == others[x];
      }
      assert forall m {:trigger IsNodeCounted(map[], multiset{}, map[], m)} :: IsNodeCounted(map[], multiset{}, map[], m);
      NothingCounted();
    }

    /** Everything but the exactness of the reference manager's counts. */
    ghost predicate CacheValid()
      reads this, blobStore
    {
      && Accounted(blobStore.files, fileCache.Keys, outside)
      && NodesCounted(fileCache, pins, refCount)
    }

    ghost predicate CountsValid()
      reads this, blobStore
    {
      CacheValid() && Exact(refCount, holds)
    }

    ghost predicate Valid()
      reads this, blobStore
    {
      CountsValid() && rootAddr in holds && IsNode(rootAddr)
    }

    ghost function Present(): set<Addr>
      reads blobStore
    {
      blobStore.files.Keys
    }

    lemma KnownNode(m: Addr)
      requires CacheValid() && (m in fileCache || m in pins || m in refCount)
      ensures m in fileCache && IsNode(m) && fileCache[m] == pins[m] + (if m in refCount then 1 else 0)
      ensures m in refCount ==> !ChildrenOf(m).Corrupt?
    {
      assert IsNodeCounted(fileCache, pins, refCount, m);
    }

    /** A cached node's blobs are in the store, so it stays loadable. */
    lemma CachedIsLoadable(m: Addr)
      requires CacheValid() && m in fileCache
      ensures Loadable(Present(), m)
    {
      KnownNode(m);
      NodeOwnsItsBlobs(blobStore.files, fileCache.Keys, outside, m);
    }

    lemma {:induction false} CountedIsComplete(m: Addr)
      requires CacheValid() && Exact(refCount, holds) && m in refCount
      ensures Complete(Present(), m)
      decreases m
    {
      KnownNode(m);
      CachedIsLoadable(m);
      forall n | n in Kids(m) ensures Complete(Present(), Kids(m)[n]) {
        KidIsCounted(refCount, holds, m, n);
        CountedIsComplete(Kids(m)[n]);
      }
    }

    method NodeTake(m: Addr)
      requires m in fileCache && fileCache[m] >= 0
      modifies this`fileCache
      ensures fileCache == old(fileCache)[m := old(fileCache)[m] + 1]
    {
      fileCache := fileCache[m := fileCache[m] + 1];
    }

    method NodeRelease(m: Addr)
      requires m in fileCache && fileCache[m] > 0
      modifies this`fileCache
      ensures fileCache == old(fileCache)[m := old(fileCache)[m] - 1]
    {
      fileCache := fileCache[m := fileCache[m] - 1];
      if fileCache[m] < 0 {
        assert false;  // the fatal branch
      }
    }

    // The blob store as the node cache sees it.  A reference is held elsewhere until a node takes it over.

    method ReadBlob(a: Addr) returns (found: bool)
      requires CacheValid()
      modifies this`outside, blobStore
      ensures CacheValid() && Present() == old(Present())
      ensures found <==> a in Present()
      ensures found ==> outside == old(outside) + multiset{a}
      ensures !found ==> outside == old(outside)
    {
      ReadKeeps(blobStore.files, fileCache.Keys, outside, a);
      found := blobStore.ReadFile(a);
      if found { outside := outside + multiset{a}; }
    }

    method AddBlock(a: Addr)
      requires CacheValid()
      modifies this`outside, blobStore
      ensures CacheValid() && Present() == old(Present()) + {a}
      ensures outside == old(outside) + multiset{a}
    {
      ReadKeeps(blobStore.files, fileCache.Keys, outside, a);
      blobStore.AddDataBlock(a);
      outside := outside + multiset{a};
    }

    method ReleaseBlob(a: Addr, ghost rest: multiset<Addr>, now: int)
      requires CacheValid() && outside == rest + multiset{a}
      modifies this`outside, blobStore
      ensures CacheValid() && Present() <= old(Present())
      ensures outside == rest
      ensures old(RefOf(blobStore.files, a)) > 1 ==> Present() == old(Present())
    {
      DropKeeps(blobStore.files, fileCache.Keys, rest, a, now);
      blobStore.Release(a, now);
      outside := rest;
    }

    /** Loading a node's metadata and content from the store; a failure gives back what it took. */
    method ActuallyLoadFileNode(a: Addr, now: int) returns (ok: bool)
      requires CacheValid()
      modifies this`outside, blobStore
      ensures CacheValid()
      ensures ok <==> Loadable(old(Present()), a)
      ensures Present() <= old(Present())
      ensures ok ==> Present() == old(Present()) && outside == old(outside) + Share(a)
      ensures !ok && !Leaks(old(Present()), a) ==> outside == old(outside)
      ensures Leaks(old(Present()), a) ==> outside == old(outside) + multiset{a.content}
    {
      ok := ReadBlob(a);
      if ok {
        ghost var rest := old(outside);
        if a.Metadata? {
          ok := ReadBlob(a.content);
          if ok && a.kind.Unknown? {
            ok, rest := false, rest + multiset{a.content};
          }
        } else {
          ok := false;
        }
        if !ok {
          ReleaseBlob(a, rest, now);
        }
      }
    }

    /** A node enters the cache and takes over the two references acquired for it. */
    method CacheNode(m: Addr, ghost rest: multiset<Addr>)
      requires CacheValid() && m !in fileCache && IsNode(m)
      requires outside == rest + Share(m)
      modifies this`fileCache, this`outside
      ensures CacheValid()
      ensures fileCache == old(fileCache)[m := 0] && outside == rest
    {
      NodeAdded(blobStore.files, fileCache.Keys, rest, m);
      NodeCached(fileCache, pins, refCount, m);
      assert fileCache[m := 0].Keys == fileCache.Keys + {m};
      fileCache, outside := fileCache[m := 0], rest;
    }

    method LoadFileNode(a: Addr, now: int) returns (ok: bool)
      requires CacheValid()
      modifies this`fileCache, this`outside, blobStore
      ensures CacheValid()
      ensures old(Valid()) ==> Valid()
      ensures ok <==> Loadable(old(Present()), a)
      ensures ok && a !in old(fileCache) ==> fileCache == old(fileCache)[a := 0]
      ensures !ok || a in old(fileCache) ==> fileCache == old(fileCache)
      ensures Present() <= old(Present())
      ensures ok ==> Present() == old(Present()) && outside == old(outside)
      ensures !ok && !Leaks(old(Present()), a) ==> outside == old(outside)
      ensures Leaks(old(Present()), a) ==> outside == old(outside) + multiset{a.content}
    {
      ok := true;
      if a in fileCache {
        CachedIsLoadable(a);
      } else {
        ok := ActuallyLoadFileNode(a, now);
        if ok {
          CacheNode(a, old(outside));
        }
      }
    }

    method CreateTreeNode(entries: map<Name, Addr>, stamp: string, now: int) returns (node: Addr)
      requires CacheValid()
      modifies this`fileCache, this`outside, blobStore
      ensures CacheValid()
      ensures old(Valid()) ==> Valid()
      ensures node == TreeNode(entries, stamp) && outside == old(outside)
      ensures node in old(fileCache) ==> fileCache == old(fileCache)
      ensures node !in old(fileCache) ==> fileCache == old(fileCache)[node := 0]
      ensures Present() == old(Present()) + {node, node.content}
    {
      var content := Listing(entries);
      node := TreeNode(entries, stamp);
      AddBlock(content);
      AddBlock(node);
      Adopt(node, old(outside), now);
    }

    /** A directory just written takes its place in the cache, unless it is there already. */
    method Adopt(node: Addr, ghost rest: multiset<Addr>, now: int)
      requires CacheValid() && IsNode(node)
      requires outside == rest + multiset{node.content} + multiset{node}
      modifies this`fileCache, this`outside, blobStore
      ensures CacheValid() && outside == rest && Present() == old(Present())
      ensures node in old(fileCache) ==> fileCache == old(fileCache)
      ensures node !in old(fileCache) ==> fileCache == old(fileCache)[node := 0]
    {
      assert outside == rest + Share(node);
      if node in fileCache {
        HeldTwice(blobStore.files, fileCache.Keys, outside, node, node.content);
        ReleaseBlob(node.content, rest + multiset{node}, now);
        HeldTwice(blobStore.files, fileCache.Keys, outside, node, node);
        ReleaseBlob(node, rest, now);
      } else {
        CacheNode(node, rest);
      }
    }

    // ------------------------------------------------ DenseRefManager

    /** Undo everything on the list: the counts are as they were when the outermost take began. */
    method ReleaseTaken(taken: seq<Addr>, ghost base: Counts)
      requires CacheValid() && TakenSince(base, refCount, taken)
      modifies this`refCount, this`fileCache
      ensures CacheValid() && fileCache.Keys == old(fileCache.Keys)
      ensures refCount == base
    {
      var i := 0;
      while i < |taken|
        invariant 0 <= i <= |taken|
        invariant CacheValid() && fileCache.Keys == old(fileCache.Keys)
        invariant TakenSince(base, refCount, taken[i..])
      {
        var a := taken[i];
        UndidOne(base, refCount, taken[i..]);
        assert taken[i..][1..] == taken[i + 1..];
        UndoEntry(a);
        i := i + 1;
      }
      assert taken[i..] == [];
      AllUndone(base, refCount);
    }

    method UndoEntry(a: Addr)
      requires CacheValid() && a in refCount
      modifies this`refCount, this`fileCache
      ensures CacheValid() && fileCache.Keys == old(fileCache.Keys)
      ensures old(refCount)[a] <= 1 ==> refCount == old(refCount) - {a}
      ensures old(refCount)[a] > 1 ==> refCount == old(refCount)[a := old(refCount)[a] - 1]
    {
      var count := refCount[a];
      if count <= 1 {
        NodeNotCounted(fileCache, pins, refCount, a);
        refCount := refCount - {a};
        if a in fileCache {
          NodeRelease(a);
        }
      } else {
        NodeCountChanged(fileCache, pins, refCount, a, count - 1);
        refCount := refCount[a := count - 1];
      }
      assert fileCache.Keys == old(fileCache.Keys);
    }

    /** An address that is counted already gains one. */
    method TakeCountedNode(a: Addr)
      requires CountsValid() && a in refCount
      modifies this`refCount, this`holds
      ensures CountsValid()
      ensures refCount == old(refCount)[a := old(refCount)[a] + 1] && holds == old(holds) + multiset{a}
    {
      if refCount[a] <= 0 {
        assert false;  // the fatal branch
      }
      TakeCounted(refCount, holds, a);
      NodeCountChanged(fileCache, pins, refCount, a, refCount[a] + 1);
      refCount, holds := refCount[a := refCount[a] + 1], holds + multiset{a};
    }

    lemma TakeNewKeeps(a: Addr, rest: multiset<Addr>)
      requires CountsValid() && a !in refCount
      requires a in fileCache && IsNode(a) && !ChildrenOf(a).Corrupt?
      requires holds == rest + Bag(a, Kids(a).Keys)
      ensures NodesCounted(fileCache[a := fileCache[a] + 1], pins, refCount[a := 1])
      ensures fileCache[a := fileCache[a] + 1].Keys == fileCache.Keys
      ensures Exact(refCount[a := 1], rest + multiset{a})
    {
      TakeNew(refCount, rest, a);
      NodeFirstCounted(fileCache, pins, refCount, a);
      assert fileCache[a := fileCache[a] + 1].Keys == fileCache.Keys;
    }

    /** A directory whose children have all been taken starts to be counted, and its node is kept. */
    method TakeNewNode(a: Addr, ghost rest: multiset<Addr>)
      requires CountsValid() && a !in refCount
      requires a in fileCache && IsNode(a) && !ChildrenOf(a).Corrupt?
      requires holds == rest + Bag(a, Kids(a).Keys)
      modifies this`refCount, this`fileCache, this`holds
      ensures CountsValid() && fileCache.Keys == old(fileCache.Keys)
      ensures refCount == old(refCount)[a := 1] && holds == rest + multiset{a}
    {
      TakeNewKeeps(a, rest);
      refCount, fileCache, holds := refCount[a := 1], fileCache[a := fileCache[a] + 1], rest + multiset{a};
    }

    /**
      Count a and, the first time, everything below it.  Fails exactly when something below cannot be loaded,
      and then leaves no trace in the counts.
    */
    method RecursiveTake(a: Addr, taken: seq<Addr>, now: int, ghost base: Counts)
      returns (ok: bool, taken': seq<Addr>)
      requires CountsValid() && a in fileCache
      requires TakenSince(base, refCount, taken)
      modifies this`refCount, this`fileCache, this`holds, this`outside, blobStore
      ensures CacheValid() && old(fileCache.Keys) <= fileCache.Keys
      ensures ok <==> Complete(old(Present()), a)
      ensures ok ==> Exact(refCount, holds) && holds == old(holds) + multiset{a} && TakenSince(base, refCount, taken')
      ensures ok ==> Present() == old(Present()) && outside == old(outside)
      ensures !ok ==> refCount == base && taken' == []
      decreases a, 1
    {
      if a in refCount {
        CountedIsComplete(a);
        TookOne(base, refCount, taken, a, refCount[a] + 1);
        TakeCountedNode(a);
        ok, taken' := true, taken + [a];
      } else {
        ok, taken' := TakeFirst(a, taken, now, base);
      }
    }

    method TakeFirst(a: Addr, taken: seq<Addr>, now: int, ghost base: Counts)
      returns (ok: bool, taken': seq<Addr>)
      requires CountsValid() && a in fileCache && a !in refCount
      requires TakenSince(base, refCount, taken)
      modifies this`refCount, this`fileCache, this`holds, this`outside, blobStore
      ensures CacheValid() && old(fileCache.Keys) <= fileCache.Keys
      ensures ok <==> Complete(old(Present()), a)
      ensures ok ==> Exact(refCount, holds) && holds == old(holds) + multiset{a} && TakenSince(base, refCount, taken')
      ensures ok ==> Present() == old(Present()) && outside == old(outside)
      ensures !ok ==> refCount == base && taken' == []
      decreases a, 0, 1
    {
      CachedIsLoadable(a);
      if ChildrenOf(a).Corrupt? {
        ReleaseTaken(taken, base);
        ok, taken' := false, [];
      } else {
        ok, taken' := TakeChildren(a, taken, now, base);
        if ok {
          StillNew(old(refCount), refCount, old(holds), a);
          TookOne(base, refCount, taken', a, 1);
          TakeNewNode(a, old(holds));
          taken' := taken' + [a];
        }
      }
    }

    method TakeChildren(a: Addr, taken: seq<Addr>, now: int, ghost base: Counts)
      returns (ok: bool, taken': seq<Addr>)
      requires CountsValid() && a in fileCache
      requires TakenSince(base, refCount, taken)
      modifies this`refCount, this`fileCache, this`holds, this`outside, blobStore
      ensures CacheValid() && old(fileCache.Keys) <= fileCache.Keys
      ensures ok <==> forall n :: n in Kids(a) ==> Complete(old(Present()), Kids(a)[n])
      ensures ok ==> Exact(refCount, holds) && holds == old(holds) + Bag(a, Kids(a).Keys) && TakenSince(base, refCount, taken')
      ensures ok ==> Present() == old(Present()) && outside == old(outside)
      ensures !ok ==> refCount == base && taken' == []
      decreases a, 0, 0
    {
      var children := Kids(a);
      var todo := children.Keys;
      BagEnds(a);
      ok, taken' := true, taken;
      while todo != {}
        invariant todo <= children.Keys
        invariant CountsValid() && old(fileCache.Keys) <= fileCache.Keys
        invariant holds == old(holds) + Bag(a, children.Keys - todo)
        invariant TakenSince(base, refCount, taken')
        invariant Present() == old(Present()) && outside == old(outside)
        invariant ok && forall n :: n in children && n !in todo ==> Complete(old(Present()), children[n])
      {
        var n :| n in todo;
        KidIsSmaller(a, n);
        ok, taken' := TakeChild(children[n], taken', now, base);
        if !ok {
          break;
        }
        BagStep(a, todo, n);
        todo := todo - {n};
      }
    }

    method TakeChild(child: Addr, taken: seq<Addr>, now: int, ghost base: Counts)
      returns (ok: bool, taken': seq<Addr>)
      requires CountsValid() && TakenSince(base, refCount, taken)
      modifies this`refCount, this`fileCache, this`holds, this`outside, blobStore
      ensures CacheValid() && old(fileCache.Keys) <= fileCache.Keys
      ensures ok <==> Complete(old(Present()), child)
      ensures ok ==> Exact(refCount, holds) && holds == old(holds) + multiset{child} && TakenSince(base, refCount, taken')
      ensures ok ==> Present() == old(Present()) && outside == old(outside)
      ensures !ok ==> refCount == base && taken' == []
      decreases child, 2
    {
      ok := LoadFileNode(child, now);
      taken' := taken;
      if ok {
        ok, taken' := RecursiveTake(child, taken, now, base);
      }
      if !ok {
        ReleaseTaken(taken', base);
        taken' := [];
      }
    }

    lemma ReleaseSharedKeeps(a: Addr, count: Positive, doomed: set<Addr>, rest: multiset<Addr>)
      requires CacheValid() && ExactBut(refCount, doomed, rest + multiset{a})
      requires a in refCount && refCount[a] == count + 1
      ensures NodesCounted(fileCache, pins, refCount[a := count])
      ensures ExactBut(refCount[a := count], doomed, rest)
    {
      SharedBut(refCount, doomed, rest, a, count);
      NodeCountChanged(fileCache, pins, refCount, a, count);
    }

    /** An address with further holds or links loses one. */
    method ReleaseSharedNode(a: Addr, ghost doomed: set<Addr>, ghost rest: multiset<Addr>)
      requires CacheValid() && ExactBut(refCount, doomed, holds) && holds == rest + multiset{a}
      requires a in refCount && refCount[a] > 1
      modifies this`refCount, this`holds
      ensures CacheValid() && ExactBut(refCount, doomed, holds) && holds == rest
    {
      var count := refCount[a] - 1;
      ReleaseSharedKeeps(a, count, doomed, rest);
      refCount, holds := refCount[a := count], rest;
    }

    /** A directory whose children have been released leaves the table and its node is let go. */
    method DropNode(a: Addr, ghost doomed: set<Addr>)
      requires CacheValid() && ExactBut(refCount, doomed + {a}, holds) && a !in doomed
      modifies this`refCount, this`fileCache
      ensures CacheValid() && ExactBut(refCount, doomed, holds) && fileCache.Keys == old(fileCache.Keys)
    {
      DoomedGone(refCount, doomed, holds, a);
      NodeNotCounted(fileCache, pins, refCount, a);
      assert fileCache[a := fileCache[a] - 1].Keys == fileCache.Keys;
      fileCache := fileCache[a := fileCache[a] - 1];
      if fileCache[a] < 0 {
        assert false;  // the fatal branch of Release
      }
      refCount := refCount - {a};
    }

    /** Undo one hold on a.  None of the branches that fail can be reached. */
    method RecursiveRelease(a: Addr, ghost doomed: set<Addr>, ghost rest: multiset<Addr>)
      requires CacheValid() && ExactBut(refCount, doomed, holds) && holds == rest + multiset{a}
      requires ClearOf(doomed, a)
      modifies this`refCount, this`fileCache, this`holds
      ensures CacheValid() && ExactBut(refCount, doomed, holds) && holds == rest
      ensures fileCache.Keys == old(fileCache.Keys)
      decreases a, 2
    {
      HeldIsCounted(refCount, doomed, rest, a);
      if a !in refCount {
        assert false;  // fatal: nothing to release
      }
      if refCount[a] <= 0 {
        assert false;  // fatal: released too often
      }
      if refCount[a] == 1 {
        ReleaseLastHold(a, doomed, rest);
      } else {
        ReleaseSharedNode(a, doomed, rest);
      }
    }

    method ReleaseLastHold(a: Addr, ghost doomed: set<Addr>, ghost rest: multiset<Addr>)
      requires CacheValid() && ExactBut(refCount, doomed, holds) && holds == rest + multiset{a}
      requires ClearOf(doomed, a) && a in refCount && refCount[a] == 1 && a !in doomed
      modifies this`refCount, this`fileCache, this`holds
      ensures CacheValid() && ExactBut(refCount, doomed, holds) && holds == rest
      ensures fileCache.Keys == old(fileCache.Keys)
      decreases a, 1
    {
      KnownNode(a);
      if ChildrenOf(a).Corrupt? {
        assert false;  // the children of a counted directory can be read
      }
      DoomedNext(refCount, doomed, rest, a);
      holds := rest + Bag(a, Kids(a).Keys);
      ReleaseChildren(a, doomed, rest);
      DropNode(a, doomed);
    }

    method ReleaseChildren(a: Addr, ghost doomed: set<Addr>, ghost rest: multiset<Addr>)
      requires CacheValid() && ExactBut(refCount, doomed + {a}, holds) && holds == rest + Bag(a, Kids(a).Keys)
      requires ClearOf(doomed, a)
      modifies this`refCount, this`fileCache, this`holds
      ensures CacheValid() && ExactBut(refCount, doomed + {a}, holds) && holds == rest
      ensures fileCache.Keys == old(fileCache.Keys)
      decreases a, 0
    {
      var todo := Kids(a).Keys;
      while todo != {}
        invariant todo <= Kids(a).Keys
        invariant CacheValid() && ExactBut(refCount, doomed + {a}, holds) && holds == rest + Bag(a, todo)
        invariant fileCache.Keys == old(fileCache.Keys)
      {
        var n :| n in todo;
        var child := Kids(a)[n];
        ReleaseStep(a, todo, n, doomed, rest);
        if child !in fileCache {
          assert false;  // a counted node is cached, so loading it cannot fail
        }
        todo := todo - {n};
        RecursiveRelease(child, doomed + {a}, rest + Bag(a, todo));
      }
    }

    lemma ReleaseStep(a: Addr, todo: set<Name>, n: Name, doomed: set<Addr>, rest: multiset<Addr>)
      requires todo <= Kids(a).Keys && n in todo && ClearOf(doomed, a)
      requires CacheValid() && ExactBut(refCount, doomed + {a}, rest + Bag(a, todo))
      ensures Kids(a)[n] < a && ClearOf(doomed + {a}, Kids(a)[n])
      ensures rest + Bag(a, todo) == rest + Bag(a, todo - {n}) + multiset{Kids(a)[n]}
      ensures Kids(a)[n] in fileCache
    {
      KidIsSmaller(a, n);
      KidClearOf(doomed, a, n);
      BagRemove(a, todo, n, rest);
      HeldIsCounted(refCount, doomed + {a}, rest + Bag(a, todo - {n}), Kids(a)[n]);
      KnownNode(Kids(a)[n]);
    }

    // ------------------------------------------------ lookups and links

    /** `FileNode.Take` by a caller of the store. */
    method TakeNode(m: Addr)
      requires CacheValid() && m in fileCache
      modifies this`fileCache, this`pins
      ensures CacheValid() && fileCache.Keys == old(fileCache.Keys) && pins == old(pins) + multiset{m}
      ensures old(Valid()) ==> Valid()
    {
      PinKeeps(m);
      NodeTake(m);
      pins := pins + multiset{m};
    }

    lemma PinKeeps(m: Addr)
      requires CacheValid() && m in fileCache
      ensures fileCache[m] >= 0 && NodesCounted(fileCache[m := fileCache[m] + 1], pins + multiset{m}, refCount)
      ensures fileCache[m := fileCache[m] + 1].Keys == fileCache.Keys
    {
      KnownNode(m);
      var cache := fileCache[m := fileCache[m] + 1];
      assert cache.Keys == fileCache.Keys;
      forall x ensures IsNodeCounted(cache, pins + multiset{m}, refCount, x) {
        assert IsNodeCounted(fileCache, pins, refCount, x);
      }
    }

    /** `FileNode.Release` by a caller that holds a reference. */
    method ReleaseNode(m: Addr, ghost rest: multiset<Addr>)
      requires CacheValid() && pins == rest + multiset{m}
      modifies this`fileCache, this`pins
      ensures CacheValid() && fileCache.Keys == old(fileCache.Keys) && pins == rest
      ensures old(Valid()) ==> Valid()
    {
      UnpinKeeps(m, rest);
      fileCache, pins := fileCache[m := fileCache[m] - 1], rest;
      if fileCache[m] < 0 {
        assert false;  // the fatal branch
      }
    }

    lemma UnpinKeeps(m: Addr, rest: multiset<Addr>)
      requires CacheValid() && pins == rest + multiset{m}
      ensures m in fileCache && fileCache[m] > 0
      ensures NodesCounted(fileCache[m := fileCache[m] - 1], rest, refCount)
      ensures fileCache[m := fileCache[m] - 1].Keys == fileCache.Keys
    {
      KnownNode(m);
      var cache := fileCache[m := fileCache[m] - 1];
      assert cache.Keys == fileCache.Keys;
      forall x ensures IsNodeCounted(cache, rest, refCount, x) {
        assert IsNodeCounted(fileCache, pins, refCount, x);
      }
    }

    method ResolveStep(current: Option<Addr>, part: Name, now: int) returns (o: Outcome)
      requires CacheValid() && (current.Some? ==> current.value in fileCache && IsNode(current.value))
      modifies this`fileCache, this`outside, blobStore
      ensures CacheValid() && old(fileCache.Keys) <= fileCache.Keys
      ensures o == StepOutcome(old(Present()), current, part) && Present() <= old(Present())
      ensures !o.Internal? ==> Present() == old(Present())
      ensures o.Found? ==> o.addr in fileCache
    {
      o := NotFound;
      if current.Some? {
        if current.value.kind.File? {
          o := NotDirectory;
        } else if ChildrenOf(current.value).Corrupt? {
          o := Internal;
        } else if part in current.value.content.entries {
          var child := current.value.content.entries[part];
          var ok := LoadFileNode(child, now);
          o := if ok then Found(child) else Internal;
        }
      }
    }

    method ResolveFromLocal(start: Addr, path: Path, now: int) returns (pairs: seq<PathNodePair>)
      requires CacheValid() && start in fileCache && IsNode(start)
      modifies this`fileCache, this`outside, this`pins, blobStore
      ensures CacheValid() && old(fileCache.Keys) <= fileCache.Keys && pins == old(pins)
      ensures old(Valid()) ==> Valid()
      ensures pairs == Resolve(old(Present()), start, path) && Present() <= old(Present())
      ensures Complete(old(Present()), start) ==> Present() == old(Present())
    {
      ghost var present := Present();
      TakeNode(start);
      pairs := [PathNodePair([], Found(start))];
      var current, prefix, i := Some(start), [], 0;
      while i < |path|
        invariant 0 <= i <= |path|
        invariant CacheValid() && old(fileCache.Keys) <= fileCache.Keys && pins == old(pins) + multiset{start}
        invariant Present() <= present
        invariant current.Some? ==> current.value in fileCache && IsNode(current.value) && Present() == present
        invariant pairs + Walk(present, current, prefix, path[i..]) == Resolve(present, start, path)
        invariant Complete(present, start) ==>
          Present() == present && (current.Some? ==> Complete(present, current.value))
      {
        ghost var rest := path[i..];
        assert rest[1..] == path[i + 1..];
        var part := path[i];
        i := i + 1;
        if part != "" {
          WalkStep(present, current, prefix, rest, pairs);
          if Complete(present, start) { StepComplete(present, current, part); }
          prefix := prefix + [part];
          var o := ResolveStep(current, part, now);
          pairs, current := pairs + [PathNodePair(prefix, o)], FoundNode(o);
        }
      }
      ReleaseNode(start, old(pins));
    }

    /** The last segment of a link: load the target and rebuild the directory that is to hold it. */
    method LinkHere(entries: map<Name, Addr>, n: Name, target: Option<Addr>, stamp: string, now: int)
      returns (r: Result<Addr, Error>)
      requires CacheValid() && (n == "" ==> target.Some?)
      modifies this`fileCache, this`outside, blobStore
      ensures CacheValid() && old(fileCache.Keys) <= fileCache.Keys
      ensures (target.Some? && !Loadable(old(Present()), target.value)) ==> r == Err(Unavailable)
      ensures (target.Some? ==> Loadable(old(Present()), target.value)) ==>
        && r == Ok(if n == "" then target.value else TreeNode(WithEntry(entries, n, target), stamp))
        && r.value in fileCache && outside == old(outside)
        && Present() == old(Present()) + if n == "" then {} else {r.value, r.value.content}
    {
      var ok := true;
      if target.Some? {
        ok := LoadFileNode(target.value, now);
      }
      if !ok {
        r := Err(Unavailable);
      } else if n == "" {
        r := Ok(target.value);
      } else {
        var node := CreateTreeNode(WithEntry(entries, n, target), stamp, now);
        r := Ok(node);
      }
    }

    method RecursiveLink(parts: Path, target: Option<Addr>, parent: Addr,
                         clock: (nat, nat) -> string, step: nat, now: int) returns (r: Result<Addr, Error>)
      requires CacheValid() && Linkable(parts, target) && IsNode(parent)
      modifies this`fileCache, this`outside, blobStore
      ensures CacheValid() && old(fileCache.Keys) <= fileCache.Keys
      ensures r == Link(old(Present()), parts, target, parent, clock, step)
      ensures r.Ok? ==> r.value in fileCache && outside == old(outside)
      ensures r.Ok? ==> Present() == old(Present()) + Written(r.value, parts)
      decreases |parts|, 1
    {
      match ChildrenOf(parent)
      case Corrupt => r := Err(Unavailable);
      case NoChildren => r := Err(NotDir);
      case Entries(entries) =>
        var n := parts[0];
        var ok := true;
        if n in entries {
          ok := LoadFileNode(entries[n], now);
        }
        if !ok {
          r := Err(Unavailable);
        } else if n !in entries && |parts| > 1 {
          r := Err(NotExist);
        } else if |parts| == 1 {
          r := LinkHere(entries, n, target, clock(step, 1), now);
          if r.Ok? { WrittenLast(r.value, parts, entries, target, clock(step, 1)); }
        } else {
          r := LinkBelow(parts, entries, target, clock, step, now);
        }
    }

    /** An inner segment of a link: link below the child, then rebuild this directory around the result. */
    method LinkBelow(parts: Path, entries: map<Name, Addr>, target: Option<Addr>,
                     clock: (nat, nat) -> string, step: nat, now: int) returns (r: Result<Addr, Error>)
      requires CacheValid() && Linkable(parts, target) && |parts| > 1
      requires parts[0] in entries && IsNode(entries[parts[0]])
      modifies this`fileCache, this`outside, blobStore
      ensures CacheValid() && old(fileCache.Keys) <= fileCache.Keys
      ensures var below := Link(old(Present()), parts[1..], target, entries[parts[0]], clock, step);
        r == match below { case Err(e) => below
                           case Ok(child) => Ok(TreeNode(entries[parts[0] := child], clock(step, |parts|))) }
      ensures r.Ok? ==> r.value in fileCache && outside == old(outside)
      ensures r.Ok? ==> Present() == old(Present()) + Written(r.value, parts)
      decreases |parts|, 0
    {
      r := RecursiveLink(parts[1..], target, entries[parts[0]], clock, step, now);
      if r.Ok? {
        ghost var below := r.value;
        var node := CreateTreeNode(entries[parts[0] := r.value], clock(step, |parts|), now);
        r := Ok(node);
        WrittenAbove(node, below, parts, old(Present()));
      }
    }

    /** `LinkOne` with its effects: one request of a batch. */
    method LinkRequestAt(req: LinkRequest, root: Addr, clock: (nat, nat) -> string, step: nat, now: int)
      returns (r: Result<Addr, Error>)
      requires CacheValid() && root in fileCache && IsNode(root)
      requires WellFormed(req) && (IsRootRequest(req) ==> req.newAddr.Some?)
      modifies this`fileCache, this`outside, blobStore
      ensures CacheValid() && old(fileCache.Keys) <= fileCache.Keys
      ensures r == LinkOne(old(Present()), root, req, clock, step).result
      ensures r.Ok? ==> r.value in fileCache && IsNode(r.value) && outside == old(outside)
      ensures r.Ok? ==> Present() == LinkOne(old(Present()), root, req, clock, step).present
    {
      if req.path != [] && req.path[0] == "" {
        r := Err(NotRelative);
      } else {
        r := RecursiveLink(LinkParts(req.path), req.newAddr, root, clock, step, now);
      }
    }

    // ------------------------------------------------ MultiLink

    lemma RootIsComplete()
      requires Valid()
      ensures rootAddr in refCount && rootAddr in fileCache
      ensures Complete(Present(), rootAddr)
    {
      assert IsExactAt(refCount, holds, rootAddr);
      KnownNode(rootAddr);
      CountedIsComplete(rootAddr);
    }

    /** Phase 1 for one request: judged against the committed tree. */
    method CheckRequestAt(req: LinkRequest, now: int) returns (e: Option<Error>)
      requires Valid()
      modifies this`fileCache, this`outside, this`pins, blobStore
      ensures CacheValid() && old(fileCache.Keys) <= fileCache.Keys
      ensures pins == old(pins) && Present() == old(Present())
      ensures e == CheckRequest(old(Present()), rootAddr, req)
    {
      RootIsComplete();
      e := None;
      if IsRootRequest(req) && req.newAddr.None? {
        e := Some(UnlinkRoot);
      } else if req.flags != 0 {
        if req.path != [] && req.path[0] == "" {
          e := Some(NotRelative);
        } else {
          WalkFindsNodes(Present(), Some(rootAddr), [], req.path);
          var pairs := ResolveFromLocal(rootAddr, req.path, now);
          e := Verdict(pairs, req);
        }
      }
    }

    /** Phase 1. */
    method CheckRequests(reqs: seq<LinkRequest>, now: int) returns (e: Option<Error>)
      requires Valid()
      modifies this`fileCache, this`outside, this`pins, blobStore
      ensures Valid() && old(fileCache.Keys) <= fileCache.Keys
      ensures pins == old(pins) && Present() == old(Present())
      ensures e == FirstFailure(Present(), rootAddr, reqs)
    {
      e := None;
      var i := 0;
      while i < |reqs| && e.None?
        invariant 0 <= i <= |reqs|
        invariant CacheValid() && old(fileCache.Keys) <= fileCache.Keys
        invariant pins == old(pins) && Present() == old(Present())
        invariant FirstFailure(Present(), rootAddr, reqs)
               == if e.Some? then e else FirstFailure(Present(), rootAddr, reqs[i..])
      {
        assert reqs[i..][1..] == reqs[i + 1..];
        e := CheckRequestAt(reqs[i], now);
        i := i + 1;
      }
    }

    /** Phase 2: each request is applied to the tree the one before it produced. */
    method BuildTree(reqs: seq<LinkRequest>, clock: (nat, nat) -> string, now: int) returns (r: Result<Addr, Error>)
      requires Valid()
      requires forall i :: 0 <= i < |reqs| ==>
        WellFormed(reqs[i]) && (IsRootRequest(reqs[i]) ==> reqs[i].newAddr.Some?)
      modifies this`fileCache, this`outside, blobStore
      ensures Valid() && old(fileCache.Keys) <= fileCache.Keys
      ensures r == LinkAll(old(Present()), rootAddr, reqs, clock, 0).result
      ensures r.Ok? ==> r.value in fileCache && outside == old(outside)
      ensures r.Ok? ==> Present() == LinkAll(old(Present()), rootAddr, reqs, clock, 0).present
    {
      RootIsComplete();
      ghost var plan := LinkAll(Present(), rootAddr, reqs, clock, 0);
      var newRoot := rootAddr;
      r := Ok(newRoot);
      var i := 0;
      while i < |reqs| && r.Ok?
        invariant 0 <= i <= |reqs|
        invariant CacheValid() && old(fileCache.Keys) <= fileCache.Keys
        invariant r.Ok? ==> r.value in fileCache && IsNode(r.value) && outside == old(outside)
        invariant r.Ok? ==> plan == LinkAll(Present(), r.value, reqs, clock, i)
        invariant r.Err? ==> plan.result == r
      {
        r := LinkRequestAt(reqs[i], r.value, clock, i, now);
        i := i + 1;
      }
    }

    /** Phases 1 to 3. */
    method Propose(reqs: seq<LinkRequest>, clock: (nat, nat) -> string,
                   approve: (Addr, Addr, seq<LinkRequest>) -> bool, now: int) returns (r: Result<Addr, Error>)
      requires Valid()
      requires forall i :: 0 <= i < |reqs| ==> WellFormed(reqs[i])
      modifies this`fileCache, this`outside, this`pins, blobStore
      ensures Valid() && old(fileCache.Keys) <= fileCache.Keys && pins == old(pins)
      ensures r == Proposal(old(Present()), rootAddr, reqs, clock, approve).result
      ensures r.Ok? ==> r.value in fileCache && IsNode(r.value)
      ensures r.Ok? ==> Present() == Proposal(old(Present()), rootAddr, reqs, clock, approve).present
    {
      var e := CheckRequests(reqs, now);
      if e.Some? {
        r := Err(e.value);
      } else {
        NoRootUnlink(Present(), rootAddr, reqs);
        r := BuildTree(reqs, clock, now);
        if r.Ok? { KnownNode(r.value); }
        if r.Ok? && !approve(rootAddr, r.value, reqs) {
          r := Err(Denied);
        }
      }
    }

    /** A take from the top: all of it, or no trace in the counts. */
    method TakeRoot(a: Addr, now: int) returns (ok: bool)
      requires CountsValid() && a in fileCache
      modifies this`refCount, this`fileCache, this`holds, this`outside, blobStore
      ensures CountsValid() && old(fileCache.Keys) <= fileCache.Keys
      ensures ok <==> Complete(old(Present()), a)
      ensures ok ==> holds == old(holds) + multiset{a} && Present() == old(Present()) && outside == old(outside)
      ensures !ok ==> refCount == old(refCount) && holds == old(holds)
    {
      ghost var before := holds;
      var taken;
      ok, taken := RecursiveTake(a, [], now, refCount);
      if !ok {
        holds := before;
      }
    }

    method ReleaseRoot(a: Addr, ghost rest: multiset<Addr>)
      requires CountsValid() && holds == rest + multiset{a}
      modifies this`refCount, this`fileCache, this`holds
      ensures CountsValid() && holds == rest && fileCache.Keys == old(fileCache.Keys)
    {
      NoneDoomed(refCount, holds);
      RecursiveRelease(a, {}, rest);
      NoneDoomed(refCount, holds);
    }

    method SetRoot(addr: Addr, serial: nat)
      requires CountsValid() && addr in holds && IsNode(addr)
      modifies this`rootAddr, this`serialNumber
      ensures Valid() && rootAddr == addr && serialNumber == serial
    {
      rootAddr, serialNumber := addr, serial;
    }

    /** Both roots are held: let the old one go and install the new one. */
    method SwapRoot(newRoot: Addr, ghost others: multiset<Addr>)
      requires CountsValid() && holds == others + multiset{rootAddr} + multiset{newRoot} && IsNode(newRoot)
      modifies this`refCount, this`fileCache, this`holds, this`rootAddr, this`serialNumber
      ensures Valid() && holds == others + multiset{newRoot}
      ensures rootAddr == newRoot && serialNumber == old(serialNumber) + 1
    {
      HoldsReorder(others, rootAddr, newRoot);
      ReleaseRoot(rootAddr, others + multiset{newRoot});
      SetRoot(newRoot, serialNumber + 1);
    }

    /** Phase 5: keep the new tree alive, then let go of the old one and swap. */
    method Commit(newRoot: Addr, now: int, ghost others: multiset<Addr>) returns (r: Result<Addr, Error>)
      requires Valid() && holds == others + multiset{rootAddr} && newRoot in fileCache && IsNode(newRoot)
      modifies this`refCount, this`fileCache, this`holds, this`outside, this`rootAddr, this`serialNumber, blobStore
      ensures Valid()
      ensures r == if Complete(old(Present()), newRoot) then Ok(newRoot) else Err(Unavailable)
      ensures r.Ok? ==> rootAddr == newRoot && serialNumber == old(serialNumber) + 1
      ensures r.Ok? ==> holds == others + multiset{newRoot}
      ensures r.Err? ==> rootAddr == old(rootAddr) && serialNumber == old(serialNumber)
      ensures r.Err? ==> refCount == old(refCount) && holds == old(holds)
    {
      var ok := TakeRoot(newRoot, now);
      if ok {
        SwapRoot(newRoot, others);
        r := Ok(newRoot);
      } else {
        r := Err(Unavailable);
      }
    }

    /** What the new tree has to say about one request, unless its path has been dealt with. */
    method RespondTo(newRoot: Addr, path: Path, entries: seq<ResponseEntry>, now: int) returns (more: seq<ResponseEntry>)
      requires CacheValid() && newRoot in fileCache && IsNode(newRoot)
      modifies this`fileCache, this`outside, this`pins, blobStore
      ensures CacheValid() && old(fileCache.Keys) <= fileCache.Keys && pins == old(pins) && Present() <= old(Present())
      ensures Complete(old(Present()), newRoot) ==> Present() == old(Present())
      ensures more ==
        if Mentions(entries, path) then entries else AddAnswer(entries, path, Resolve(old(Present()), newRoot, path))
    {
      more := entries;
      if !Mentions(entries, path) {
        var pairs := ResolveFromLocal(newRoot, path, now);
        more := Answer(entries, path, pairs);
      }
    }

    /** Phase 4: what the batch leads to, resolved in the new tree. */
    method BuildResponse(newRoot: Addr, reqs: seq<LinkRequest>, now: int) returns (entries: seq<ResponseEntry>)
      requires CacheValid() && newRoot in fileCache && IsNode(newRoot)
      modifies this`fileCache, this`outside, this`pins, blobStore
      ensures CacheValid() && old(fileCache.Keys) <= fileCache.Keys && pins == old(pins) && Present() <= old(Present())
      ensures Complete(old(Present()), newRoot) ==>
        Present() == old(Present()) && entries == Response(Present(), newRoot, reqs)
    {
      ghost var present := Present();
      entries := [];
      var i := 0;
      while i < |reqs|
        invariant 0 <= i <= |reqs|
        invariant CacheValid() && old(fileCache.Keys) <= fileCache.Keys && pins == old(pins) && Present() <= present
        invariant Complete(present, newRoot) ==>
          Present() == present && entries == Response(present, newRoot, reqs[..i])
      {
        ResponseNext(present, newRoot, reqs, i);
        entries := RespondTo(newRoot, reqs[i].path, entries, now);
        i := i + 1;
      }
      assert reqs[..i] == reqs;
    }

    /** Phases 4 and 5: unless the lookup callbacks object to the response, the new tree is committed. */
    method RespondAndCommit(newRoot: Addr, reqs: seq<LinkRequest>, respond: Option<Responder>, now: int,
                            ghost others: multiset<Addr>)
      returns (r: Result<Addr, Error>, response: seq<ResponseEntry>)
      requires Valid() && holds == others + multiset{rootAddr} && newRoot in fileCache && IsNode(newRoot)
      modifies this, blobStore
      ensures Valid() && pins == old(pins)
      ensures IsVerdict(old(Present()), newRoot, reqs, respond, r) && (r.Err? || respond.None? ==> response == [])
      ensures r.Ok? ==> rootAddr == newRoot && serialNumber == old(serialNumber) + 1
      ensures r.Ok? ==> holds == others + multiset{newRoot}
      ensures r.Ok? && respond.Some? ==>
        Some(response) == respond.value(Response(old(Present()), newRoot, reqs), reqs, newRoot)
      ensures r.Err? ==> rootAddr == old(rootAddr) && serialNumber == old(serialNumber)
      ensures r.Err? ==> refCount == old(refCount) && holds == old(holds)
    {
      ghost var present := Present();
      response := [];
      if respond.Some? {
        var entries := BuildResponse(newRoot, reqs, now);
        var allowed := respond.value(entries, reqs, newRoot);
        if allowed.None? {
          return Err(Denied), [];
        }
        response := allowed.value;
      }
      if Complete(Present(), newRoot) { CompleteMonotone(Present(), present, newRoot); }
      r := Commit(newRoot, now, others);
      if r.Err? {
        response := [];
      }
    }

    /**
      A batch of links, all or nothing.  approve stands for the registered link callbacks and respond, where
      results are asked for, for the lookup callbacks.  On success the root is the planned tree, the serial
      number has gone up by one and the response is about the new tree; on any failure the root, the serial
      number and every count are as before.
    */
    method MultiLink(reqs: seq<LinkRequest>, clock: (nat, nat) -> string,
                     approve: (Addr, Addr, seq<LinkRequest>) -> bool, respond: Option<Responder>, now: int,
                     ghost others: multiset<Addr>)
      returns (r: Result<Addr, Error>, response: seq<ResponseEntry>)
      requires Valid() && holds == others + multiset{rootAddr}
      requires forall i :: 0 <= i < |reqs| ==> WellFormed(reqs[i])
      modifies this, blobStore
      ensures Valid() && pins == old(pins)
      ensures var p := Proposal(old(Present()), old(rootAddr), reqs, clock, approve);
        && (p.result.Err? ==> r == p.result)
        && (p.result.Ok? ==> IsNode(p.result.value) && IsVerdict(p.present, p.result.value, reqs, respond, r))
        && (r.Ok? && respond.Some? ==> Some(response) == respond.value(Response(p.present, r.value, reqs), reqs, r.value))
      ensures var plan := MultiLinkPlan(old(Present()), old(rootAddr), reqs, clock, approve);
        && (r.Ok? <==> plan.result.Ok? && !Vetoed(plan.present, plan.result.value, reqs, respond))
        && (r.Ok? || respond.None? ==> r == plan.result)
      ensures r.Err? || respond.None? ==> response == []
      ensures r.Ok? ==> rootAddr == r.value && serialNumber == old(serialNumber) + 1
      ensures r.Ok? ==> holds == others + multiset{rootAddr}
      ensures r.Err? ==> rootAddr == old(rootAddr) && serialNumber == old(serialNumber)
      ensures r.Err? ==> refCount == old(refCount) && holds == old(holds)
    {
      PlanFollowsProposal(Present(), rootAddr, reqs, clock, approve);
      response := [];
      r := Propose(reqs, clock, approve, now);
      if r.Ok? {
        r, response := RespondAndCommit(r.value, reqs, respond, now, others);
      }
    }

    // ------------------------------------------------ the life of a volume

    method CreateRoot(stamp: string, now: int) returns (root: Addr)
      requires CountsValid()
      modifies this`refCount, this`fileCache, this`holds, this`outside, blobStore
      ensures CountsValid() && root == TreeNode(map[], stamp) && holds == old(holds) + multiset{root}
    {
      root := CreateTreeNode(map[], stamp, now);
      CachedIsLoadable(root);
      EmptyIsComplete(Present(), stamp);
      var ok := TakeRoot(root, now);
    }

    /** `EmptyNameStore`: the root is a new empty directory, at serial number zero. */
    method Initialize(stamp: string, now: int)
      requires CountsValid() && holds == multiset{}
      modifies this`refCount, this`fileCache, this`holds, this`outside, this`rootAddr, this`serialNumber, blobStore
      ensures Valid() && serialNumber == 0
      ensures rootAddr == TreeNode(map[], stamp) && holds == multiset{rootAddr}
    {
      var root := CreateRoot(stamp, now);
      assert holds == multiset{root};
      SetRoot(root, 0);
    }

    /** Opening a stored volume.  The hold on the initial, empty root is never given back. */
    method DeserializeNameStore(addr: Addr, serial: nat, now: int) returns (ok: bool)
      requires Valid()
      modifies this`refCount, this`fileCache, this`holds, this`outside, this`rootAddr, this`serialNumber, blobStore
      ensures Valid()
      ensures ok <==> Complete(old(Present()), addr)
      ensures ok ==> rootAddr == addr && serialNumber == serial && holds == old(holds) + multiset{addr}
      ensures !ok ==> rootAddr == old(rootAddr) && serialNumber == old(serialNumber)
      ensures !ok ==> refCount == old(refCount) && holds == old(holds)
    {
      ok := LoadAndTake(addr, now);
      if ok {
        SetRoot(addr, serial);
      }
    }

    method LoadAndTake(addr: Addr, now: int) returns (ok: bool)
      requires CountsValid()
      modifies this`refCount, this`fileCache, this`holds, this`outside, blobStore
      ensures CountsValid()
      ensures ok <==> Complete(old(Present()), addr)
      ensures ok ==> holds == old(holds) + multiset{addr}
      ensures !ok ==> refCount == old(refCount) && holds == old(holds)
    {
      ok := LoadFileNode(addr, now);
      if ok {
        ok := TakeRoot(addr, now);
      }
    }

    /**
      A node by its address, with a reference for the caller.  Nothing is locked between the load and the take,
      so cleanup may run there: the reference then comes too late exactly if nobody else refers to the node.
    */
    method GetFileNode(a: Addr, cleanupBetween: bool, now: int) returns (outcome: GetOutcome)
      requires Valid()
      modifies this`fileCache, this`outside, this`pins, blobStore
      ensures Valid()
      ensures outcome.Missing? <==> !Loadable(old(Present()), a)
      ensures outcome.TooLate? <==>
        Loadable(old(Present()), a) && cleanupBetween && a !in old(refCount) && a !in old(pins)
      ensures outcome.Pinned? ==> a in fileCache && pins == old(pins) + multiset{a}
      ensures outcome.TooLate? ==> a !in fileCache
      ensures !outcome.Pinned? ==> pins == old(pins)
    {
      var ok := LoadFileNode(a, now);
      if !ok {
        return Missing;
      }
      if cleanupBetween {
        CountsMeaning(a);
        Cleanup(now);
      }
      if a !in fileCache {
        return TooLate;
      }
      TakeNode(a);
      return Pinned;
    }

    /** A node nobody refers to leaves the cache and gives back its two blob references. */
    method DropCachedNode(m: Addr, now: int)
      requires CacheValid() && m in fileCache && fileCache[m] == 0
      modifies this`fileCache, this`outside, blobStore
      ensures CacheValid() && fileCache == old(fileCache) - {m} && outside == old(outside)
    {
      KnownNode(m);
      if m in refCount {
        assert false;  // the panic: unreferenced, yet counted
      }
      UncacheKeeps(m);
      fileCache, outside := fileCache - {m}, outside + Share(m);
      ReleaseShare(m, old(outside), now);
    }

    lemma UncacheKeeps(m: Addr)
      requires CacheValid() && m in fileCache && fileCache[m] == 0
      ensures NodesCounted(fileCache - {m}, pins, refCount)
      ensures Accounted(blobStore.files, (fileCache - {m}).Keys, outside + Share(m))
    {
      NodeRemoved(blobStore.files, fileCache.Keys, outside, m);
      var cache := fileCache - {m};
      assert cache.Keys == fileCache.Keys - {m};
      KnownNode(m);
      forall x ensures IsNodeCounted(cache, pins, refCount, x) {
        assert IsNodeCounted(fileCache, pins, refCount, x);
      }
    }

    method ReleaseShare(m: Addr, ghost rest: multiset<Addr>, now: int)
      requires CacheValid() && outside == rest + Share(m)
      modifies this`outside, blobStore
      ensures CacheValid() && outside == rest
    {
      assert outside == rest + multiset{ContentOf(m)} + multiset{m};
      ReleaseBlob(m, rest + multiset{ContentOf(m)}, now);
      ReleaseBlob(ContentOf(m), rest, now);
    }

    /** `CleanupUnreferencedNodes`: exactly the nodes without references leave the cache. */
    method Cleanup(now: int)
      requires Valid()
      modifies this`fileCache, this`outside, blobStore
      ensures Valid() && outside == old(outside)
      ensures fileCache == Swept(old(fileCache), {})
      ensures forall m :: m in fileCache <==> m in old(fileCache) && (m in pins || m in refCount)
    {
      forall m | m in fileCache ensures fileCache[m] != 0 <==> m in pins || m in refCount {
        KnownNode(m);
      }
      var todo := fileCache.Keys;
      while todo != {}
        invariant todo <= old(fileCache).Keys
        invariant CacheValid() && outside == old(outside)
        invariant fileCache == Swept(old(fileCache), todo)
      {
        var m :| m in todo;
        todo := todo - {m};
        if fileCache[m] == 0 {
          DropCachedNode(m, now);
        }
      }
    }

    // Two of the model's findings at an input.

    /** Loading a node of unknown type fails and leaves a reference on its content that nobody will give back. */
    method LoadUnknown(c: Addr, now: int) returns (ok: bool)
      requires Valid()
      modifies this`fileCache, this`outside, blobStore
      ensures Valid() && !ok
      ensures outside == old(outside) + multiset{c, Metadata(Unknown, c, "")} + multiset{c}
    {
      Upload(c);
      Upload(Metadata(Unknown, c, ""));
      ok := LoadFileNode(Metadata(Unknown, c, ""), now);
    }

    /** Cleanup between the load and the take of a file that has just been uploaded: the reference comes too late. */
    method GetTooLate(c: Addr, now: int) returns (outcome: GetOutcome)
      requires Valid() && Metadata(File, c, "") !in refCount && Metadata(File, c, "") !in pins
      modifies this`fileCache, this`outside, this`pins, blobStore
      ensures Valid() && outcome.TooLate? && Metadata(File, c, "") !in fileCache
    {
      Upload(c);
      Upload(Metadata(File, c, ""));
      outcome := GetFileNode(Metadata(File, c, ""), true, now);
    }

    // What others do on the shared blob store.

    /** A client uploads a block and holds a reference to it. */
    method Upload(a: Addr)
      requires Valid()
      modifies this`outside, blobStore
      ensures Valid() && Present() == old(Present()) + {a} && outside == old(outside) + multiset{a}
    {
      AddBlock(a);
    }

    /** A client lets go of a reference it holds. */
    method EndUpload(a: Addr, now: int)
      requires Valid() && a in outside
      modifies this`outside, blobStore
      ensures Valid() && Present() <= old(Present()) && outside == old(outside) - multiset{a}
    {
      assert outside == outside - multiset{a} + multiset{a};
      ReleaseBlob(a, outside - multiset{a}, now);
    }

    /** The eviction worker. */
    method Evict(now: int)
      requires Valid()
      modifies blobStore
      ensures Valid() && blobStore.files == Surviving(old(blobStore.files), {}, now)
      ensures forall m :: m in fileCache ==> Loadable(Present(), m)
    {
      EvictKeeps(blobStore.files, fileCache.Keys, outside, now);
      blobStore.EvictOldFiles(now);
      forall m | m in fileCache ensures Loadable(Present(), m) { CachedIsLoadable(m); }
    }

    // ------------------------------------------------ what every state of every run satisfies

    lemma NothingCounted()
      ensures Exact(map[], multiset{})
    {
      forall a ensures CountOf(map[], a) == multiset{}[a] + |LinksTo({}, a)| {
        assert LinksTo({}, a) == {};
      }
    }

    /**
      Collection safety: whatever the volume's root reaches is cached, is counted, and has both its blobs in
      the store with a reference on each.
    */
    lemma ReachableIsKept(a: Addr)
      requires Valid() && Reaches(rootAddr, a)
      ensures a in fileCache && IsNode(a) && fileCache[a] > 0 && a in refCount
      ensures a in blobStore.files && blobStore.files[a].refCount > 0
      ensures a.content in blobStore.files && blobStore.files[a.content].refCount > 0
    {
      RootIsComplete();
      CountedFromHold(refCount, holds, rootAddr, a);
      KnownNode(a);
      NodeOwnsItsBlobs(blobStore.files, fileCache.Keys, outside, a);
    }

    /** The table holds exactly what some hold reaches, and each count is its holds plus its live links. */
    lemma CountsMeaning(a: Addr)
      requires Valid()
      ensures a in refCount <==> exists root :: root in holds && Reaches(root, a)
      ensures CountOf(refCount, a) == holds[a] + |LinksTo(refCount.Keys, a)|
      ensures a in fileCache ==> fileCache[a] == pins[a] + if a in refCount then 1 else 0
    {
      CountedIffReachable(refCount, holds, a);
      assert IsExactAt(refCount, holds, a) && IsNodeCounted(fileCache, pins, refCount, a);
    }

    /** Every reference on a blob belongs to a cached node, one on its metadata and one on its content, or is held elsewhere. */
    lemma BlobCountsMeaning(a: Addr)
      requires Valid()
      ensures RefOf(blobStore.files, a)
           == outside[a] + (if a in fileCache then 1 else 0) + |set m | m in fileCache && ContentOf(m) == a|
    {
      OwnedCounts(fileCache.Keys, a);
      assert IsAccounted(blobStore.files, fileCache.Keys, outside, a);
      assert (set m | m in fileCache && ContentOf(m) == a) == WithContent(fileCache.Keys, a);
    }
  }

  /** A cache from which the unreferenced nodes are gone, save those still to be looked at. */
  function Swept(cache: map<Addr, int>, todo: set<Addr>): map<Addr, int> {
    map m | m in cache && (m in todo || cache[m] != 0) :: cache[m]
  }

  lemma EmptyIsComplete(present: set<Addr>, stamp: string)
    requires Loadable(present, TreeNode(map[], stamp))
    ensures Complete(present, TreeNode(map[], stamp))
  {
  }

  lemma HoldsReorder(holds: multiset<Addr>, a: Addr, b: Addr)
    ensures holds + multiset{a} + multiset{b} == holds + multiset{b} + multiset{a}
  {
  }

  /** What the answer to a lookup means for a request's assertion. */
  function Verdict(pairs: seq<PathNodePair>, req: LinkRequest): Option<Error>
    requires pairs != []
    requires forall i :: 0 <= i < |pairs| && pairs[i].outcome.Found? ==> IsNode(pairs[i].outcome.addr)
  {
    match Leaf(pairs).outcome
    case Found(a) => if FlagsHold(Some(a), req.prevAddr, req.flags) then None else Some(AssertionFailed)
    case NotFound =>
      if |pairs| < 2 || !pairs[|pairs| - 2].outcome.Found? then Some(NotExist)
      else if FlagsHold(None, req.prevAddr, req.flags) then None else Some(AssertionFailed)
    case _ => Some(NotExist)
  }

  lemma WrittenLast(node: Addr, parts: Path, entries: map<Name, Addr>, target: Option<Addr>, stamp: string)
    requires |parts| == 1
    requires parts != [""] ==> node == TreeNode(WithEntry(entries, parts[0], target), stamp)
    ensures Written(node, parts) == if parts[0] == "" then {} else {node, node.content}
  {
    if parts[0] != "" && parts[0] in Kids(node) { assert Written(Kids(node)[parts[0]], parts[1..]) == {}; }
  }

  lemma WrittenAbove(node: Addr, below: Addr, parts: Path, present: set<Addr>)
    requires |parts| > 1 && parts[0] in Kids(node) && Kids(node)[parts[0]] == below
    ensures present + Written(below, parts[1..]) + {node, node.content} == present + Written(node, parts)
  {
  }
}
