/**
  The client's walk through its own caches, and the mini-roots it starts from
  (class GritsVolume in client/lib/grits/GritsClient.js).
*/
module FastWalk {
  import opened Wrappers
  import opened Merkle
  import opened PathTree
  import R = Requests

  /** A full hit; how far the cache reached and what is left to ask for; or an error in the path itself. */
  datatype WalkResult =
    | Hit(node: Addr)
    | Partial(node: Addr, rest: Path)
    | Failed
    | Astray(rest: Path)   // partial, but with something that is no address to continue from

  /** Names that every JavaScript object answers to, whatever its own entries are. */
  const INHERITED: set<Name> := {
    "constructor", "hasOwnProperty", "isPrototypeOf", "propertyIsEnumerable", "toLocaleString", "toString", "valueOf",
    "__proto__", "__defineGetter__", "__defineSetter__", "__lookupGetter__", "__lookupSetter__"
  }

  /** The keys of a node's metadata. */
  const METADATA_KEYS: set<Name> := {"type", "size", "contentHash", "mode", "timestamp"}

  /** `_unmarshal` finds the blob in a cache and it parses; caches are keyed by content, so it is the right blob. */
  predicate Readable(cache: set<Addr>, a: Addr) {
    a in cache && !a.Bytes?
  }

  /** The cache has all that one step of the walk from a reads. */
  predicate StepReadable(cache: set<Addr>, a: Addr) {
    Readable(cache, a) && (a.Metadata? && a.kind.Dir? ==> Readable(cache, a.content))
  }

  /** A directory whose listing is some other kind of JSON; no tree built by the server holds one. */
  predicate IsGarbled(a: Addr) {
    a.Metadata? && a.kind.Dir? && a.content.Metadata?
  }

  /** Something other than an entry answers to the name in what is taken for a directory. */
  predicate Misleads(a: Addr, n: Name) {
    (IsGarbled(a) && n in METADATA_KEYS + INHERITED) || (IsDir(a) && n in INHERITED)
  }

  /** The first k segments lead to a node, through directories that can all be read. */
  ghost predicate IsReached(cache: set<Addr>, start: Addr, parts: Path, k: nat) {
    && k <= |parts| && Lookup(start, parts[..k]).Some?
    && forall j :: 0 <= j < k ==> CanPass(cache, start, parts[..j])
  }

  ghost predicate CanPass(cache: set<Addr>, start: Addr, path: Path) {
    Lookup(start, path).Some? && StepReadable(cache, Lookup(start, path).value)
  }

  /** The walk gets as far as k segments: none is left, or the next cannot be read or is no entry of the node there. */
  ghost predicate StopsAt(cache: set<Addr>, start: Addr, parts: Path, k: nat) {
    && IsReached(cache, start, parts, k)
    && (k < |parts| && CanPass(cache, start, parts[..k]) ==> parts[k] !in Kids(Lookup(start, parts[..k]).value))
  }

  /** What is returned there. */
  ghost predicate IsResultAt(cache: set<Addr>, start: Addr, parts: Path, k: nat, r: WalkResult)
    requires StopsAt(cache, start, parts, k)
  {
    var x := Lookup(start, parts[..k]).value;
    if k == |parts| then r == if Readable(cache, x) then Hit(x) else Partial(x, [])
    else if !StepReadable(cache, x) then r == Partial(x, parts[k..])
    else r == if Misleads(x, parts[k]) then Astray(parts[k + 1..]) else Failed
  }

  ghost predicate IsWalk(cache: set<Addr>, start: Addr, parts: Path, r: WalkResult) {
    exists k: nat :: StopsAt(cache, start, parts, k) && IsResultAt(cache, start, parts, k, r)
  }

  /** `_fastWalk`, from the address of a mini-root along the segments below it. */
  method FastWalk(cache: set<Addr>, start: Addr, parts: Path) returns (r: WalkResult)
    ensures IsWalk(cache, start, parts, r)
  {
    var metaHash := start;
    var i := 0;
    while i < |parts|
      invariant 0 <= i <= |parts| && Lookup(start, parts[..i]) == Some(metaHash)
      invariant IsReached(cache, start, parts, i)
    {
      StepOfLookup(start, parts, i);
      assert parts[i] !in Kids(metaHash) || !StepReadable(cache, metaHash) ==> StopsAt(cache, start, parts, i);
      if !Readable(cache, metaHash) {
        return Partial(metaHash, parts[i..]);
      }
      if !(metaHash.Metadata? && metaHash.kind.Dir?) {
        return Failed;
      }
      if !Readable(cache, metaHash.content) {
        return Partial(metaHash, parts[i..]);
      }
      if IsGarbled(metaHash) {
        if parts[i] in METADATA_KEYS + INHERITED {
          return Astray(parts[i + 1..]);
        }
        return Failed;
      }
      var dir := metaHash.content.entries;
      if parts[i] !in dir {
        if parts[i] in INHERITED {
          return Astray(parts[i + 1..]);
        }
        return Failed;
      }
      var child := dir[parts[i]];
      ReachedNext(cache, start, parts, i);
      if !Readable(cache, child) {
        assert StopsAt(cache, start, parts, i + 1);
        return Partial(child, parts[i + 1..]);
      }
      metaHash := child;
      i := i + 1;
    }
    assert parts[..i] == parts && StopsAt(cache, start, parts, i);
    if !Readable(cache, metaHash) {
      return Partial(metaHash, []);
    }
    return Hit(metaHash);
  }

  lemma ReachedNext(cache: set<Addr>, start: Addr, parts: Path, k: nat)
    requires k < |parts| && IsReached(cache, start, parts, k) && CanPass(cache, start, parts[..k])
    requires Lookup(start, parts[..k + 1]).Some?
    ensures IsReached(cache, start, parts, k + 1)
  {
  }

  /** What the node after i segments says about one segment more, and about the whole path. */
  lemma StepOfLookup(start: Addr, parts: Path, i: nat)
    requires i < |parts| && Lookup(start, parts[..i]).Some?
    ensures var x := Lookup(start, parts[..i]).value;
      if parts[i] in Kids(x) then Lookup(start, parts[..i + 1]) == Some(Kids(x)[parts[i]])
      else Lookup(start, parts).None?
  {
    var x := Lookup(start, parts[..i]).value;
    assert parts[..i + 1] == parts[..i] + [parts[i]];
    LookupConcat(start, parts[..i], [parts[i]]);
    if parts[i] !in Kids(x) {
      assert parts == parts[..i] + parts[i..];
      LookupConcat(start, parts[..i], parts[i..]);
    }
  }

  /** Beyond a segment that is no entry the path names nothing. */
  lemma NothingBeyond(start: Addr, parts: Path, k: nat, m: nat)
    requires k < m <= |parts| && Lookup(start, parts[..k]).Some?
    requires parts[k] !in Kids(Lookup(start, parts[..k]).value)
    ensures Lookup(start, parts[..m]).None?
  {
    assert parts[..m][..k] == parts[..k] && parts[..m][k] == parts[k];
    StepOfLookup(start, parts[..m], k);
  }

  /** There is one place only where a walk can stop. */
  lemma StopIsUnique(cache: set<Addr>, start: Addr, parts: Path, k: nat, m: nat)
    requires StopsAt(cache, start, parts, k) && StopsAt(cache, start, parts, m) && k <= m
    ensures k == m
  {
    if k < m {
      assert CanPass(cache, start, parts[..k]);
      NothingBeyond(start, parts, k, m);
    }
  }

  lemma ResultIsUnique(cache: set<Addr>, start: Addr, parts: Path, k: nat, r: WalkResult, s: WalkResult)
    requires StopsAt(cache, start, parts, k)
    requires IsResultAt(cache, start, parts, k, r) && IsResultAt(cache, start, parts, k, s)
    ensures r == s
  {
  }

  /** The cache, the start and the path determine the result of the walk. */
  lemma WalkIsDetermined(cache: set<Addr>, start: Addr, parts: Path, r: WalkResult, s: WalkResult)
    requires IsWalk(cache, start, parts, r) && IsWalk(cache, start, parts, s)
    ensures r == s
  {
    var k: nat :| StopsAt(cache, start, parts, k) && IsResultAt(cache, start, parts, k, r);
    var m: nat :| StopsAt(cache, start, parts, m) && IsResultAt(cache, start, parts, m, s);
    if k <= m { StopIsUnique(cache, start, parts, k, m); } else { StopIsUnique(cache, start, parts, m, k); }
    ResultIsUnique(cache, start, parts, k, r, s);
  }

  /** Where the walk stopped early, the rest of the path leads from there to the same node. */
  lemma PartialContinues(start: Addr, parts: Path, k: nat, node: Addr)
    requires k <= |parts| && Lookup(start, parts[..k]) == Some(node)
    ensures Lookup(start, parts) == Lookup(node, parts[k..])
  {
    assert parts == parts[..k] + parts[k..];
    LookupConcat(start, parts[..k], parts[k..]);
  }

  /** The walk hits exactly where all it needs is cached: the directories on the way, and the node itself. */
  lemma HitsExactly(cache: set<Addr>, start: Addr, parts: Path, r: WalkResult)
    requires IsWalk(cache, start, parts, r)
    ensures r.Hit? <==>
      && Lookup(start, parts).Some? && Readable(cache, Lookup(start, parts).value)
      && forall j :: 0 <= j < |parts| ==> CanPass(cache, start, parts[..j])
  {
    var k: nat :| StopsAt(cache, start, parts, k) && IsResultAt(cache, start, parts, k, r);
    assert parts[..|parts|] == parts;
    if Lookup(start, parts).Some? && forall j :: 0 <= j < |parts| ==> CanPass(cache, start, parts[..j]) {
      if k < |parts| {
        assert CanPass(cache, start, parts[..k]);
        NothingBeyond(start, parts, k, |parts|);
      }
    }
  }

  /** What each kind of result says about the path. */
  lemma ResultMeaning(cache: set<Addr>, start: Addr, parts: Path, r: WalkResult)
    requires IsWalk(cache, start, parts, r)
    ensures r.Hit? ==> Lookup(start, parts) == Some(r.node) && Readable(cache, r.node)
    ensures r.Failed? || r.Astray? ==> Lookup(start, parts).None?
    ensures r.Partial? ==> |r.rest| <= |parts| && r.rest == parts[|parts| - |r.rest|..]
    ensures r.Partial? ==> Lookup(start, parts[..|parts| - |r.rest|]) == Some(r.node) && !StepReadable(cache, r.node)
  {
    var k: nat :| StopsAt(cache, start, parts, k) && IsResultAt(cache, start, parts, k, r);
    assert parts[..|parts|] == parts;
    if r.Failed? || r.Astray? { NothingBeyond(start, parts, k, |parts|); }
  }

  /** What the server's walk reports for a path, in terms of the node the path names. */
  lemma ServerReports(present: set<Addr>, root: Addr, path: Path)
    requires Complete(present, root) && NoEmptySegment(path)
    ensures var outcome := Leaf(Resolve(present, root, path)).outcome;
      (outcome.Found? <==> Lookup(root, path).Some?) && (outcome.Found? ==> Some(outcome.addr) == Lookup(root, path))
  {
    ResolveMeaning(present, root, path);
    assert path[..|path|] == path;
  }

  /**
    The cached walk and the server agree, however little is cached: a hit is what the server finds, and an error
    is a path where it finds nothing.
  */
  lemma AgreesWithServer(cache: set<Addr>, present: set<Addr>, root: Addr, path: Path, r: WalkResult)
    requires Complete(present, root) && NoEmptySegment(path) && IsWalk(cache, root, path, r)
    ensures var outcome := Leaf(Resolve(present, root, path)).outcome;
      && (r.Hit? ==> outcome == Found(r.node))
      && (r.Failed? || r.Astray? ==> !outcome.Found?)
  {
    ServerReports(present, root, path);
    ResultMeaning(cache, root, path, r);
  }

  /** From where the cache gave out, the server finds for the rest what it finds from the root for the whole path. */
  lemma PartialAgreesWithServer(cache: set<Addr>, present: set<Addr>, root: Addr, path: Path, r: WalkResult)
    requires Complete(present, root) && NoEmptySegment(path) && IsWalk(cache, root, path, r) && r.Partial?
    ensures Complete(present, r.node) && NoEmptySegment(r.rest)
    ensures var whole, rest := Leaf(Resolve(present, root, path)).outcome, Leaf(Resolve(present, r.node, r.rest)).outcome;
      (whole.Found? <==> rest.Found?) && (whole.Found? ==> whole == rest)
  {
    ResultMeaning(cache, root, path, r);
    var k := |path| - |r.rest|;
    LookupReaches(root, path[..k]);
    CompleteBelow(present, root, r.node);
    PartialContinues(root, path, k, r.node);
    ServerReports(present, root, path);
    ServerReports(present, r.node, r.rest);
  }

  lemma PassesInTree(cache: set<Addr>, root: Addr, path: Path)
    requires Complete(cache, root) && Lookup(root, path).Some?
    ensures Readable(cache, Lookup(root, path).value) && CanPass(cache, root, path)
    ensures !IsGarbled(Lookup(root, path).value)
  {
    LookupReaches(root, path);
    CompleteBelow(cache, root, Lookup(root, path).value);
  }

  /** The first k segments lead to a directory where segment k is missing, and is an inherited name. */
  ghost predicate IsMisledAt(root: Addr, path: Path, k: nat) {
    && k < |path| && Lookup(root, path[..k]).Some? && IsDir(Lookup(root, path[..k]).value)
    && path[k] !in Kids(Lookup(root, path[..k]).value) && path[k] in INHERITED
  }

  ghost predicate IsMisled(root: Addr, path: Path) {
    exists k: nat :: IsMisledAt(root, path, k)
  }

  /**
    With all of the tree cached the walk is right about every path: it hits exactly what exists, and goes astray,
    where it should fail, exactly if the first name that is missing is an inherited one.
  */
  lemma AllCached(cache: set<Addr>, root: Addr, path: Path, r: WalkResult)
    requires Complete(cache, root) && IsWalk(cache, root, path, r)
    ensures !r.Partial?
    ensures r.Hit? <==> Lookup(root, path).Some?
    ensures r.Astray? <==> IsMisled(root, path)
  {
    var k: nat :| StopsAt(cache, root, path, k) && IsResultAt(cache, root, path, k, r);
    ResultMeaning(cache, root, path, r);
    PassesInTree(cache, root, path[..k]);
    assert path[..|path|] == path;
    assert r.Astray? ==> IsMisledAt(root, path, k);
    forall m: nat | IsMisledAt(root, path, m) ensures m == k {
      if k < m { NothingBeyond(root, path, k, m); }
      if m < k { NothingBeyond(root, path, m, k); }
    }
  }

  /** A directory without an entry "constructor": the walk finds something there that is no address. */
  lemma ConstructorIsMisread(entries: map<Name, Addr>, stamp: string, cache: set<Addr>, r: WalkResult)
    requires "constructor" !in entries
    requires var root := TreeNode(entries, stamp); root in cache && root.content in cache
    requires IsWalk(cache, TreeNode(entries, stamp), ["constructor"], r)
    ensures Lookup(TreeNode(entries, stamp), ["constructor"]).None? && r == Astray([])
  {
    var root, path := TreeNode(entries, stamp), ["constructor"];
    assert path[..0] == [] && path[1..] == [];
    assert StopsAt(cache, root, path, 0) && IsResultAt(cache, root, path, 0, Astray([]));
    WalkIsDetermined(cache, root, path, r, Astray([]));
  }

  // ---------------------------------------------------------------- mini-roots

  /** An entry of a lookup or link response; without an address it reports an error. */
  datatype ResponseEntry = ResponseEntry(path: Path, addr: Option<Addr>)

  /** `resetRoot` takes the address away; the time is when the response came. */
  datatype MiniRoot = MiniRoot(addr: Option<Addr>, ts: nat)

  ghost predicate HasSuccess(response: seq<ResponseEntry>, p: Path) {
    exists i :: 0 <= i < |response| && response[i].path == p && response[i].addr.Some?
  }

  /** No path at or above another. */
  ghost predicate IsAntichain(roots: map<Path, MiniRoot>) {
    forall p, q :: p in roots && q in roots && p != q ==> !AtOrAbove(p, q)
  }

  predicate Usable(root: MiniRoot, now: nat, hardTimeout: nat) {
    root.addr.Some? && now <= root.ts + hardTimeout
  }

  /** What the client makes of an entry of the server's response. */
  function FromServer(e: R.ResponseEntry): ResponseEntry {
    match e
    case Pair(pair) => ResponseEntry(pair.path, if pair.outcome.Found? then Some(pair.outcome.addr) else None)
    case Gone(path) => ResponseEntry(path, None)
  }

  function AllFromServer(entries: seq<R.ResponseEntry>): (response: seq<ResponseEntry>)
    ensures |response| == |entries|
  {
    seq(|entries|, i requires 0 <= i < |entries| => FromServer(entries[i]))
  }

  /** Each mini-root has the address that the tree has at its path. */
  ghost predicate RootedIn(roots: map<Path, MiniRoot>, root: Addr) {
    forall p :: p in roots && roots[p].addr.Some? ==> Lookup(root, p) == roots[p].addr
  }

  class MiniRoots {
    var roots: map<Path, MiniRoot>

    constructor ()
      ensures roots == map[] && IsAntichain(roots)
    {
      roots := map[];
    }

    /** `_ingestLookupResponse`: only the topmost successful paths of the response become mini-roots. */
    method Ingest(response: seq<ResponseEntry>, now: nat)
      modifies this
      ensures response == [] ==> roots == old(roots)
      ensures response != [] ==> IsAntichain(roots)
      ensures response != [] ==> forall q :: HasSuccess(response, q) ==> exists p :: p in roots && AtOrAbove(p, q)
      ensures response != [] ==> forall p :: p in roots ==>
        roots[p].addr.Some? && roots[p].ts == now && ResponseEntry(p, roots[p].addr) in response
    {
      if response == [] {
        return;
      }
      roots := map[];
      var i := 0;
      while i < |response|
        invariant 0 <= i <= |response|
        invariant forall p :: p in roots ==>
          && IsTopmost(response, p)
          && roots[p].addr.Some? && roots[p].ts == now && ResponseEntry(p, roots[p].addr) in response
        invariant forall k :: 0 <= k < i && response[k].addr.Some? && IsTopmost(response, response[k].path) ==>
          response[k].path in roots
      {
        var entry := response[i];
        if entry.addr.Some? {
          var covered := HasSuccessfulAncestor(response, entry.path);
          if !covered {
            roots := roots[entry.path := MiniRoot(entry.addr, now)];
          }
        }
        i := i + 1;
      }
      forall p, q | p in roots && q in roots && p != q ensures !AtOrAbove(p, q) {
        assert IsTopmost(response, q) && IsTopmost(response, p);
      }
      forall q | HasSuccess(response, q) ensures exists p :: p in roots && AtOrAbove(p, q) {
        var p := TopmostAbove(response, q);
        assert p in roots && AtOrAbove(p, q);
      }
    }

    /** `_findMiniRoot`: the first match, in whatever order the roots come. */
    method Find(path: Path, now: nat, hardTimeout: nat) returns (found: Option<Path>)
      ensures found.Some? ==> found.value in roots && Matches(roots, found.value, path, now, hardTimeout)
      ensures found.None? ==> forall p :: p in roots ==> !Matches(roots, p, path, now, hardTimeout)
      ensures IsAntichain(roots) ==> forall p :: p in roots && Matches(roots, p, path, now, hardTimeout) ==> found == Some(p)
    {
      found := None;
      var paths := roots.Keys;
      while paths != {} && found.None?
        invariant paths <= roots.Keys
        invariant found.Some? ==> found.value in roots && Matches(roots, found.value, path, now, hardTimeout)
        invariant found.None? ==> forall p :: p in roots && p !in paths ==> !Matches(roots, p, path, now, hardTimeout)
        decreases |paths|
      {
        var p :| p in paths;
        paths := paths - {p};
        if Matches(roots, p, path, now, hardTimeout) {
          found := Some(p);
        }
      }
      if found.Some? && IsAntichain(roots) {
        forall p | p in roots && Matches(roots, p, path, now, hardTimeout) ensures found == Some(p) {
          AncestorsCompare(found.value, p, path);
        }
      }
    }
  }

  /** The mini-roots that a true response about a tree leaves are in that tree. */
  lemma TrueRoots(root: Addr, entries: seq<R.ResponseEntry>, roots: map<Path, MiniRoot>)
    requires R.IsTruthful(root, entries)
    requires forall p :: p in roots ==> roots[p].addr.Some? && ResponseEntry(p, roots[p].addr) in AllFromServer(entries)
    ensures RootedIn(roots, root)
  {
    forall p | p in roots ensures Lookup(root, p) == roots[p].addr {
      var i :| 0 <= i < |entries| && FromServer(entries[i]) == ResponseEntry(p, roots[p].addr);
      assert R.IsTrue(root, entries[i]);
    }
  }

  predicate Matches(roots: map<Path, MiniRoot>, p: Path, path: Path, now: nat, hardTimeout: nat)
    requires p in roots
  {
    Usable(roots[p], now, hardTimeout) && AtOrAbove(p, path)
  }

  ghost predicate IsTopmost(response: seq<ResponseEntry>, p: Path) {
    HasSuccess(response, p) && forall q :: HasSuccess(response, q) && AtOrAbove(q, p) ==> q == p
  }

  method HasSuccessfulAncestor(response: seq<ResponseEntry>, path: Path) returns (covered: bool)
    requires HasSuccess(response, path)
    ensures covered <==> !IsTopmost(response, path)
  {
    covered := false;
    var j := 0;
    while j < |response|
      invariant 0 <= j <= |response|
      invariant covered ==> !IsTopmost(response, path)
      invariant !covered ==> forall k :: 0 <= k < j && response[k].addr.Some? && AtOrAbove(response[k].path, path) ==>
        response[k].path == path
    {
      var other := response[j];
      if other.addr.Some? && other.path != path && AtOrAbove(other.path, path) {
        assert HasSuccess(response, other.path);
        covered := true;
      }
      j := j + 1;
    }
  }

  lemma {:induction false} TopmostAbove(response: seq<ResponseEntry>, q: Path) returns (p: Path)
    requires HasSuccess(response, q)
    ensures IsTopmost(response, p) && AtOrAbove(p, q)
    decreases |q|
  {
    if IsTopmost(response, q) {
      p := q;
    } else {
      var r :| HasSuccess(response, r) && AtOrAbove(r, q) && r != q;
      p := TopmostAbove(response, r);
    }
  }

  /** From a mini-root that the tree really has, a hit is the node the whole path names in that tree. */
  lemma MiniRootWalk(cache: set<Addr>, root: Addr, p: Path, start: Addr, rest: Path, r: WalkResult)
    requires Lookup(root, p) == Some(start) && IsWalk(cache, start, rest, r)
    ensures r.Hit? ==> Lookup(root, p + rest) == Some(r.node)
    ensures r.Failed? || r.Astray? ==> Lookup(root, p + rest).None?
    ensures r.Partial? ==> Lookup(root, p + rest) == Lookup(r.node, r.rest)
  {
    LookupConcat(root, p, rest);
    ResultMeaning(cache, start, rest, r);
    if r.Partial? { PartialContinues(start, rest, |rest| - |r.rest|, r.node); }
  }

  /** The fast half of `_lookup_internal`: find a mini-root and walk from there; None if there is no usable one. */
  method WalkFromMiniRoot(mini: MiniRoots, cache: set<Addr>, path: Path, now: nat, hardTimeout: nat)
    returns (r: Option<WalkResult>)
    ensures r.None? <==> forall p :: p in mini.roots ==> !Matches(mini.roots, p, path, now, hardTimeout)
    ensures forall root :: RootedIn(mini.roots, root) && r.Some? ==> IsRightAbout(root, path, r.value)
  {
    var found := mini.Find(path, now, hardTimeout);
    if found.None? {
      return None;
    }
    var p := found.value;
    var start, rest := mini.roots[p].addr.value, path[|p|..];
    var result := FastWalk(cache, start, rest);
    forall root | RootedIn(mini.roots, root) ensures IsRightAbout(root, path, result) {
      assert Lookup(root, p) == Some(start) && path == p + rest;
      MiniRootWalk(cache, root, p, start, rest, result);
    }
    return Some(result);
  }

  /** The result says of the path what is so in the tree. */
  ghost predicate IsRightAbout(root: Addr, path: Path, r: WalkResult) {
    match r
    case Hit(node) => Lookup(root, path) == Some(node)
    case Partial(node, rest) => Lookup(root, path) == Lookup(node, rest)
    case _ => Lookup(root, path).None?
  }

  predicate IsHit(e: R.ResponseEntry, path: Path) {
    e.Pair? && e.pair.path == path && e.pair.outcome.Found?
  }

  /** The response has a node at the path. */
  ghost predicate IsFoundIn(entries: seq<R.ResponseEntry>, path: Path) {
    exists i :: 0 <= i < |entries| && IsHit(entries[i], path)
  }

  /**
    From end to end: after a batch's response about a tree has been taken in, whatever the cached walk then hits is
    what the server finds in that tree for the whole path, and where it fails the server finds nothing.
  */
  method LookupAfterResponse(mini: MiniRoots, ghost present: set<Addr>, ghost root: Addr, entries: seq<R.ResponseEntry>,
                             cache: set<Addr>, path: Path, received: nat, now: nat, hardTimeout: nat)
    returns (r: Option<WalkResult>)
    requires Complete(present, root) && NoEmptySegment(path)
    requires R.IsTruthful(root, entries) && entries != []
    modifies mini
    ensures var outcome := Leaf(Resolve(present, root, path)).outcome;
      && (r.Some? && r.value.Hit? ==> outcome == Found(r.value.node))
      && (r.Some? && (r.value.Failed? || r.value.Astray?) ==> !outcome.Found?)
    ensures r.Some? && r.value.Partial? ==> Lookup(r.value.node, r.value.rest) == Lookup(root, path)
    ensures IsFoundIn(entries, path) ==> (r.Some? <==> now <= received + hardTimeout)
  {
    mini.Ingest(AllFromServer(entries), received);
    TrueRoots(root, entries, mini.roots);
    r := WalkFromMiniRoot(mini, cache, path, now, hardTimeout);
    ServerReports(present, root, path);
    if IsFoundIn(entries, path) && now <= received + hardTimeout {
      var i :| 0 <= i < |entries| && IsHit(entries[i], path);
      assert AllFromServer(entries)[i] == FromServer(entries[i]);
      assert HasSuccess(AllFromServer(entries), path);
      var p :| p in mini.roots && AtOrAbove(p, path);
      assert Matches(mini.roots, p, path, now, hardTimeout);
    }
  }
}
