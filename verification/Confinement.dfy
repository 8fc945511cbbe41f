/**
  The link callback of the auth module (internal/gritsd/module_auth.go) and what it guarantees over any
  sequence of `MultiLink` batches.
*/
module Confinement {
  import opened Wrappers
  import opened Merkle
  import opened PathTree
  import opened PathMap
  import opened Requests
  import P = Permissions

  /** Reads an access file's content; anything that does not parse grants nothing. */
  type Parser = Addr -> seq<P.Grant>

  const ACCESS_FILE: Path := [".grits", "access.json"]

  /** `readAccessConfigFromRoot`: the grants of a directory in a tree. */
  function AccessIn(parse: Parser, root: Addr, dir: Path): seq<P.Grant> {
    match Lookup(root, dir + ACCESS_FILE)
    case Some(x) => if x.Metadata? && x.kind.File? then parse(x.content) else []
    case None => []
  }

  function Permitted(parse: Parser, root: Addr, path: Path, principal: P.Principal): P.Permission {
    match principal
    case Backend => P.Owner
    case Client(user, origin) => P.Effective(dir => AccessIn(parse, root, dir), path, user, origin)
  }

  function Parent(path: Path): Path {
    if path == [] then [] else path[..|path| - 1]
  }

  /** A request goes through with write permission on its path, or by inserting where nothing was. */
  predicate MayLink(parse: Parser, root: Addr, principal: P.Principal, path: Path) {
    || P.CanWrite(Permitted(parse, root, path, principal))
    || (P.CanInsert(Permitted(parse, root, Parent(path), principal)) && Lookup(root, path).None?)
  }

  /** The backend may do anything. */
  lemma BackendIsTrusted(parse: Parser, root: Addr, path: Path)
    ensures Permitted(parse, root, path, P.Backend) == P.Owner && MayLink(parse, root, P.Backend, path)
  {
  }

  /** A grant counts when it stands in the file .grits/access.json of a directory, and the file grants nothing else. */
  lemma AccessFileGrants(parse: Parser, root: Addr, dir: Path, f: Addr, g: P.Grant, user: string, origin: string)
    requires Lookup(root, dir + [".grits", "access.json"]) == Some(f) && f.Metadata? && f.kind.File?
    requires parse(f.content) == [g] && dir != [] && dir[|dir| - 1] != ".grits"
    requires forall d :: d != dir ==> Lookup(root, d + [".grits", "access.json"]).None?
    ensures Permitted(parse, root, dir, P.Client(user, origin))
         == if P.IsForOthers(g, user, origin) then P.None else g.permission
  {
    assert dir[..|dir|] == dir;
    P.LoneGrantGives(d => AccessIn(parse, root, d), dir, |dir|, g, user, origin);
  }

  /** Without an access file, and with a directory in its place, nobody but the backend may do anything. */
  lemma NothingByDefault(parse: Parser, root: Addr, path: Path, user: string, origin: string)
    requires forall d :: var f := Lookup(root, d + [".grits", "access.json"]); f.Some? ==> IsDir(f.value)
    ensures Permitted(parse, root, path, P.Client(user, origin)) == P.None
  {
    var access: P.Access, nothing: P.Access := d => AccessIn(parse, root, d), p => [];
    forall k | 0 <= k <= |path| ensures access(path[..k]) == nothing(path[..k]) {}
    P.OnlyPrefixesMatter(access, nothing, path, 0, user, origin);
    P.NoGrants(path, 0, user, origin);
  }

  predicate Approved(parse: Parser, root: Addr, principal: P.Principal, reqs: seq<LinkRequest>) {
    forall i :: 0 <= i < |reqs| ==> MayLink(parse, root, principal, reqs[i].path)
  }

  /** Request i is not permitted, and all before it are. */
  ghost predicate IsDeniedFirst(parse: Parser, root: Addr, reqs: seq<LinkRequest>, principal: P.Principal, i: nat) {
    && i < |reqs| && !MayLink(parse, root, principal, reqs[i].path)
    && forall j :: 0 <= j < i ==> MayLink(parse, root, principal, reqs[j].path)
  }

  /** The callback: every request is judged against the tree before the batch. */
  method LinkCallback(parse: Parser, present: set<Addr>, oldRoot: Addr, reqs: seq<LinkRequest>, principal: P.Principal)
    returns (denied: Option<Path>)
    requires Complete(present, oldRoot) && NormalBatch(reqs)
    ensures denied.None? <==> Approved(parse, oldRoot, principal, reqs)
    ensures denied.Some? ==>
      exists i: nat :: IsDeniedFirst(parse, oldRoot, reqs, principal, i) && reqs[i].path == denied.value
  {
    denied := None;
    var i := 0;
    while i < |reqs|
      invariant 0 <= i <= |reqs|
      invariant forall j :: 0 <= j < i ==> MayLink(parse, oldRoot, principal, reqs[j].path)
    {
      var path := reqs[i].path;
      if P.CanWrite(Permitted(parse, oldRoot, path, principal)) {
      } else if P.CanInsert(Permitted(parse, oldRoot, Parent(path), principal)) {
        ResolveMeaning(present, oldRoot, path);
        assert path[..|path|] == path;
        var occupied := Leaf(Resolve(present, oldRoot, path)).outcome.Found?;
        if occupied {
          assert IsDeniedFirst(parse, oldRoot, reqs, principal, i);
          return Some(path);
        }
      } else {
        assert IsDeniedFirst(parse, oldRoot, reqs, principal, i);
        return Some(path);
      }
      i := i + 1;
    }
  }

  // ---------------------------------------------------------------- runs

  /** One batch, with the blobs that were held and the time stamps that were used when it was applied. */
  datatype Batch = Batch(reqs: seq<LinkRequest>, present: set<Addr>, clock: (nat, nat) -> string)

  /** A batch either leaves the root alone or, approved by the callback, replaces it by the planned tree. */
  ghost predicate Step(parse: Parser, principal: P.Principal, root: Addr, batch: Batch, root': Addr) {
    || root' == root
    || (&& IsNode(root) && NormalBatch(batch.reqs)
        && LinkAll(batch.present, root, batch.reqs, batch.clock, 0).result == Ok(root')
        && Approved(parse, root, principal, batch.reqs))
  }

  ghost predicate IsRun(parse: Parser, principal: P.Principal, roots: seq<Addr>, batches: seq<Batch>) {
    && |roots| == |batches| + 1
    && forall i {:trigger batches[i]} :: 0 <= i < |batches| ==> Step(parse, principal, roots[i], batches[i], roots[i + 1])
  }

  /** Every outcome of `MultiLink` under the callback is such a step. */
  lemma MultiLinkIsStep(parse: Parser, principal: P.Principal, root: Addr, batch: Batch,
                        approve: (Addr, Addr, seq<LinkRequest>) -> bool)
    requires IsNode(root) && NormalBatch(batch.reqs)
    requires forall r :: approve(root, r, batch.reqs) ==> Approved(parse, root, principal, batch.reqs)
    ensures var r := MultiLinkPlan(batch.present, root, batch.reqs, batch.clock, approve).result;
      Step(parse, principal, root, batch, match r { case Ok(root') => root' case Err(_) => root })
  {
  }

  /** A batch leaves alone every path that none of its requests is at, above or below. */
  lemma {:induction false} UnrelatedUnchanged(present: set<Addr>, root: Addr, reqs: seq<LinkRequest>,
                                              clock: (nat, nat) -> string, step: nat, q: Path)
    requires IsNode(root) && NormalBatch(reqs) && LinkAll(present, root, reqs, clock, step).result.Ok?
    requires forall i :: step <= i < |reqs| ==> !Related(reqs[i].path, q)
    ensures Lookup(LinkAll(present, root, reqs, clock, step).result.value, q) == Lookup(root, q)
    decreases |reqs| - step
  {
    if step < |reqs| {
      var req := reqs[step];
      assert !Related(req.path, q);
      assert req.path != [];
      LinkMeaning(present, req.path, req.newAddr, root, clock, step, q);
      var plan := LinkOne(present, root, req, clock, step);
      UnrelatedUnchanged(plan.present, plan.result.value, reqs, clock, step + 1, q);
    }
  }

  /**
    Confinement: whatever a principal's batches do, an address can differ at the end only at, above or below a
    path that, at some point of the run, the tree let that principal write or newly insert.
  */
  lemma {:induction false} ChangesAreConfined(parse: Parser, principal: P.Principal, roots: seq<Addr>, batches: seq<Batch>,
                                              q: Path)
    requires IsRun(parse, principal, roots, batches)
    requires Lookup(roots[0], q) != Lookup(roots[|batches|], q)
    ensures exists i, j ::
      && 0 <= i < |batches| && 0 <= j < |batches[i].reqs|
      && MayLink(parse, roots[i], principal, batches[i].reqs[j].path) && Related(batches[i].reqs[j].path, q)
    decreases |batches|
  {
    var n := |batches| - 1;
    if Lookup(roots[n], q) == Lookup(roots[n + 1], q) {
      ChangesAreConfined(parse, principal, roots[..n + 1], batches[..n], q);
      var i, j :| 0 <= i < |batches[..n]| && 0 <= j < |batches[..n][i].reqs|
        && MayLink(parse, roots[..n + 1][i], principal, batches[..n][i].reqs[j].path)
        && Related(batches[..n][i].reqs[j].path, q);
      assert batches[..n][i] == batches[i] && roots[..n + 1][i] == roots[i];
    } else {
      assert Step(parse, principal, roots[n], batches[n], roots[n + 1]);
      var b := batches[n];
      if forall j :: 0 <= j < |b.reqs| ==> !Related(b.reqs[j].path, q) {
        UnrelatedUnchanged(b.present, roots[n], b.reqs, b.clock, 0, q);
      }
      var j :| 0 <= j < |b.reqs| && Related(b.reqs[j].path, q);
      assert MayLink(parse, roots[n], principal, b.reqs[j].path);
    }
  }

  // ---------------------------------------------------------------- principals that can only insert

  /** Nothing may be written, and nothing inserted into a .grits directory that still lacks an access file. */
  ghost predicate InsertOnly(parse: Parser, root: Addr, principal: P.Principal) {
    && (forall p :: Normal(p) ==> !P.CanWrite(Permitted(parse, root, p, principal)))
    && (forall d :: Normal(d) && Lookup(root, d + ACCESS_FILE).None? ==>
          !P.CanInsert(Permitted(parse, root, d + [".grits"], principal)))
  }

  /** The paths that exist, and the access files that existing directories have or could be given. */
  ghost predicate Protected(root: Addr, p: Path) {
    || Lookup(root, p).Some?
    || (p != [] && Parent(p) + [".grits"] == p && Lookup(root, Parent(p)).Some?)
    || (|p| >= 2 && Parent(Parent(p)) + ACCESS_FILE == p && Lookup(root, Parent(Parent(p))).Some?)
  }

  /** The same file, or a directory both times, or absent both times. */
  ghost predicate SameEntry(a: Option<Addr>, b: Option<Addr>) {
    match (a, b)
    case (Some(x), Some(y)) => if IsDir(x) then IsDir(y) else x == y
    case (None, None) => true
    case _ => false
  }

  ghost predicate Preserved(root0: Addr, root: Addr) {
    forall p :: Protected(root0, p) ==> SameEntry(Lookup(root0, p), Lookup(root, p))
  }

  lemma ProtectedAbove(root: Addr, p: Path, q: Path)
    requires Protected(root, q) && AtOrAbove(p, q)
    ensures Protected(root, p)
  {
    if p != q {
      if Lookup(root, q).Some? {
        LookupPrefix(root, p, q);
      } else if Parent(q) + [".grits"] == q && Lookup(root, Parent(q)).Some? {
        LookupPrefix(root, p, Parent(q));
      } else {
        var d := Parent(Parent(q));
        if |p| <= |d| {
          assert p <= d;
          LookupPrefix(root, p, d);
        } else {
          assert p == Parent(q) && Parent(p) == d;
          assert p == d + [".grits"];
        }
      }
    }
  }

  /** A directory that exists keeps its access file; one that exists in neither tree grants nothing in either. */
  lemma AccessPreserved(parse: Parser, root0: Addr, root: Addr, dir: Path)
    requires Preserved(root0, root) && Protected(root0, dir)
    ensures AccessIn(parse, root0, dir) == AccessIn(parse, root, dir)
  {
    var f := dir + ACCESS_FILE;
    if Lookup(root0, dir).Some? {
      assert Parent(Parent(f)) == dir;
      assert Protected(root0, f);
    } else {
      assert SameEntry(Lookup(root0, dir), Lookup(root, dir));
      LookupConcat(root0, dir, ACCESS_FILE);
      LookupConcat(root, dir, ACCESS_FILE);
    }
  }

  lemma PermissionPreserved(parse: Parser, root0: Addr, root: Addr, p: Path, principal: P.Principal)
    requires Preserved(root0, root) && Protected(root0, p) && principal.Client?
    ensures Permitted(parse, root0, p, principal) == Permitted(parse, root, p, principal)
  {
    var before: P.Access := dir => AccessIn(parse, root0, dir);
    var after: P.Access := dir => AccessIn(parse, root, dir);
    forall k | 0 <= k <= |p| ensures before(p[..k]) == after(p[..k]) {
      ProtectedAbove(root0, p[..k], p);
      AccessPreserved(parse, root0, root, p[..k]);
    }
    P.OnlyPrefixesMatter(before, after, p, 0, principal.user, principal.origin);
  }

  /** Inserting into a directory takes an access file there, so its .grits exists already. */
  lemma GritsNotInserted(parse: Parser, root0: Addr, root: Addr, principal: P.Principal, d: Path)
    requires Preserved(root0, root) && Lookup(root0, d).Some? && Lookup(root0, d + [".grits"]).None?
    requires principal.Client? && !P.CanWrite(Permitted(parse, root0, d, principal))
    ensures !P.CanInsert(Permitted(parse, root, d, principal))
  {
    PermissionPreserved(parse, root0, root, d, principal);
    if P.CanInsert(Permitted(parse, root0, d, principal)) {
      P.InsertIsLocal(dir => AccessIn(parse, root0, dir), d, principal.user, principal.origin);
      LookupPrefix(root0, d + [".grits"], d + ACCESS_FILE);
    }
  }

  lemma NothingIntoGrits(parse: Parser, root0: Addr, root: Addr, principal: P.Principal, d: Path)
    requires Preserved(root0, root) && Lookup(root0, d).Some? && Normal(d) && Lookup(root0, d + ACCESS_FILE).None?
    requires InsertOnly(parse, root0, principal) && principal.Client?
    ensures !P.CanInsert(Permitted(parse, root, d + [".grits"], principal))
  {
    assert Parent(d + [".grits"]) == d;
    PermissionPreserved(parse, root0, root, d + [".grits"], principal);
  }

  lemma ParentOf(d: Path, n: Name)
    ensures Parent(d + [n]) == d
  {
  }

  /** An absent protected path is where an access file, or the .grits around it, would go. */
  lemma AbsentProtected(root: Addr, p: Path) returns (d: Path)
    requires Protected(root, p) && Lookup(root, p).None?
    ensures Lookup(root, d).Some? && d <= p
    ensures (p == d + [".grits"] && Parent(p) == d) || (p == d + ACCESS_FILE && Parent(p) == d + [".grits"])
  {
    if p != [] && Parent(p) + [".grits"] == p && Lookup(root, Parent(p)).Some? {
      d := Parent(p);
    } else {
      d := Parent(Parent(p));
      assert p == d + [".grits"] + ["access.json"];
      ParentOf(d + [".grits"], "access.json");
    }
  }

  /** Where nothing was at a protected path, nothing may be inserted later either. */
  lemma AbsentIsDenied(parse: Parser, root0: Addr, root: Addr, principal: P.Principal, p: Path)
    requires Preserved(root0, root) && Protected(root0, p) && Normal(p) && Lookup(root0, p).None?
    requires InsertOnly(parse, root0, principal) && principal.Client?
    ensures !P.CanInsert(Permitted(parse, root, Parent(p), principal))
  {
    var d := AbsentProtected(root0, p);
    assert Normal(d);
    if Parent(p) == d {
      GritsNotInserted(parse, root0, root, principal, d);
    } else {
      NothingIntoGrits(parse, root0, root, principal, d);
    }
  }

  /** A client that could only insert is never allowed to link at a protected path, however the tree has grown. */
  lemma ProtectedIsDenied(parse: Parser, root0: Addr, root: Addr, principal: P.Principal, p: Path)
    requires Preserved(root0, root) && Protected(root0, p) && Normal(p)
    requires InsertOnly(parse, root0, principal) && principal.Client?
    ensures !MayLink(parse, root, principal, p)
  {
    assert !P.CanWrite(Permitted(parse, root, p, principal)) by {
      PermissionPreserved(parse, root0, root, p, principal);
    }
    assert SameEntry(Lookup(root0, p), Lookup(root, p));
    if Lookup(root0, p).None? {
      AbsentIsDenied(parse, root0, root, principal, p);
    }
  }

  /** Links away from protected paths preserve what is protected. */
  lemma {:induction false} BatchPreserves(root0: Addr, present: set<Addr>, root: Addr, reqs: seq<LinkRequest>,
                                          clock: (nat, nat) -> string, step: nat)
    requires Preserved(root0, root)
    requires IsNode(root) && NormalBatch(reqs) && LinkAll(present, root, reqs, clock, step).result.Ok?
    requires forall i :: step <= i < |reqs| ==> !Protected(root0, reqs[i].path)
    ensures Preserved(root0, LinkAll(present, root, reqs, clock, step).result.value)
    decreases |reqs| - step
  {
    if step < |reqs| {
      var req := reqs[step];
      var plan := LinkOne(present, root, req, clock, step);
      assert !Protected(root0, req.path);
      assert Lookup(root0, []).Some?;
      forall q | Protected(root0, q) ensures SameEntry(Lookup(root0, q), Lookup(plan.result.value, q)) {
        if AtOrAbove(req.path, q) { ProtectedAbove(root0, req.path, q); }
        LinkMeaning(present, req.path, req.newAddr, root, clock, step, q);
        assert SameEntry(Lookup(root0, q), Lookup(root, q));
      }
      BatchPreserves(root0, plan.present, plan.result.value, reqs, clock, step + 1);
    }
  }

  /**
    A client that at the start may write nowhere and supply no access file can never come to change
    or remove anything that existed then, nor what anyone may do there: files stay the same, directories stay
    and at most gain names.  This holds for runs of any length, including those in which the client brings in
    subtrees with access files of their own.
  */
  lemma {:induction false} InsertersNeverEscalate(parse: Parser, principal: P.Principal, roots: seq<Addr>,
                                                  batches: seq<Batch>, p: Path)
    requires IsRun(parse, principal, roots, batches)
    requires InsertOnly(parse, roots[0], principal) && principal.Client?
    ensures Preserved(roots[0], roots[|batches|])
    ensures Lookup(roots[0], p).Some? ==>
      && SameEntry(Lookup(roots[0], p), Lookup(roots[|batches|], p))
      && forall other :: Permitted(parse, roots[0], p, other) == Permitted(parse, roots[|batches|], p, other)
    decreases |batches|
  {
    var n := |batches| - 1;
    if n >= 0 {
      var earlier, done := roots[..n + 1], batches[..n];
      assert IsRun(parse, principal, earlier, done) by {
        forall i | 0 <= i < |done| ensures Step(parse, principal, earlier[i], done[i], earlier[i + 1]) {
          assert Step(parse, principal, roots[i], batches[i], roots[i + 1]);
        }
      }
      InsertersNeverEscalate(parse, principal, earlier, done, p);
      assert Step(parse, principal, roots[n], batches[n], roots[n + 1]);
      if roots[n + 1] != roots[n] {
        var b := batches[n];
        forall i | 0 <= i < |b.reqs| ensures !Protected(roots[0], b.reqs[i].path) {
          assert MayLink(parse, roots[n], principal, b.reqs[i].path);
          if Protected(roots[0], b.reqs[i].path) {
            ProtectedIsDenied(parse, roots[0], roots[n], principal, b.reqs[i].path);
          }
        }
        BatchPreserves(roots[0], b.present, roots[n], b.reqs, b.clock, 0);
      }
    }
    if Lookup(roots[0], p).Some? {
      assert Protected(roots[0], p);
      forall other ensures Permitted(parse, roots[0], p, other) == Permitted(parse, roots[|batches|], p, other) {
        if other.Client? { PermissionPreserved(parse, roots[0], roots[|batches|], p, other); }
      }
    }
  }

  // ---------------------------------------------------------------- the condition is exact

  function LinkTo(path: Path, f: Addr): seq<LinkRequest> {
    [LinkRequest(path, Some(f), None, 0)]
  }

  /** Linking a file where there is a directory to put it in goes through, and puts it there. */
  lemma OneLink(present: set<Addr>, root: Addr, path: Path, f: Addr, clock: (nat, nat) -> string)
    requires Complete(present, root) && Complete(present, f) && f.kind.File?
    requires Normal(path) && CanPut(ViewOf(root), path)
    ensures var r := LinkAll(present, root, LinkTo(path, f), clock, 0).result;
      r.Ok? && Lookup(r.value, path) == Some(f)
  {
    var reqs := LinkTo(path, f);
    var v := Graft(ViewOf(root), path, TargetView(Some(f)));
    assert ApplyAll(v, reqs, 1) == Some(v);
    BatchSucceedsExactly(present, root, reqs, clock, 0);
    BatchRefinesMap(present, root, reqs, clock, 0);
    var r := LinkAll(present, root, reqs, clock, 0).result;
    assert path[|path|..] == [];
    assert path in v && v[path] == FileEntry(f);
    assert path in ViewOf(r.value);
  }

  /** A directory with grants has an access file, so it exists. */
  lemma GrantsNeedADirectory(parse: Parser, root: Addr, d: Path)
    requires AccessIn(parse, root, d) != []
    ensures Lookup(root, d).Some? && IsDir(Lookup(root, d).value)
  {
    LookupPrefix(root, d, d + ACCESS_FILE);
    assert d != d + ACCESS_FILE by { assert |d + ACCESS_FILE| == |d| + 2; }
  }

  /** A protected path that a principal may link at, with a directory around it. */
  ghost predicate IsOpening(parse: Parser, root: Addr, principal: P.Principal, q: Path) {
    Normal(q) && Protected(root, q) && CanPut(ViewOf(root), q) && MayLink(parse, root, principal, q)
  }

  lemma DirectoryCanBePut(root: Addr, d: Path)
    requires Lookup(root, d).Some? && IsDir(Lookup(root, d).value)
    ensures CanPut(ViewOf(root), d)
    ensures forall n :: CanPut(ViewOf(root), d + [n])
  {
    if d != [] { LookupPrefix(root, d[..|d| - 1], d); }
    forall n ensures CanPut(ViewOf(root), d + [n]) {
      assert (d + [n])[..|d| + 1 - 1] == d;
    }
  }

  /** Who may insert into a .grits without an access file may supply one. */
  lemma InserterHasOpening(parse: Parser, root: Addr, principal: P.Principal, d: Path)
    requires principal.Client? && Normal(d) && Lookup(root, d + ACCESS_FILE).None?
    requires P.CanInsert(Permitted(parse, root, d + [".grits"], principal))
    requires !P.CanWrite(Permitted(parse, root, d + [".grits"], principal))
    ensures IsOpening(parse, root, principal, d + ACCESS_FILE)
  {
    var grits, q := d + [".grits"], d + ACCESS_FILE;
    P.InsertIsLocal(dir => AccessIn(parse, root, dir), grits, principal.user, principal.origin);
    GrantsNeedADirectory(parse, root, grits);
    assert q == grits + ["access.json"];
    DirectoryCanBePut(root, grits);
    ParentOf(grits, "access.json");
    ParentOf(d, ".grits");
    LookupPrefix(root, d, grits);
  }

  /** A writer of a .grits, demoted at the directory itself, owns what is in it. */
  lemma GritsWriterHasOpening(parse: Parser, root: Addr, principal: P.Principal, d: Path, g: P.Grant)
    requires principal.Client? && Normal(d) && d != [] && d[|d| - 1] == ".grits"
    requires g in AccessIn(parse, root, d) && P.GrantMatches(g, principal.user, principal.origin)
    requires g.permission.ReadWrite?
    ensures IsOpening(parse, root, principal, d + ["access.json"])
  {
    var q, e := d + ["access.json"], d[..|d| - 1];
    GrantsNeedADirectory(parse, root, d);
    DirectoryCanBePut(root, d);
    assert q[|d|] == "access.json";
    P.GrantReaches(dir => AccessIn(parse, root, dir), q, d, g, principal.user, principal.origin);
    assert d == e + [".grits"] && q == e + ACCESS_FILE;
    ParentOf(d, "access.json");
    ParentOf(e, ".grits");
    LookupPrefix(root, e, d);
  }

  lemma WriterHasOpeningHere(parse: Parser, root: Addr, principal: P.Principal, d: Path, g: P.Grant)
    requires principal.Client? && Normal(d)
    requires g in AccessIn(parse, root, d) && P.GrantMatches(g, principal.user, principal.origin)
    requires P.CanWrite(g.permission) && (d != [] && d[|d| - 1] == ".grits" ==> g.permission.Owner?)
    ensures IsOpening(parse, root, principal, d)
  {
    GrantsNeedADirectory(parse, root, d);
    DirectoryCanBePut(root, d);
    P.GrantReaches(dir => AccessIn(parse, root, dir), d, d, g, principal.user, principal.origin);
  }

  /** Who may write somewhere may write at a directory that exists, or at the access file of one. */
  lemma WriterHasOpening(parse: Parser, root: Addr, principal: P.Principal, p: Path) returns (q: Path)
    requires principal.Client? && Normal(p) && P.CanWrite(Permitted(parse, root, p, principal))
    ensures IsOpening(parse, root, principal, q)
  {
    var access: P.Access := dir => AccessIn(parse, root, dir);
    var d, g := P.WriteGrant(access, p, principal.user, principal.origin);
    if d != [] && d[|d| - 1] == ".grits" && g.permission.ReadWrite? {
      q := d + ["access.json"];
      GritsWriterHasOpening(parse, root, principal, d, g);
    } else {
      q := d;
      WriterHasOpeningHere(parse, root, principal, d, g);
    }
  }

  /** Any file linked at an opening, unless it is there already, changes what is protected. */
  lemma OpeningBreaks(root: Addr, root': Addr, q: Path, f: Addr)
    requires Protected(root, q) && Lookup(root', q) == Some(f) && Lookup(root, q) != Some(f)
    requires f.Metadata? && f.kind.File?
    ensures !Preserved(root, root')
  {
    assert !SameEntry(Lookup(root, q), Lookup(root', q));
  }

  lemma StaysPreserved(present: set<Addr>, root: Addr, q: Path, f: Addr, clock: (nat, nat) -> string)
    requires IsNode(root) && Normal(q) && !Protected(root, q)
    requires LinkAll(present, root, LinkTo(q, f), clock, 0).result.Ok?
    ensures Preserved(root, LinkAll(present, root, LinkTo(q, f), clock, 0).result.value)
  {
    BatchPreserves(root, present, root, LinkTo(q, f), clock, 0);
  }

  /** Linking a file at q, which the callback lets the client do, keeps what is protected. */
  ghost predicate KeepsProtected(parse: Parser, present: set<Addr>, root: Addr, principal: P.Principal, f: Addr,
                                 clock: (nat, nat) -> string, q: Path)
    requires IsNode(root)
  {
    Normal(q) && MayLink(parse, root, principal, q) ==>
      var r := LinkAll(present, root, LinkTo(q, f), clock, 0).result;
      r.Ok? ==> Preserved(root, r.value)
  }

  /**
    The condition of `InsertersNeverEscalate` is exact: a client meets it if and only if none of the links it may
    make, of a file that is not in the volume yet, changes what is protected.
  */
  lemma InsertOnlyIsExact(parse: Parser, present: set<Addr>, root: Addr, principal: P.Principal, f: Addr,
                          clock: (nat, nat) -> string)
    requires Complete(present, root) && Complete(present, f) && f.kind.File? && principal.Client?
    requires forall q :: Lookup(root, q) != Some(f)
    ensures InsertOnly(parse, root, principal) <==>
      forall q :: KeepsProtected(parse, present, root, principal, f, clock, q)
  {
    if InsertOnly(parse, root, principal) {
      forall q ensures KeepsProtected(parse, present, root, principal, f, clock, q) {
        if Normal(q) && LinkAll(present, root, LinkTo(q, f), clock, 0).result.Ok? {
          if Protected(root, q) {
            ProtectedIsDenied(parse, root, root, principal, q);
          } else {
            StaysPreserved(present, root, q, f, clock);
          }
        }
      }
    } else {
      var q := HasOpening(parse, root, principal);
      OneLink(present, root, q, f, clock);
      OpeningBreaks(root, LinkAll(present, root, LinkTo(q, f), clock, 0).result.value, q, f);
      assert !KeepsProtected(parse, present, root, principal, f, clock, q);
    }
  }

  lemma HasOpening(parse: Parser, root: Addr, principal: P.Principal) returns (q: Path)
    requires principal.Client? && !InsertOnly(parse, root, principal)
    ensures IsOpening(parse, root, principal, q)
  {
    if p :| Normal(p) && P.CanWrite(Permitted(parse, root, p, principal)) {
      q := WriterHasOpening(parse, root, principal, p);
    } else {
      var d :| Normal(d) && Lookup(root, d + ACCESS_FILE).None?
        && P.CanInsert(Permitted(parse, root, d + [".grits"], principal));
      assert Normal(d + [".grits"]);
      InserterHasOpening(parse, root, principal, d);
      q := d + ACCESS_FILE;
    }
  }

  // ---------------------------------------------------------------- a client that the condition rightly excludes

  const OPEN_DIR: Path := ["d"]

  /** A volume whose only access file is d/.grits/.grits/access.json. */
  function OpenVolume(access: Addr): Addr {
    var inner := TreeNode(map["access.json" := access], "");
    TreeNode(map["d" := TreeNode(map[".grits" := TreeNode(map[".grits" := inner], "")], "")], "")
  }

  lemma LookupOnly(n: Name, x: Addr, path: Path)
    requires path != []
    ensures Lookup(TreeNode(map[n := x], ""), path) == if path[0] == n then Lookup(x, path[1..]) else None
  {
  }

  lemma OnlyAccessFile(access: Addr, dir: Path)
    requires access.Metadata? && access.kind.File?
    ensures Lookup(OpenVolume(access), dir + ACCESS_FILE) ==
      if dir == OPEN_DIR + [".grits"] then Some(access) else None
  {
    var inner := TreeNode(map["access.json" := access], "");
    var outer := TreeNode(map[".grits" := inner], "");
    var d := TreeNode(map[".grits" := outer], "");
    var q := dir + ACCESS_FILE;
    LookupOnly("d", d, q);
    LookupOnly(".grits", outer, q[1..]);
    if |dir| == 0 {
      assert q[0] == ".grits";
    } else if |dir| == 1 {
      LookupOnly(".grits", inner, q[2..]);
      assert q[1..][1..] == q[2..] && q[2] == "access.json";
    } else {
      LookupOnly(".grits", inner, q[2..]);
      LookupOnly("access.json", access, q[3..]);
      assert q[1..][1..] == q[2..] && q[2..][1..] == q[3..] && q[3..][1..] == q[4..];
      if |dir| == 2 {
        assert q[2] == ".grits" && q[3] == "access.json" && q[4..] == [];
        assert dir == [q[0], q[1]];
      }
    }
  }

  /** Granted no more than to insert into d/.grits, a client may supply the access file of d, and with it anything. */
  lemma GritsInserterEscalates(parse: Parser, access: Addr, g: P.Grant, user: string, origin: string)
    requires access.Metadata? && access.kind.File? && parse(access.content) == [g]
    requires g.permission.Insert? && P.GrantMatches(g, user, origin)
    ensures var root, client := OpenVolume(access), P.Client(user, origin);
      && (forall p :: !P.CanWrite(Permitted(parse, root, p, client)))
      && MayLink(parse, root, client, OPEN_DIR + ACCESS_FILE)
      && !InsertOnly(parse, root, client)
  {
    var root, client := OpenVolume(access), P.Client(user, origin);
    var grants: P.Access := dir => AccessIn(parse, root, dir);
    forall p ensures grants(p) == if p == OPEN_DIR + [".grits"] then [g] else [] {
      OnlyAccessFile(access, p);
    }
    forall p ensures !P.CanWrite(Permitted(parse, root, p, client)) {
      if P.CanWrite(P.Effective(grants, p, user, origin)) {
        var d, w := P.WriteGrant(grants, p, user, origin);
      }
    }
    var grits := OPEN_DIR + [".grits"];
    P.LoneInsertApplies(grants, grits, g, user, origin);
    ParentOf(grits, "access.json");
    assert OPEN_DIR + ACCESS_FILE == grits + ["access.json"];
    OnlyAccessFile(access, OPEN_DIR);
  }
}
