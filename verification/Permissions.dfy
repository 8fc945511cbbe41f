/**
  Permissions granted by .grits/access.json files and how they are inherited (internal/gritsd/module_auth.go).
*/
module Permissions {
  import opened PathTree

  /** `None` is the empty permission, and any string that is none of the others. */
  datatype Permission = None | Read | Insert | ReadInsert | ReadWrite | Owner

  datatype Capability = CapRead | CapInsert | CapWrite | CapOwn

  predicate CanRead(p: Permission) {
    p.Read? || p.ReadInsert? || p.ReadWrite? || p.Owner?
  }

  predicate CanInsert(p: Permission) {
    p.Insert? || p.ReadInsert? || p.ReadWrite? || p.Owner?
  }

  predicate CanWrite(p: Permission) {
    p.ReadWrite? || p.Owner?
  }

  predicate CanOwn(p: Permission) {
    p.Owner?
  }

  predicate Has(p: Permission, c: Capability) {
    match c
    case CapRead => CanRead(p)
    case CapInsert => CanInsert(p)
    case CapWrite => CanWrite(p)
    case CapOwn => CanOwn(p)
  }

  function MergePerm(a: Permission, b: Permission): Permission {
    var read := CanRead(a) || CanRead(b);
    var insert := CanInsert(a) || CanInsert(b);
    var write := CanWrite(a) || CanWrite(b);
    var own := CanOwn(a) || CanOwn(b);
    if own then Owner
    else if write then ReadWrite
    else if read && insert then ReadInsert
    else if insert then Insert
    else if read then Read
    else None
  }

  /** The order of permissions: more capabilities are more permissive. */
  ghost predicate AtMost(a: Permission, b: Permission) {
    forall c :: Has(a, c) ==> Has(b, c)
  }

  /** A permission is the set of its capabilities. */
  lemma SameCapabilities(a: Permission, b: Permission)
    requires forall c :: Has(a, c) <==> Has(b, c)
    ensures a == b
  {
    assert Has(a, CapRead) <==> Has(b, CapRead);
    assert Has(a, CapInsert) <==> Has(b, CapInsert);
    assert Has(a, CapWrite) <==> Has(b, CapWrite);
    assert Has(a, CapOwn) <==> Has(b, CapOwn);
  }

  /** Merging gives the least permission that is at least as permissive as both. */
  lemma MergeIsLeastUpperBound(a: Permission, b: Permission)
    ensures AtMost(a, MergePerm(a, b)) && AtMost(b, MergePerm(a, b))
    ensures forall p :: AtMost(a, p) && AtMost(b, p) ==> AtMost(MergePerm(a, b), p)
    ensures forall c :: Has(MergePerm(a, b), c) <==> Has(a, c) || Has(b, c)
  {
    forall c ensures Has(MergePerm(a, b), c) <==> Has(a, c) || Has(b, c) {
      match c case CapRead => case CapInsert => case CapWrite => case CapOwn =>
    }
  }

  // ---------------------------------------------------------------- grants

  /** auth and all are true when the optional flags of the access file are set and true. */
  datatype Grant = Grant(user: string, auth: bool, all: bool, origin: string, permission: Permission)

  /** Backend is the one principal that bypasses every check. */
  datatype Principal = Backend | Client(user: string, origin: string)

  predicate GrantMatches(g: Grant, user: string, origin: string) {
    if g.origin == "" then false
    else if g.user != "" && g.user != user then false
    else if g.user == "" && g.auth && user == "" then false
    else if g.user == "" && !g.auth && !g.all && g.origin == "*" then false
    else g.origin == "*" || origin == "" || g.origin == origin
  }

  /** How a level of a path relates to it; the root's grants are inherited ones, even by the root itself. */
  datatype Bucket = Inherited | GritsParent | Local

  function BucketOf(path: Path, level: nat): Bucket
    requires level <= |path|
  {
    if level == 0 then Inherited
    else if level == |path| then Local
    else if path[level] == ".grits" then GritsParent
    else Inherited
  }

  /** What a grant in a bucket is worth: grants right above a .grits directory do not escalate into it. */
  function BucketWorth(b: Bucket, path: Path, p: Permission): Permission {
    match b
    case Inherited => (match p case Insert => None case ReadInsert => Read case ReadWrite => Owner case _ => p)
    case GritsParent => (match p case Insert => None case ReadInsert => Read case ReadWrite => Read case _ => p)
    case Local => if path != [] && path[|path| - 1] == ".grits" && p.ReadWrite? then Read else p
  }

  function Worth(path: Path, level: nat, p: Permission): Permission
    requires level <= |path|
  {
    BucketWorth(BucketOf(path, level), path, p)
  }

  /** The access files of a tree: the grants in force at a directory, none where the file is absent or unreadable. */
  type Access = Path -> seq<Grant>

  function LevelPerm(grants: seq<Grant>, path: Path, level: nat, user: string, origin: string): Permission
    requires level <= |path|
  {
    if grants == [] then None
    else
      var rest := LevelPerm(grants[1..], path, level, user, origin);
      if GrantMatches(grants[0], user, origin) then MergePerm(Worth(path, level, grants[0].permission), rest) else rest
  }

  /** One pass down the path from the given level. */
  function EffectiveFrom(access: Access, path: Path, level: nat, user: string, origin: string): Permission
    requires level <= |path|
    decreases |path| - level
  {
    var here := LevelPerm(access(path[..level]), path, level, user, origin);
    if level == |path| then here
    else MergePerm(here, EffectiveFrom(access, path, level + 1, user, origin))
  }

  function Effective(access: Access, path: Path, user: string, origin: string): Permission {
    EffectiveFrom(access, path, 0, user, origin)
  }

  ghost predicate GivenBy(grants: seq<Grant>, path: Path, level: nat, user: string, origin: string, c: Capability)
    requires level <= |path|
  {
    exists i :: 0 <= i < |grants| && GrantMatches(grants[i], user, origin)
             && Has(Worth(path, level, grants[i].permission), c)
  }

  /** Some matching grant on the way down the path is worth the capability. */
  ghost predicate Granted(access: Access, path: Path, level: nat, user: string, origin: string, c: Capability)
    requires level <= |path|
  {
    exists k :: level <= k <= |path| && GivenBy(access(path[..k]), path, k, user, origin, c)
  }

  lemma {:induction false} LevelMeaning(grants: seq<Grant>, path: Path, level: nat, user: string, origin: string,
                                        c: Capability)
    requires level <= |path|
    ensures Has(LevelPerm(grants, path, level, user, origin), c) <==> GivenBy(grants, path, level, user, origin, c)
  {
    if grants == [] {
    } else {
      var rest := grants[1..];
      LevelMeaning(rest, path, level, user, origin, c);
      MergeIsLeastUpperBound(Worth(path, level, grants[0].permission), LevelPerm(rest, path, level, user, origin));
      if GivenBy(rest, path, level, user, origin, c) {
        var i :| 0 <= i < |rest| && GrantMatches(rest[i], user, origin)
              && Has(Worth(path, level, rest[i].permission), c);
        assert grants[i + 1] == rest[i];
      }
      if GivenBy(grants, path, level, user, origin, c) {
        var i :| 0 <= i < |grants| && GrantMatches(grants[i], user, origin)
              && Has(Worth(path, level, grants[i].permission), c);
        if i > 0 { assert grants[i] == rest[i - 1]; }
      }
    }
  }

  /** A path has a capability exactly when some matching grant above or at it is worth that capability to it. */
  lemma {:induction false} EffectiveMeaning(access: Access, path: Path, level: nat, user: string, origin: string,
                                            c: Capability)
    requires level <= |path|
    ensures Has(EffectiveFrom(access, path, level, user, origin), c) <==> Granted(access, path, level, user, origin, c)
    decreases |path| - level
  {
    LevelMeaning(access(path[..level]), path, level, user, origin, c);
    if level < |path| {
      EffectiveMeaning(access, path, level + 1, user, origin, c);
      MergeIsLeastUpperBound(LevelPerm(access(path[..level]), path, level, user, origin),
                             EffectiveFrom(access, path, level + 1, user, origin));
    }
  }

  // ---------------------------------------------------------------- the three buckets

  function Matching(grants: seq<Grant>, user: string, origin: string): seq<Grant> {
    if grants == [] then []
    else
      var init, g := grants[..|grants| - 1], grants[|grants| - 1];
      Matching(init, user, origin) + if GrantMatches(g, user, origin) then [g] else []
  }

  /** The matching grants of one bucket from the first n levels below the root. */
  function Collected(access: Access, path: Path, b: Bucket, n: nat, user: string, origin: string): seq<Grant>
    requires n <= |path|
  {
    if n == 0 then []
    else Collected(access, path, b, n - 1, user, origin) + InBucket(access, path, b, n, user, origin)
  }

  function InBucket(access: Access, path: Path, b: Bucket, level: nat, user: string, origin: string): seq<Grant>
    requires level <= |path|
  {
    if BucketOf(path, level) == b then Matching(access(path[..level]), user, origin) else []
  }

  ghost predicate AnyWorth(grants: seq<Grant>, b: Bucket, path: Path, c: Capability) {
    exists i :: 0 <= i < |grants| && Has(BucketWorth(b, path, grants[i].permission), c)
  }

  lemma AnyWorthConcat(xs: seq<Grant>, ys: seq<Grant>, b: Bucket, path: Path, c: Capability)
    ensures AnyWorth(xs + ys, b, path, c) <==> AnyWorth(xs, b, path, c) || AnyWorth(ys, b, path, c)
  {
    if AnyWorth(xs, b, path, c) {
      var i :| 0 <= i < |xs| && Has(BucketWorth(b, path, xs[i].permission), c);
      assert (xs + ys)[i] == xs[i];
    }
    if AnyWorth(ys, b, path, c) {
      var i :| 0 <= i < |ys| && Has(BucketWorth(b, path, ys[i].permission), c);
      assert (xs + ys)[|xs| + i] == ys[i];
    }
  }

  lemma {:induction false} MatchingMeaning(grants: seq<Grant>, path: Path, level: nat, user: string, origin: string,
                                           c: Capability)
    requires level <= |path|
    ensures AnyWorth(Matching(grants, user, origin), BucketOf(path, level), path, c)
       <==> GivenBy(grants, path, level, user, origin, c)
  {
    if grants != [] {
      var init, g := grants[..|grants| - 1], grants[|grants| - 1];
      var last := if GrantMatches(g, user, origin) then [g] else [];
      MatchingMeaning(init, path, level, user, origin, c);
      AnyWorthConcat(Matching(init, user, origin), last, BucketOf(path, level), path, c);
      assert AnyWorth([g], BucketOf(path, level), path, c) <==> Has(Worth(path, level, g.permission), c) by {
        assert [g][0] == g;
      }
      if GivenBy(init, path, level, user, origin, c) {
        var i :| 0 <= i < |init| && GrantMatches(init[i], user, origin)
              && Has(Worth(path, level, init[i].permission), c);
        assert grants[i] == init[i];
      }
      if GivenBy(grants, path, level, user, origin, c) {
        var i :| 0 <= i < |grants| && GrantMatches(grants[i], user, origin)
              && Has(Worth(path, level, grants[i].permission), c);
        if i < |init| { assert init[i] == grants[i]; }
      }
    }
  }

  lemma {:induction false} CollectedMeaning(access: Access, path: Path, b: Bucket, n: nat, user: string, origin: string,
                                            c: Capability)
    requires n <= |path|
    ensures AnyWorth(Collected(access, path, b, n, user, origin), b, path, c)
       <==> exists k :: 1 <= k <= n && BucketOf(path, k) == b && GivenBy(access(path[..k]), path, k, user, origin, c)
  {
    if n > 0 {
      CollectedMeaning(access, path, b, n - 1, user, origin, c);
      AnyWorthConcat(Collected(access, path, b, n - 1, user, origin), InBucket(access, path, b, n, user, origin), b, path, c);
      MatchingMeaning(access(path[..n]), path, n, user, origin, c);
    }
  }

  /** Merging a bucket into what has been merged so far. */
  method MergeBucket(start: Permission, grants: seq<Grant>, b: Bucket, path: Path) returns (merged: Permission)
    ensures forall c :: Has(merged, c) <==> Has(start, c) || AnyWorth(grants, b, path, c)
  {
    merged := start;
    var i := 0;
    while i < |grants|
      invariant 0 <= i <= |grants|
      invariant forall c :: Has(merged, c) <==> Has(start, c) || AnyWorth(grants[..i], b, path, c)
    {
      var g := grants[i];
      forall c ensures AnyWorth(grants[..i + 1], b, path, c)
                  <==> AnyWorth(grants[..i], b, path, c) || Has(BucketWorth(b, path, g.permission), c) {
        assert grants[..i + 1] == grants[..i] + [g];
        AnyWorthConcat(grants[..i], [g], b, path, c);
        assert AnyWorth([g], b, path, c) <==> Has(BucketWorth(b, path, g.permission), c) by { assert [g][0] == g; }
      }
      MergeIsLeastUpperBound(merged, BucketWorth(b, path, g.permission));
      merged := MergePerm(merged, BucketWorth(b, path, g.permission));
      i := i + 1;
    }
    assert grants[..i] == grants;
  }

  /** The matching grants below the root, in their buckets. */
  method CollectGrants(access: Access, path: Path, user: string, origin: string)
    returns (inherited: seq<Grant>, gritsParent: seq<Grant>, local: seq<Grant>)
    ensures inherited == Collected(access, path, Inherited, |path|, user, origin)
    ensures gritsParent == Collected(access, path, GritsParent, |path|, user, origin)
    ensures local == Collected(access, path, Local, |path|, user, origin)
  {
    inherited, gritsParent, local := [], [], [];
    var i := 0;
    while i < |path|
      invariant 0 <= i <= |path|
      invariant inherited == Collected(access, path, Inherited, i, user, origin)
      invariant gritsParent == Collected(access, path, GritsParent, i, user, origin)
      invariant local == Collected(access, path, Local, i, user, origin)
    {
      var allow := access(path[..i + 1]);
      var found := MatchingGrants(allow, user, origin);
      if i == |path| - 1 {
        local := local + found;
      } else if path[i + 1] == ".grits" {
        gritsParent := gritsParent + found;
      } else {
        inherited := inherited + found;
      }
      i := i + 1;
    }
  }

  /** `resolvePermissionAtRoot`: collect the matching grants in three buckets, then merge the buckets in turn. */
  method ResolvePermissionAtRoot(access: Access, path: Path, user: string, origin: string) returns (merged: Permission)
    ensures merged == Effective(access, path, user, origin)
  {
    var inherited, gritsParent, local := CollectGrants(access, path, user, origin);
    var atRoot := MatchingGrants(access([]), user, origin);
    merged := MergeBucket(None, inherited + atRoot, Inherited, path);
    merged := MergeBucket(merged, gritsParent, GritsParent, path);
    merged := MergeBucket(merged, local, Local, path);
    forall c ensures Has(merged, c) <==> Has(Effective(access, path, user, origin), c) {
      BucketsCoverThePath(access, path, user, origin, c);
      AnyWorthConcat(inherited, atRoot, Inherited, path, c);
    }
    SameCapabilities(merged, Effective(access, path, user, origin));
  }

  method MatchingGrants(grants: seq<Grant>, user: string, origin: string) returns (found: seq<Grant>)
    ensures found == Matching(grants, user, origin)
  {
    found := [];
    var j := 0;
    while j < |grants|
      invariant 0 <= j <= |grants| && found == Matching(grants[..j], user, origin)
    {
      assert grants[..j + 1][..j] == grants[..j];
      if GrantMatches(grants[j], user, origin) {
        found := found + [grants[j]];
      }
      j := j + 1;
    }
    assert grants[..j] == grants;
  }

  lemma BucketsCoverThePath(access: Access, path: Path, user: string, origin: string, c: Capability)
    ensures Has(Effective(access, path, user, origin), c) <==>
      || AnyWorth(Collected(access, path, Inherited, |path|, user, origin), Inherited, path, c)
      || AnyWorth(Matching(access([]), user, origin), Inherited, path, c)
      || AnyWorth(Collected(access, path, GritsParent, |path|, user, origin), GritsParent, path, c)
      || AnyWorth(Collected(access, path, Local, |path|, user, origin), Local, path, c)
  {
    EffectiveMeaning(access, path, 0, user, origin, c);
    CollectedMeaning(access, path, Inherited, |path|, user, origin, c);
    CollectedMeaning(access, path, GritsParent, |path|, user, origin, c);
    CollectedMeaning(access, path, Local, |path|, user, origin, c);
    MatchingMeaning(access([]), path, 0, user, origin, c);
    assert path[..0] == [];
    if Granted(access, path, 0, user, origin, c) {
      var k :| 0 <= k <= |path| && GivenBy(access(path[..k]), path, k, user, origin, c);
      assert k > 0 ==> BucketOf(path, k) == Inherited || BucketOf(path, k) == GritsParent || BucketOf(path, k) == Local;
    }
  }

  // ---------------------------------------------------------------- whom a grant is for

  /**
    A grant is not for a client if it names another user or another site, asks for a login that the client does not
    have, has no origin, or leaves everything open.  Without an origin the client is navigating itself, on any site.
  */
  ghost predicate IsForOthers(g: Grant, user: string, origin: string) {
    || (g.user != "" && g.user != user)
    || g.origin == ""
    || (g.origin != "*" && origin != "" && g.origin != origin)
    || (g.user == "" && g.auth && user == "")
    || (g.user == "" && !g.auth && !g.all && g.origin == "*")
  }

  lemma MatchingIsNotForOthers(g: Grant, user: string, origin: string)
    ensures GrantMatches(g, user, origin) <==> !IsForOthers(g, user, origin)
  {
  }

  /** Grants for others make no difference, wherever they are added or taken away. */
  lemma OthersGrantsDoNothing(access: Access, other: Access, path: Path, user: string, origin: string)
    requires forall p, g :: g in other(p) ==> g in access(p)
    requires forall p, g :: g in access(p) && !IsForOthers(g, user, origin) ==> g in other(p)
    ensures Effective(access, path, user, origin) == Effective(other, path, user, origin)
  {
    MoreGrantsNeverHurt(other, access, path, user, origin);
    forall c ensures Has(Effective(access, path, user, origin), c) <==> Has(Effective(other, path, user, origin), c) {
      EffectiveMeaning(access, path, 0, user, origin, c);
      EffectiveMeaning(other, path, 0, user, origin, c);
      if Granted(access, path, 0, user, origin, c) {
        var k :| 0 <= k <= |path| && GivenBy(access(path[..k]), path, k, user, origin, c);
        var i :| 0 <= i < |access(path[..k])| && GrantMatches(access(path[..k])[i], user, origin)
              && Has(Worth(path, k, access(path[..k])[i].permission), c);
        var g := access(path[..k])[i];
        MatchingIsNotForOthers(g, user, origin);
        var j :| 0 <= j < |other(path[..k])| && other(path[..k])[j] == g;
        assert GivenBy(other(path[..k]), path, k, user, origin, c);
      }
    }
    SameCapabilities(Effective(access, path, user, origin), Effective(other, path, user, origin));
  }

  /** What a grant in the access file of path[..level] comes to at path when it is the only one. */
  ghost function LoneWorth(path: Path, level: nat, p: Permission): Permission
    requires level <= |path|
  {
    if level == |path| > 0 then if path[level - 1] == ".grits" && p == ReadWrite then Read else p
    else if p == Owner || (p == ReadWrite && (level == 0 || path[level] != ".grits")) then Owner
    else if p == Read || p == ReadInsert || p == ReadWrite then Read
    else None
  }

  /** A lone grant gives what it is worth at a path, exactly to those it is for. */
  lemma LoneGrantGives(access: Access, path: Path, level: nat, g: Grant, user: string, origin: string)
    requires level <= |path| && forall p :: access(p) == if p == path[..level] then [g] else []
    ensures Effective(access, path, user, origin)
         == if IsForOthers(g, user, origin) then None else LoneWorth(path, level, g.permission)
  {
    MatchingIsNotForOthers(g, user, origin);
    if IsForOthers(g, user, origin) {
      var nothing: Access := p => [];
      OthersGrantsDoNothing(access, nothing, path, user, origin);
      NoGrants(path, 0, user, origin);
    } else {
      forall c ensures Has(Effective(access, path, user, origin), c) <==> Has(LoneWorth(path, level, g.permission), c) {
        LoneGrant(access, path, level, g, user, origin, c);
      }
      SameCapabilities(Effective(access, path, user, origin), LoneWorth(path, level, g.permission));
    }
  }

  /** Nobody may do anything by default. */
  lemma {:induction false} NoGrants(path: Path, level: nat, user: string, origin: string)
    requires level <= |path|
    ensures EffectiveFrom(p => [], path, level, user, origin) == None
    decreases |path| - level
  {
    if level < |path| { NoGrants(path, level + 1, user, origin); }
  }

  /** The four ways to name a client, each in a directory's own access file. */
  lemma WaysToName(access: Access, path: Path, g: Grant, user: string, origin: string)
    requires path != [] && path[|path| - 1] != ".grits" && forall p :: access(p) == if p == path then [g] else []
    ensures var gives := Effective(access, path, user, origin) == g.permission;
      && (user != "" && g.user == user && g.origin == "*" ==> gives)
      && (user != "" && g.user == "" && g.auth && g.origin == "*" ==> gives)
      && (g.user == "" && !g.auth && g.all && g.origin == "*" ==> gives)
      && (g.user == "" && !g.auth && g.origin !in {"", "*"} && (origin == g.origin || origin == "") ==> gives)
    ensures g.user !in {"", user} ==> Effective(access, path, user, origin) == None
  {
    assert path[..|path|] == path;
    LoneGrantGives(access, path, |path|, g, user, origin);
  }

  // ---------------------------------------------------------------- laws of inheritance

  /** The result depends on the set of grants only: never on their order or repetition, and more grants never hurt. */
  lemma MoreGrantsNeverHurt(access: Access, more: Access, path: Path, user: string, origin: string)
    requires forall p, g :: g in access(p) ==> g in more(p)
    ensures AtMost(Effective(access, path, user, origin), Effective(more, path, user, origin))
  {
    forall c | Has(Effective(access, path, user, origin), c) ensures Has(Effective(more, path, user, origin), c) {
      EffectiveMeaning(access, path, 0, user, origin, c);
      EffectiveMeaning(more, path, 0, user, origin, c);
      var k :| 0 <= k <= |path| && GivenBy(access(path[..k]), path, k, user, origin, c);
      var i :| 0 <= i < |access(path[..k])| && GrantMatches(access(path[..k])[i], user, origin)
            && Has(Worth(path, k, access(path[..k])[i].permission), c);
      var g := access(path[..k])[i];
      assert g in more(path[..k]);
      var j :| 0 <= j < |more(path[..k])| && more(path[..k])[j] == g;
      assert GivenBy(more(path[..k]), path, k, user, origin, c);
    }
  }

  lemma OrderIsIrrelevant(access: Access, other: Access, path: Path, user: string, origin: string)
    requires forall p, g :: g in access(p) <==> g in other(p)
    ensures Effective(access, path, user, origin) == Effective(other, path, user, origin)
  {
    MoreGrantsNeverHurt(access, other, path, user, origin);
    MoreGrantsNeverHurt(other, access, path, user, origin);
    SameCapabilities(Effective(access, path, user, origin), Effective(other, path, user, origin));
  }

  /** Only the access files at and above a path matter to it. */
  lemma {:induction false} OnlyPrefixesMatter(access: Access, other: Access, path: Path, level: nat, user: string, origin: string)
    requires level <= |path| && forall k :: level <= k <= |path| ==> access(path[..k]) == other(path[..k])
    ensures EffectiveFrom(access, path, level, user, origin) == EffectiveFrom(other, path, level, user, origin)
    decreases |path| - level
  {
    assert access(path[..level]) == other(path[..level]);
    if level < |path| { OnlyPrefixesMatter(access, other, path, level + 1, user, origin); }
  }

  /** Where a capability of the child comes from, given that every level's worth carries over. */
  lemma Inherits(access: Access, path: Path, child: string, user: string, origin: string, c: Capability, d: Capability)
    requires Has(Effective(access, path, user, origin), c)
    requires forall k, p :: 0 <= k <= |path| && Has(Worth(path, k, p), c) ==> Has(Worth(path + [child], k, p), d)
    ensures Has(Effective(access, path + [child], user, origin), d)
  {
    EffectiveMeaning(access, path, 0, user, origin, c);
    EffectiveMeaning(access, path + [child], 0, user, origin, d);
    var k :| 0 <= k <= |path| && GivenBy(access(path[..k]), path, k, user, origin, c);
    assert (path + [child])[..k] == path[..k];
    var i :| 0 <= i < |access(path[..k])| && GrantMatches(access(path[..k])[i], user, origin)
          && Has(Worth(path, k, access(path[..k])[i].permission), c);
    assert GivenBy(access((path + [child])[..k]), path + [child], k, user, origin, d);
  }

  /** Reading a directory extends to everything below it. */
  lemma ReadIsInherited(access: Access, path: Path, child: string, user: string, origin: string)
    requires CanRead(Effective(access, path, user, origin))
    ensures CanRead(Effective(access, path + [child], user, origin))
  {
    forall k, p | 0 <= k <= |path| && Has(Worth(path, k, p), CapRead) ensures Has(Worth(path + [child], k, p), CapRead) {
      assert 0 < k < |path| ==> (path + [child])[k] == path[k];
    }
    Inherits(access, path, child, user, origin, CapRead, CapRead);
  }

  lemma {:induction false} ReadReachesDown(access: Access, path: Path, below: Path, user: string, origin: string)
    requires CanRead(Effective(access, path, user, origin))
    ensures CanRead(Effective(access, path + below, user, origin))
    decreases |below|
  {
    if below == [] {
      assert path + below == path;
    } else {
      ReadIsInherited(access, path, below[0], user, origin);
      ReadReachesDown(access, path + [below[0]], below[1..], user, origin);
      assert path + [below[0]] + below[1..] == path + below;
    }
  }

  /** Writing a directory makes one the owner of its children, save for .grits; at the root, of that one too. */
  lemma WriteOwnsChildren(access: Access, path: Path, child: string, user: string, origin: string)
    requires CanWrite(Effective(access, path, user, origin)) && (path == [] || child != ".grits")
    ensures CanOwn(Effective(access, path + [child], user, origin))
  {
    forall k, p | 0 <= k <= |path| && Has(Worth(path, k, p), CapWrite) ensures Has(Worth(path + [child], k, p), CapOwn) {
      assert 0 < k < |path| ==> (path + [child])[k] == path[k];
    }
    Inherits(access, path, child, user, origin, CapWrite, CapOwn);
  }

  lemma OwnerOwnsBelow(access: Access, path: Path, child: string, user: string, origin: string)
    requires CanOwn(Effective(access, path, user, origin))
    ensures CanOwn(Effective(access, path + [child], user, origin))
  {
    forall k, p | 0 <= k <= |path| && Has(Worth(path, k, p), CapOwn) ensures Has(Worth(path + [child], k, p), CapOwn) {
      assert 0 < k < |path| ==> (path + [child])[k] == path[k];
    }
    Inherits(access, path, child, user, origin, CapOwn, CapOwn);
  }

  /** Owning a directory extends to everything below it, .grits directories included. */
  lemma {:induction false} OwnerReachesDown(access: Access, path: Path, below: Path, user: string, origin: string)
    requires CanOwn(Effective(access, path, user, origin))
    ensures CanOwn(Effective(access, path + below, user, origin))
    decreases |below|
  {
    if below == [] {
      assert path + below == path;
    } else {
      OwnerOwnsBelow(access, path, below[0], user, origin);
      OwnerReachesDown(access, path + [below[0]], below[1..], user, origin);
      assert path + [below[0]] + below[1..] == path + below;
    }
  }

  /** At a directory named .grits, only an owner can write. */
  lemma GritsIsOwnersOnly(access: Access, path: Path, user: string, origin: string)
    requires path != [] && path[|path| - 1] == ".grits"
    ensures CanWrite(Effective(access, path, user, origin)) <==> CanOwn(Effective(access, path, user, origin))
  {
    EffectiveMeaning(access, path, 0, user, origin, CapWrite);
    EffectiveMeaning(access, path, 0, user, origin, CapOwn);
    assert forall k, p :: 0 <= k <= |path| ==> (Has(Worth(path, k, p), CapWrite) <==> Has(Worth(path, k, p), CapOwn));
    if Granted(access, path, 0, user, origin, CapWrite) {
      var k :| 0 <= k <= |path| && GivenBy(access(path[..k]), path, k, user, origin, CapWrite);
      assert GivenBy(access(path[..k]), path, k, user, origin, CapOwn);
    }
    if Granted(access, path, 0, user, origin, CapOwn) {
      var k :| 0 <= k <= |path| && GivenBy(access(path[..k]), path, k, user, origin, CapOwn);
      assert GivenBy(access(path[..k]), path, k, user, origin, CapWrite);
    }
  }

  /** Below a directory other than the root, a lone read+write grant gives only read on its .grits. */
  lemma LoneWriterReadsGrits(access: Access, path: Path, g: Grant, user: string, origin: string)
    requires path != [] && path[|path| - 1] != ".grits" && g.permission.ReadWrite? && GrantMatches(g, user, origin)
    requires forall p :: access(p) == if p == path then [g] else []
    ensures Effective(access, path, user, origin) == ReadWrite
    ensures Effective(access, path + [".grits"], user, origin) == Read
  {
    var grits := path + [".grits"];
    forall c ensures Has(Effective(access, grits, user, origin), c) <==> Has(Read, c) {
      LoneGrant(access, grits, |path|, g, user, origin, c);
    }
    SameCapabilities(Effective(access, grits, user, origin), Read);
    forall c ensures Has(Effective(access, path, user, origin), c) <==> Has(ReadWrite, c) {
      LoneGrant(access, path, |path|, g, user, origin, c);
    }
    SameCapabilities(Effective(access, path, user, origin), ReadWrite);
  }

  lemma LoneGrant(access: Access, path: Path, level: nat, g: Grant, user: string, origin: string, c: Capability)
    requires level <= |path| && GrantMatches(g, user, origin)
    requires forall p :: access(p) == if p == path[..level] then [g] else []
    ensures Has(Effective(access, path, user, origin), c) <==> Has(Worth(path, level, g.permission), c)
  {
    EffectiveMeaning(access, path, 0, user, origin, c);
    if Granted(access, path, 0, user, origin, c) {
      var k :| 0 <= k <= |path| && GivenBy(access(path[..k]), path, k, user, origin, c);
      assert |path[..k]| == k && |path[..level]| == level;
    }
    if Has(Worth(path, level, g.permission), c) {
      assert [g][0] == g;
      assert GivenBy(access(path[..level]), path, level, user, origin, c);
    }
  }

  /** Inserting without writing is never inherited: it takes a matching grant in the directory's own access file. */
  lemma InsertIsLocal(access: Access, path: Path, user: string, origin: string)
    requires CanInsert(Effective(access, path, user, origin)) && !CanWrite(Effective(access, path, user, origin))
    ensures path != [] && access(path) != []
  {
    EffectiveMeaning(access, path, 0, user, origin, CapInsert);
    EffectiveMeaning(access, path, 0, user, origin, CapWrite);
    var k :| 0 <= k <= |path| && GivenBy(access(path[..k]), path, k, user, origin, CapInsert);
    InsertStaysLocal(access(path[..k]), path, k, user, origin);
    assert path[..|path|] == path;
  }

  /** A lone insert grant applies at the very directory that holds it, at each but the root. */
  lemma LoneInsertApplies(access: Access, path: Path, g: Grant, user: string, origin: string)
    requires GrantMatches(g, user, origin) && CanInsert(g.permission) && !CanWrite(g.permission)
    requires forall p :: access(p) == if p == path then [g] else []
    ensures CanInsert(Effective(access, path, user, origin)) <==> path != []
    ensures !CanWrite(Effective(access, path, user, origin))
  {
    assert path[..|path|] == path;
    LoneGrant(access, path, |path|, g, user, origin, CapInsert);
    LoneGrant(access, path, |path|, g, user, origin, CapWrite);
  }

  lemma InsertStaysLocal(grants: seq<Grant>, path: Path, k: nat, user: string, origin: string)
    requires k <= |path| && GivenBy(grants, path, k, user, origin, CapInsert)
    requires !GivenBy(grants, path, k, user, origin, CapWrite)
    ensures 0 < k == |path| && grants != []
  {
    var i :| 0 <= i < |grants| && GrantMatches(grants[i], user, origin)
          && Has(Worth(path, k, grants[i].permission), CapInsert);
    assert !Has(Worth(path, k, grants[i].permission), CapWrite);
  }

  /** Write permission on a path comes from a grant that allows writing, at a directory on the way. */
  lemma WriteGrant(access: Access, path: Path, user: string, origin: string) returns (d: Path, g: Grant)
    requires CanWrite(Effective(access, path, user, origin))
    ensures d <= path && g in access(d) && GrantMatches(g, user, origin) && CanWrite(g.permission)
  {
    EffectiveMeaning(access, path, 0, user, origin, CapWrite);
    var k :| 0 <= k <= |path| && GivenBy(access(path[..k]), path, k, user, origin, CapWrite);
    d := path[..k];
    var i :| 0 <= i < |access(d)| && GrantMatches(access(d)[i], user, origin)
          && Has(Worth(path, k, access(d)[i].permission), CapWrite);
    g := access(d)[i];
  }

  /** A matching grant that is worth writing at a path gives it. */
  lemma GrantReaches(access: Access, path: Path, d: Path, g: Grant, user: string, origin: string)
    requires d <= path && g in access(d) && GrantMatches(g, user, origin)
    requires CanWrite(Worth(path, |d|, g.permission))
    ensures CanWrite(Effective(access, path, user, origin))
  {
    var i :| 0 <= i < |access(d)| && access(d)[i] == g;
    assert path[..|d|] == d;
    assert GivenBy(access(path[..|d|]), path, |d|, user, origin, CapWrite);
    EffectiveMeaning(access, path, 0, user, origin, CapWrite);
  }
}
