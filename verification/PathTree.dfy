/**
  Lookup and update of paths in a Merkle tree: `resolveFromLocal` and `recursiveLink`
  (internal/grits/namestore.go), and the plain path map they implement.
*/
module PathTree {
  import opened Wrappers
  import opened Merkle

  /** A path is the list of its segments; the root is the empty list. */
  type Path = seq<Name>

  /** p is q or one of its ancestors. */
  predicate AtOrAbove(p: Path, q: Path) {
    p <= q
  }

  /** One of the two is at or above the other. */
  predicate Related(p: Path, q: Path) {
    AtOrAbove(p, q) || AtOrAbove(q, p)
  }

  /** Two ancestors of one path are ancestors of each other. */
  lemma AncestorsCompare(p: Path, q: Path, r: Path)
    requires AtOrAbove(p, r) && AtOrAbove(q, r)
    ensures AtOrAbove(p, q) || AtOrAbove(q, p)
  {
    if |p| <= |q| { assert p == r[..|p|] == q[..|p|]; } else { assert q == r[..|q|] == p[..|q|]; }
  }

  /** Normalised paths have no empty, "." or ".." segment. */
  predicate Normal(path: Path): (normal: bool)
    ensures normal ==> path != [""] && path != ["."]
  {
    assert path == [""] || path == ["."] ==> path[0] == "" || path[0] == ".";
    forall i :: 0 <= i < |path| ==> path[i] != "" && path[i] != "." && path[i] != ".."
  }

  datatype Error =
    | NotExist | NotDir | AssertionFailed | UnlinkRoot | NotRelative | Denied
    | Unavailable   // a blob is missing from the store or does not parse

  /** The node a path names, wherever its blobs are. */
  function Lookup(root: Addr, path: Path): Option<Addr> {
    if path == [] then Some(root)
    else if path[0] in Kids(root) then Lookup(Kids(root)[path[0]], path[1..])
    else None
  }

  lemma {:induction false} LookupConcat(root: Addr, p: Path, q: Path)
    ensures Lookup(root, p + q) == match Lookup(root, p) { case Some(x) => Lookup(x, q) case None => None }
  {
    if p == [] {
      assert p + q == q;
    } else {
      assert (p + q)[1..] == p[1..] + q;
      if p[0] in Kids(root) { LookupConcat(Kids(root)[p[0]], p[1..], q); }
    }
  }

  lemma StepInto(root: Addr, p: Path, n: Name)
    requires Lookup(root, p).Some?
    ensures var x := Lookup(root, p).value;
      Lookup(root, p + [n]) == if n in Kids(x) then Some(Kids(x)[n]) else None
  {
    LookupConcat(root, p, [n]);
    assert [n][1..] == [];
  }

  /** Every prefix of a path that exists, exists and (if proper) is a directory. */
  lemma LookupPrefix(root: Addr, p: Path, q: Path)
    requires p <= q && Lookup(root, q).Some?
    ensures Lookup(root, p).Some?
    ensures p != q ==> IsDir(Lookup(root, p).value)
  {
    assert q == p + q[|p|..];
    LookupConcat(root, p, q[|p|..]);
  }

  lemma {:induction false} LookupReaches(root: Addr, p: Path)
    requires Lookup(root, p).Some?
    ensures Reaches(root, Lookup(root, p).value)
  {
    if p != [] { LookupReaches(Kids(root)[p[0]], p[1..]); }
  }

  lemma {:induction false} ReachesIsLookup(root: Addr, x: Addr) returns (p: Path)
    requires Reaches(root, x)
    ensures Lookup(root, p) == Some(x)
  {
    if x == root { p := []; }
    else {
      var n :| n in Kids(root) && Reaches(Kids(root)[n], x);
      var q := ReachesIsLookup(Kids(root)[n], x);
      p := [n] + q;
    }
  }

  // ---------------------------------------------------------------- resolveFromLocal

  datatype Outcome = Found(addr: Addr) | NotFound | NotDirectory | Internal

  datatype PathNodePair = PathNodePair(path: Path, outcome: Outcome)

  /** One step of the walk: what the next segment is reported as. */
  function StepOutcome(present: set<Addr>, current: Option<Addr>, part: Name): Outcome
    requires current.Some? ==> IsNode(current.value)
  {
    match current
    case None => NotFound
    case Some(node) =>
      if node.kind.File? then NotDirectory
      else match ChildrenOf(node)
        case Entries(entries) =>
          if part !in entries then NotFound
          else if !Loadable(present, entries[part]) then Internal
          else Found(entries[part])
        case _ => Internal
  }

  function FoundNode(o: Outcome): Option<Addr> {
    if o.Found? then Some(o.addr) else None
  }

  /** The entries reported below an already resolved prefix. */
  function Walk(present: set<Addr>, current: Option<Addr>, prefix: Path, parts: Path): (r: seq<PathNodePair>)
    requires current.Some? ==> IsNode(current.value)
    decreases |parts|
  {
    if parts == [] then []
    else if parts[0] == "" then Walk(present, current, prefix, parts[1..])
    else
      var o := StepOutcome(present, current, parts[0]);
      [PathNodePair(prefix + [parts[0]], o)] + Walk(present, FoundNode(o), prefix + [parts[0]], parts[1..])
  }

  function WithoutEmpty(path: Path): (r: Path)
    ensures NoEmptySegment(r)
  {
    if path == [] then [] else if path[0] == "" then WithoutEmpty(path[1..]) else [path[0]] + WithoutEmpty(path[1..])
  }

  /** Empty segments are passed over. */
  lemma {:induction false} EmptySegmentsSkipped(present: set<Addr>, current: Option<Addr>, prefix: Path, parts: Path)
    requires current.Some? ==> IsNode(current.value)
    ensures Walk(present, current, prefix, parts) == Walk(present, current, prefix, WithoutEmpty(parts))
    decreases |parts|
  {
    if parts != [] {
      if parts[0] == "" {
        EmptySegmentsSkipped(present, current, prefix, parts[1..]);
      } else {
        var o := StepOutcome(present, current, parts[0]);
        EmptySegmentsSkipped(present, FoundNode(o), prefix + [parts[0]], parts[1..]);
        assert WithoutEmpty(parts)[1..] == WithoutEmpty(parts[1..]);
      }
    }
  }

  lemma WalkStep(present: set<Addr>, current: Option<Addr>, prefix: Path, parts: Path, before: seq<PathNodePair>)
    requires parts != [] && parts[0] != "" && (current.Some? ==> IsNode(current.value))
    ensures var o := StepOutcome(present, current, parts[0]);
      && (FoundNode(o).Some? ==> IsNode(FoundNode(o).value))
      && before + Walk(present, current, prefix, parts)
           == before + [PathNodePair(prefix + [parts[0]], o)]
              + Walk(present, FoundNode(o), prefix + [parts[0]], parts[1..])
  {
  }

  lemma StepComplete(present: set<Addr>, current: Option<Addr>, part: Name)
    requires current.Some? ==> Complete(present, current.value)
    ensures var o := StepOutcome(present, current, part);
      !o.Internal? && (FoundNode(o).Some? ==> Complete(present, FoundNode(o).value))
  {
    if current.Some? && part in Kids(current.value) { assert Complete(present, Kids(current.value)[part]); }
  }

  function Resolve(present: set<Addr>, root: Addr, path: Path): seq<PathNodePair>
    requires IsNode(root)
  {
    [PathNodePair([], Found(root))] + Walk(present, Some(root), [], path)
  }

  function Leaf(pairs: seq<PathNodePair>): PathNodePair
    requires pairs != []
  {
    pairs[|pairs| - 1]
  }

  ghost predicate NoEmptySegment(path: Path) {
    forall i :: 0 <= i < |path| ==> path[i] != ""
  }

  /** How an absent path is reported: not_dir right below a file, not_found otherwise. */
  ghost function ExpectedOutcome(root: Addr, path: Path): Outcome {
    match Lookup(root, path)
    case Some(x) => Found(x)
    case None =>
      if path != [] && Lookup(root, path[..|path| - 1]).Some? && !IsDir(Lookup(root, path[..|path| - 1]).value)
      then NotDirectory else NotFound
  }

  /** One step of the walk. */
  lemma StepMeaning(present: set<Addr>, root: Addr, prefix: Path, part: Name)
    requires NoEmptySegment(prefix + [part])
    requires Lookup(root, prefix).Some? ==> Complete(present, Lookup(root, prefix).value)
    ensures var next := prefix + [part]; var o := StepOutcome(present, Lookup(root, prefix), part);
      && o == ExpectedOutcome(root, next) && FoundNode(o) == Lookup(root, next)
      && (Lookup(root, next).Some? ==> Complete(present, Lookup(root, next).value))
  {
    var next, cur := prefix + [part], Lookup(root, prefix);
    assert next[|prefix|] == part;
    LookupConcat(root, prefix, [part]);
    assert [part][1..] == [] && next[..|next| - 1] == prefix;
    if cur.Some? && part in Kids(cur.value) { assert Complete(present, Kids(cur.value)[part]); }
  }

  lemma {:induction false} WalkMeaning(present: set<Addr>, root: Addr, prefix: Path, parts: Path)
    requires Complete(present, root)
    requires NoEmptySegment(prefix + parts)
    requires Lookup(root, prefix).Some? ==> Complete(present, Lookup(root, prefix).value)
    ensures var w := Walk(present, Lookup(root, prefix), prefix, parts);
      && |w| == |parts|
      && forall i :: 0 <= i < |parts| ==>
           && w[i].path == prefix + parts[..i + 1]
           && w[i].outcome == ExpectedOutcome(root, prefix + parts[..i + 1])
    decreases |parts|
  {
    if parts != [] {
      var next := prefix + [parts[0]];
      assert (prefix + parts)[|prefix|] == parts[0];
      assert next + parts[1..] == prefix + parts;
      assert next == (prefix + parts)[..|next|];
      StepMeaning(present, root, prefix, parts[0]);
      assert FoundNode(StepOutcome(present, Lookup(root, prefix), parts[0])) == Lookup(root, next);
      WalkMeaning(present, root, next, parts[1..]);
      var w := Walk(present, Lookup(root, prefix), prefix, parts);
      forall i | 0 <= i < |parts|
        ensures w[i].path == prefix + parts[..i + 1] && w[i].outcome == ExpectedOutcome(root, prefix + parts[..i + 1])
      {
        if i == 0 {
          assert prefix + parts[..1] == next;
        } else {
          assert next + parts[1..][..i] == prefix + parts[..i + 1];
        }
      }
    }
  }

  /**
    In a tree whose blobs are all held, a lookup answers for the root and for each prefix of the path in
    turn, and each answer is what the tree says.
  */
  lemma ResolveMeaning(present: set<Addr>, root: Addr, path: Path)
    requires Complete(present, root) && NoEmptySegment(path)
    ensures var r := Resolve(present, root, path);
      && |r| == |path| + 1
      && forall i :: 0 <= i <= |path| ==> r[i] == PathNodePair(path[..i], ExpectedOutcome(root, path[..i]))
  {
    assert [] + path == path;
    WalkMeaning(present, root, [], path);
    var r := Resolve(present, root, path);
    forall i | 0 <= i <= |path| ensures r[i] == PathNodePair(path[..i], ExpectedOutcome(root, path[..i])) {
      if i > 0 { assert [] + path[..i] == path[..i]; }
    }
  }

  // ---------------------------------------------------------------- recursiveLink

  /** The parts `SplitN` yields step by step: [""] for the root. */
  function LinkParts(path: Path): Path {
    if path == [] || path == ["."] then [""] else path
  }

  /** What is left of a path string once its trailing slashes are trimmed. */
  predicate Trimmed(path: Path) {
    path != [] ==> path[|path| - 1] != ""
  }

  predicate Linkable(parts: Path, target: Option<Addr>) {
    && parts != []
    && (parts == [""] ==> target.Some?)
    && (parts != [""] ==> parts[|parts| - 1] != "")
  }

  function WithEntry(entries: map<Name, Addr>, n: Name, target: Option<Addr>): map<Name, Addr> {
    match target
    case Some(t) => entries[n := t]
    case None => entries - {n}
  }

  /**
    The directory that results from linking target at parts below parent.  Directories rebuilt on the way
    up get the time stamps clock(step, 1), clock(step, 2), ... from the bottom.
  */
  function Link(present: set<Addr>, parts: Path, target: Option<Addr>, parent: Addr,
                clock: (nat, nat) -> string, step: nat): Result<Addr, Error>
    requires Linkable(parts, target) && IsNode(parent)
    decreases |parts|
  {
    match ChildrenOf(parent)
    case Corrupt => Err(Unavailable)
    case NoChildren => Err(NotDir)
    case Entries(entries) =>
      var n := parts[0];
      if n in entries && !Loadable(present, entries[n]) then Err(Unavailable)
      else if n !in entries && |parts| > 1 then Err(NotExist)
      else if |parts| == 1 then
        if target.Some? && !Loadable(present, target.value) then Err(Unavailable)
        else if n == "" then Ok(target.value)
        else Ok(TreeNode(WithEntry(entries, n, target), clock(step, 1)))
      else
        match Link(present, parts[1..], target, entries[n], clock, step)
        case Err(e) => Err(e)
        case Ok(child) => Ok(TreeNode(entries[n := child], clock(step, |parts|)))
  }

  /** The blobs written while linking: content and metadata of each directory on the rebuilt spine. */
  function Written(root: Addr, parts: Path): set<Addr>
    decreases |parts|
  {
    if parts == [""] || parts == [] || !root.Metadata? then {}
    else {root, root.content} + if parts[0] in Kids(root) then Written(Kids(root)[parts[0]], parts[1..]) else {}
  }

  /** What linking does to every path: replaced at and below, still a directory above, untouched elsewhere. */
  lemma {:induction false} LinkMeaning(present: set<Addr>, parts: Path, target: Option<Addr>, root: Addr,
                                       clock: (nat, nat) -> string, step: nat, q: Path)
    requires Linkable(parts, target) && IsNode(root) && parts != [""]
    requires Link(present, parts, target, root, clock, step).Ok?
    ensures var root' := Link(present, parts, target, root, clock, step).value;
      if parts <= q then
        Lookup(root', q) == match target { case Some(t) => Lookup(t, q[|parts|..]) case None => None }
      else if q <= parts then
        && Lookup(root', q).Some? && IsDir(Lookup(root', q).value)
        && Lookup(root, q).Some? && IsDir(Lookup(root, q).value)
      else
        Lookup(root', q) == Lookup(root, q)
    decreases |parts|
  {
    var root' := Link(present, parts, target, root, clock, step).value;
    var n := parts[0];
    if q == [] {
    } else if |parts| == 1 {
      if parts <= q { assert q[0] == n; assert q[1..] == q[|parts|..]; }
    } else if q[0] == n {
      LinkMeaning(present, parts[1..], target, Kids(root)[n], clock, step, q[1..]);
      assert parts <= q <==> parts[1..] <= q[1..] by { PrefixStep(parts, q); }
      assert q <= parts <==> q[1..] <= parts[1..] by { PrefixStep(q, parts); }
      if parts <= q { assert q[1..][|parts| - 1..] == q[|parts|..]; }
    } else {
      assert !(parts <= q) && !(q <= parts);
    }
  }

  lemma PrefixStep(p: Path, q: Path)
    requires p != [] && q != [] && p[0] == q[0]
    ensures p <= q <==> p[1..] <= q[1..]
  {
    assert p == [p[0]] + p[1..] && q == [q[0]] + q[1..];
    if p <= q { assert p[1..] == q[..|p|][1..] == q[1..][..|p| - 1]; }
    if p[1..] <= q[1..] { assert p == q[..|p|]; }
  }

  ghost predicate NonDirAt(root: Addr, path: Path) {
    Lookup(root, path).Some? && !IsDir(Lookup(root, path).value)
  }

  /** A tree built from parts that are held is itself held. */
  lemma {:induction false} LinkKeepsComplete(present: set<Addr>, parts: Path, target: Option<Addr>, root: Addr,
                                             clock: (nat, nat) -> string, step: nat)
    requires Linkable(parts, target) && Complete(present, root)
    requires target.Some? ==> Complete(present, target.value)
    requires Link(present, parts, target, root, clock, step).Ok?
    ensures var root' := Link(present, parts, target, root, clock, step).value;
      Complete(present + Written(root', parts), root')
    decreases |parts|
  {
    var n, root' := parts[0], Link(present, parts, target, root, clock, step).value;
    var more := present + Written(root', parts);
    if parts == [""] {
      CompleteMonotone(present, more, root');
    } else {
      if |parts| > 1 {
        assert Complete(present, Kids(root)[n]);
        LinkKeepsComplete(present, parts[1..], target, Kids(root)[n], clock, step);
        CompleteMonotone(present + Written(Kids(root')[n], parts[1..]), more, Kids(root')[n]);
      } else if target.Some? {
        CompleteMonotone(present, more, target.value);
      }
      forall m | m in Kids(root') && m != n ensures Complete(more, Kids(root')[m]) {
        CompleteMonotone(present, more, Kids(root)[m]);
      }
    }
  }

  /** Where the link is refused: nothing is there to link into, or it is no directory. */
  ghost function ExpectedLinkError(root: Addr, parts: Path): Option<Error>
    requires parts != []
  {
    match Lookup(root, parts[..|parts| - 1])
    case Some(d) => if IsDir(d) then None else Some(NotDir)
    case None =>
      if exists i :: 0 <= i < |parts| && NonDirAt(root, parts[..i])
      then Some(NotDir) else Some(NotExist)
  }

  /**
    In a tree that is held, a link fails exactly when its parent is missing or not a directory, or else when the
    target cannot be loaded, each time with its own error.
  */
  lemma {:induction false} LinkFailsExactly(present: set<Addr>, parts: Path, target: Option<Addr>, root: Addr,
                                            clock: (nat, nat) -> string, step: nat)
    requires Linkable(parts, target) && Complete(present, root)
    ensures var r := Link(present, parts, target, root, clock, step);
      match ExpectedLinkError(root, parts) {
        case None => if target.None? || Loadable(present, target.value) then r.Ok? else r == Err(Unavailable)
        case Some(e) => r == Err(e)
      }
    decreases |parts|
  {
    var n := parts[0];
    assert parts[..0] == [];
    if |parts| > 1 && IsDir(root) && n in Kids(root) {
      var child, rest := Kids(root)[n], parts[1..];
      LinkFailsExactly(present, rest, target, child, clock, step);
      forall i | 0 <= i < |rest| ensures Lookup(root, parts[..i + 1]) == Lookup(child, rest[..i]) {
        assert parts[..i + 1][1..] == rest[..i];
      }
      assert Lookup(root, parts[..|parts| - 1]) == Lookup(child, rest[..|rest| - 1]);
      forall i | 0 <= i < |parts| && NonDirAt(root, parts[..i])
        ensures exists j :: 0 <= j < |rest| && NonDirAt(child, rest[..j])
      {
        assert i > 0;
        assert parts[..i - 1 + 1] == parts[..i];
        assert NonDirAt(child, rest[..i - 1]);
      }
      forall j | 0 <= j < |rest| && NonDirAt(child, rest[..j])
        ensures exists i :: 0 <= i < |parts| && NonDirAt(root, parts[..i])
      {
        assert NonDirAt(root, parts[..j + 1]);
      }
    } else if |parts| > 1 && IsDir(root) {
      forall i | 0 < i < |parts| ensures Lookup(root, parts[..i]).None? {
        assert parts[..i][0] == n;
      }
    } else if !IsDir(root) {
      assert NonDirAt(root, parts[..0]);
      assert |parts| > 1 ==> parts[..|parts| - 1] != [];
    } else {
      assert parts[..|parts| - 1] == [];
      if n in Kids(root) { assert Complete(present, Kids(root)[n]); }
    }
  }

  /** The directories on the way are new, with the time stamps of this link. */
  lemma {:induction false} LinkStamps(present: set<Addr>, parts: Path, target: Option<Addr>, root: Addr,
                                      clock: (nat, nat) -> string, step: nat, k: nat)
    requires Linkable(parts, target) && IsNode(root) && parts != [""] && k < |parts|
    requires Link(present, parts, target, root, clock, step).Ok?
    ensures var x := Lookup(Link(present, parts, target, root, clock, step).value, parts[..k]);
      x.Some? && x.value.Metadata? && x.value.stamp == clock(step, |parts| - k)
    decreases |parts|
  {
    if k > 0 {
      LinkStamps(present, parts[1..], target, Kids(root)[parts[0]], clock, step, k - 1);
      assert parts[..k][1..] == parts[1..][..k - 1];
    }
  }

  // ---------------------------------------------------------------- what stops a link in any tree

  /** The way down the path leads to segment i through nodes that can be loaded. */
  ghost predicate GetsTo(present: set<Addr>, root: Addr, parts: Path, i: nat) {
    && i <= |parts| && Lookup(root, parts[..i]).Some?
    && forall j :: 0 < j <= i ==> CanLoadAt(present, root, parts[..j])
  }

  ghost predicate CanLoadAt(present: set<Addr>, root: Addr, path: Path) {
    Lookup(root, path).Some? && Loadable(present, Lookup(root, path).value)
  }

  /** What stops a link at segment i, and the error it is reported with. */
  ghost predicate IsObstacle(present: set<Addr>, root: Addr, parts: Path, target: Option<Addr>, i: nat, e: Error) {
    i < |parts| && GetsTo(present, root, parts, i)
    && var x, n := Lookup(root, parts[..i]).value, parts[i];
    x.Metadata? && match e
      case NotDir => x.kind.File?
      case NotExist => IsDir(x) && n !in Kids(x) && i + 1 < |parts|
      case Unavailable =>
        || (!x.kind.File? && !IsDir(x))
        || (IsDir(x) && n in Kids(x) && !Loadable(present, Kids(x)[n]))
        || (IsDir(x) && i + 1 == |parts| && target.Some? && !Loadable(present, target.value))
      case _ => false
  }

  lemma ObstacleBelow(present: set<Addr>, root: Addr, parts: Path, target: Option<Addr>, i: nat, e: Error)
    requires i + 1 < |parts| && parts[0] in Kids(root) && Loadable(present, Kids(root)[parts[0]])
    ensures IsObstacle(present, root, parts, target, i + 1, e)
       <==> IsObstacle(present, Kids(root)[parts[0]], parts[1..], target, i, e)
  {
    var child, rest := Kids(root)[parts[0]], parts[1..];
    forall j: nat | j <= i ensures Lookup(root, parts[..j + 1]) == Lookup(child, rest[..j]) {
      assert parts[..j + 1][1..] == rest[..j];
    }
    assert rest[..0] == [];
    if GetsTo(present, root, parts, i + 1) {
      forall j | 0 < j <= i ensures CanLoadAt(present, child, rest[..j]) {
        assert CanLoadAt(present, root, parts[..j + 1]);
      }
    }
    if GetsTo(present, child, rest, i) {
      forall j | 0 < j <= i + 1 ensures CanLoadAt(present, root, parts[..j]) {
        assert parts[..j] == parts[..j - 1 + 1];
        if j > 1 { assert CanLoadAt(present, child, rest[..j - 1]); }
      }
    }
  }

  /** A link that fails was stopped by something on its way. */
  lemma {:induction false} LinkErrorMeaning(present: set<Addr>, parts: Path, target: Option<Addr>, root: Addr,
                                            clock: (nat, nat) -> string, step: nat) returns (i: nat)
    requires Linkable(parts, target) && IsNode(root) && Link(present, parts, target, root, clock, step).Err?
    ensures IsObstacle(present, root, parts, target, i, Link(present, parts, target, root, clock, step).error)
    decreases |parts|
  {
    var n := parts[0];
    assert parts[..0] == [];
    i := 0;
    if |parts| > 1 && n in Kids(root) && Loadable(present, Kids(root)[n]) {
      var j := LinkErrorMeaning(present, parts[1..], target, Kids(root)[n], clock, step);
      ObstacleBelow(present, root, parts, target, j, Link(present, parts, target, root, clock, step).error);
      i := j + 1;
    }
  }

  /** Whatever is in the way of a link stops it, with its error; so there is one obstacle only. */
  lemma {:induction false} ObstacleStops(present: set<Addr>, parts: Path, target: Option<Addr>, root: Addr,
                                         clock: (nat, nat) -> string, step: nat, i: nat, e: Error)
    requires Linkable(parts, target) && IsNode(root) && IsObstacle(present, root, parts, target, i, e)
    ensures Link(present, parts, target, root, clock, step) == Err(e)
    decreases |parts|
  {
    assert parts[..0] == [];
    if i > 0 {
      assert CanLoadAt(present, root, parts[..1]) && parts[..1] == [] + [parts[0]];
      StepInto(root, [], parts[0]);
      ObstacleBelow(present, root, parts, target, i - 1, e);
      ObstacleStops(present, parts[1..], target, Kids(root)[parts[0]], clock, step, i - 1, e);
    }
  }

  // ---------------------------------------------------------------- the walk in any tree

  /** What the walk reports for a path when not all of the tree can be loaded. */
  ghost function OutcomeIn(present: set<Addr>, root: Addr, path: Path): Outcome
    requires path != []
  {
    var d, n := path[..|path| - 1], path[|path| - 1];
    if GetsTo(present, root, path, |path|) && Lookup(root, path).Some? then Found(Lookup(root, path).value)
    else if !GetsTo(present, root, path, |d|) then NotFound
    else
      var x := Lookup(root, d).value;
      if x.Metadata? && x.kind.File? then NotDirectory
      else if IsDir(x) && n !in Kids(x) then NotFound
      else Internal
  }

  lemma GetsFurther(present: set<Addr>, root: Addr, path: Path, i: nat)
    requires i < |path| && GetsTo(present, root, path, i)
    ensures GetsTo(present, root, path, i + 1) <==> CanLoadAt(present, root, path[..i + 1])
  {
  }

  lemma GetsUpTo(present: set<Addr>, root: Addr, path: Path, i: nat, k: nat)
    requires i <= k <= |path|
    ensures GetsTo(present, root, path[..k], i) <==> GetsTo(present, root, path, i)
    ensures GetsTo(present, root, path, k) ==> GetsTo(present, root, path, i)
  {
    forall j: nat | j <= i ensures path[..k][..j] == path[..j] {}
    if GetsTo(present, root, path[..k], i) {
      forall j | 0 < j <= i ensures CanLoadAt(present, root, path[..j]) {
        assert CanLoadAt(present, root, path[..k][..j]);
      }
    }
    if GetsTo(present, root, path, i) {
      forall j | 0 < j <= i ensures CanLoadAt(present, root, path[..k][..j]) {
        assert CanLoadAt(present, root, path[..j]);
      }
    }
    if GetsTo(present, root, path, k) && i < k {
      if i > 0 { assert CanLoadAt(present, root, path[..i]); }
    }
  }

  /** The node that the walk has come to after i segments, if any. */
  ghost function WalkedTo(present: set<Addr>, root: Addr, path: Path, i: nat): Option<Addr>
    requires i <= |path|
  {
    if GetsTo(present, root, path, i) then Lookup(root, path[..i]) else None
  }

  lemma StepIn(present: set<Addr>, root: Addr, path: Path, i: nat)
    requires IsNode(root) && i < |path|
    ensures WalkedTo(present, root, path, i).Some? ==> IsNode(WalkedTo(present, root, path, i).value)
    ensures var o := StepOutcome(present, WalkedTo(present, root, path, i), path[i]);
      o == OutcomeIn(present, root, path[..i + 1]) && FoundNode(o) == WalkedTo(present, root, path, i + 1)
  {
    var p := path[..i + 1];
    assert p[..|p| - 1] == path[..i] && p[..|p|] == p && path[..i] + [path[i]] == p;
    GetsUpTo(present, root, path, i, i + 1);
    GetsUpTo(present, root, path, i + 1, i + 1);
    if GetsTo(present, root, path, i) {
      if i > 0 { assert CanLoadAt(present, root, path[..i]); }
      GetsFurther(present, root, path, i);
      StepInto(root, path[..i], path[i]);
    }
  }

  lemma WalkInNext(present: set<Addr>, root: Addr, path: Path, i: nat)
    requires IsNode(root) && NoEmptySegment(path) && i < |path|
    requires WalkedTo(present, root, path, i).Some? ==> IsNode(WalkedTo(present, root, path, i).value)
    ensures var next := WalkedTo(present, root, path, i + 1);
      && (next.Some? ==> IsNode(next.value))
      && Walk(present, WalkedTo(present, root, path, i), path[..i], path[i..])
           == [PathNodePair(path[..i + 1], OutcomeIn(present, root, path[..i + 1]))]
              + Walk(present, next, path[..i + 1], path[i + 1..])
  {
    StepIn(present, root, path, i);
    WalkStep(present, WalkedTo(present, root, path, i), path[..i], path[i..], []);
    assert path[i..][0] == path[i] && path[i..][1..] == path[i + 1..] && path[..i] + [path[i]] == path[..i + 1];
  }

  lemma {:induction false} WalkIn(present: set<Addr>, root: Addr, path: Path, i: nat, k: nat)
    requires IsNode(root) && NoEmptySegment(path) && i <= |path| && k < |path|
    requires WalkedTo(present, root, path, i).Some? ==> IsNode(WalkedTo(present, root, path, i).value)
    ensures var w := Walk(present, WalkedTo(present, root, path, i), path[..i], path[i..]);
      |w| == |path| - i
      && (i <= k ==> w[k - i] == PathNodePair(path[..k + 1], OutcomeIn(present, root, path[..k + 1])))
    decreases |path| - i
  {
    if i < |path| {
      WalkInNext(present, root, path, i);
      WalkIn(present, root, path, i + 1, k);
    }
  }

  /** In any tree, a lookup answers for each prefix of the path what can be known of it from what can be loaded. */
  lemma ResolveIn(present: set<Addr>, root: Addr, path: Path, k: nat)
    requires IsNode(root) && NoEmptySegment(path) && k < |path|
    ensures var r := Resolve(present, root, path);
      |r| == |path| + 1 && r[k + 1] == PathNodePair(path[..k + 1], OutcomeIn(present, root, path[..k + 1]))
  {
    assert path[..0] == [] && path[0..] == path;
    assert WalkedTo(present, root, path, 0) == Some(root);
    WalkIn(present, root, path, 0, k);
  }
}
