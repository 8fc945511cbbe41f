/**
  A batch of link requests as one function of the tree: `NameStore.MultiLink` before its commit
  (internal/grits/namestore.go).
*/
module Requests {
  import opened Wrappers
  import opened Merkle
  import opened PathTree
  import opened PathMap

  const ASSERT_PREV_VALUE_MATCHES: bv32 := 1
  const ASSERT_IS_BLOB: bv32 := 2
  const ASSERT_IS_TREE: bv32 := 4
  const ASSERT_IS_NON_EMPTY: bv32 := 8

  /** An absent address (the empty string) unlinks, or asserts that nothing is there. */
  datatype LinkRequest = LinkRequest(path: Path, newAddr: Option<Addr>, prevAddr: Option<Addr>, flags: bv32)

  predicate Has(flags: bv32, mask: bv32) {
    flags & mask != 0
  }

  predicate IsRootRequest(req: LinkRequest) {
    LinkParts(req.path) == [""]
  }

  /** Which node an assertion is about, or why there is no answer. */
  function AssertedNode(present: set<Addr>, root: Addr, path: Path): Result<Option<Addr>, Error>
    requires IsNode(root)
  {
    if path != [] && path[0] == "" then Err(NotRelative)
    else
      var pairs := Resolve(present, root, path);
      match Leaf(pairs).outcome
      case Found(a) => Ok(Some(a))
      case NotFound => if |pairs| >= 2 && pairs[|pairs| - 2].outcome.Found? then Ok(None) else Err(NotExist)
      case _ => Err(NotExist)
  }

  predicate FlagsHold(node: Option<Addr>, prevAddr: Option<Addr>, flags: bv32)
    requires node.Some? ==> IsNode(node.value)
  {
    && (Has(flags, ASSERT_PREV_VALUE_MATCHES) ==> node == prevAddr)
    && (Has(flags, ASSERT_IS_BLOB) ==> node.Some? && node.value.kind.File?)
    && (Has(flags, ASSERT_IS_TREE) ==> node.Some? && node.value.kind.Dir?)
    && (Has(flags, ASSERT_IS_NON_EMPTY) ==> node.Some?)
  }

  lemma {:induction false} WalkFindsNodes(present: set<Addr>, current: Option<Addr>, prefix: Path, parts: Path)
    requires current.Some? ==> IsNode(current.value)
    ensures forall i :: 0 <= i < |Walk(present, current, prefix, parts)| ==>
      var o := Walk(present, current, prefix, parts)[i].outcome;
      o.Found? ==> Loadable(present, o.addr)
    decreases |parts|
  {
    if parts != [] {
      if parts[0] == "" { WalkFindsNodes(present, current, prefix, parts[1..]); }
      else {
        var o := StepOutcome(present, current, parts[0]);
        WalkFindsNodes(present, FoundNode(o), prefix + [parts[0]], parts[1..]);
      }
    }
  }

  /** The outcome of the assertion phase for one request. */
  ghost function CheckRequest(present: set<Addr>, root: Addr, req: LinkRequest): Option<Error>
    requires IsNode(root)
  {
    if IsRootRequest(req) && req.newAddr.None? then Some(UnlinkRoot)
    else if req.flags == 0 then None
    else match AssertedNode(present, root, req.path)
      case Err(e) => Some(e)
      case Ok(node) =>
        WalkFindsNodes(present, Some(root), [], req.path);
        if FlagsHold(node, req.prevAddr, req.flags) then None else Some(AssertionFailed)
  }

  ghost function FirstFailure(present: set<Addr>, root: Addr, reqs: seq<LinkRequest>): Option<Error>
    requires IsNode(root)
  {
    if reqs == [] then None
    else match CheckRequest(present, root, reqs[0])
      case Some(e) => Some(e)
      case None => FirstFailure(present, root, reqs[1..])
  }

  /** The tree a batch leads to, and the blobs that are held once it has been built. */
  datatype Plan = Plan(result: Result<Addr, Error>, present: set<Addr>)

  predicate WellFormed(req: LinkRequest) {
    Trimmed(req.path)
  }

  function LinkOne(present: set<Addr>, root: Addr, req: LinkRequest, clock: (nat, nat) -> string, step: nat): Plan
    requires IsNode(root) && WellFormed(req) && (IsRootRequest(req) ==> req.newAddr.Some?)
  {
    if req.path != [] && req.path[0] == "" then Plan(Err(NotRelative), present)
    else
      var parts := LinkParts(req.path);
      match Link(present, parts, req.newAddr, root, clock, step)
      case Err(e) => Plan(Err(e), present)
      case Ok(root') => Plan(Ok(root'), present + Written(root', parts))
  }

  lemma LinkYieldsNode(present: set<Addr>, root: Addr, req: LinkRequest, clock: (nat, nat) -> string, step: nat)
    requires IsNode(root) && WellFormed(req) && (IsRootRequest(req) ==> req.newAddr.Some?)
    requires LinkOne(present, root, req, clock, step).result.Ok?
    ensures var plan := LinkOne(present, root, req, clock, step);
      Loadable(plan.present, plan.result.value) && present <= plan.present
  {
  }

  /** Requests are applied in order, each to the tree the one before it produced. */
  ghost function LinkAll(present: set<Addr>, root: Addr, reqs: seq<LinkRequest>,
                         clock: (nat, nat) -> string, step: nat): Plan
    requires IsNode(root)
    requires forall i :: 0 <= i < |reqs| ==> WellFormed(reqs[i]) && (IsRootRequest(reqs[i]) ==> reqs[i].newAddr.Some?)
    decreases |reqs| - step
  {
    if step >= |reqs| then Plan(Ok(root), present)
    else
      var plan := LinkOne(present, root, reqs[step], clock, step);
      if plan.result.Err? then plan
      else
        LinkYieldsNode(present, root, reqs[step], clock, step);
        LinkAll(plan.present, plan.result.value, reqs, clock, step + 1)
  }

  /** `MultiLink` up to its point of no return: assertions, links and callbacks (approve). */
  ghost function Proposal(present: set<Addr>, root: Addr, reqs: seq<LinkRequest>, clock: (nat, nat) -> string,
                          approve: (Addr, Addr, seq<LinkRequest>) -> bool): Plan
    requires IsNode(root)
    requires forall i :: 0 <= i < |reqs| ==> WellFormed(reqs[i])
  {
    match FirstFailure(present, root, reqs)
    case Some(e) => Plan(Err(e), present)
    case None =>
      NoRootUnlink(present, root, reqs);
      var plan := LinkAll(present, root, reqs, clock, 0);
      if plan.result.Ok? && !approve(root, plan.result.value, reqs) then plan.(result := Err(Denied)) else plan
  }

  /** The whole of `MultiLink`: taking references then finds out whether every blob of the new tree is held. */
  ghost function MultiLinkPlan(present: set<Addr>, root: Addr, reqs: seq<LinkRequest>, clock: (nat, nat) -> string,
                               approve: (Addr, Addr, seq<LinkRequest>) -> bool): Plan
    requires IsNode(root)
    requires forall i :: 0 <= i < |reqs| ==> WellFormed(reqs[i])
  {
    var plan := Proposal(present, root, reqs, clock, approve);
    if plan.result.Ok? && !Complete(plan.present, plan.result.value) then plan.(result := Err(Unavailable)) else plan
  }

  lemma PlanFollowsProposal(present: set<Addr>, root: Addr, reqs: seq<LinkRequest>, clock: (nat, nat) -> string,
                            approve: (Addr, Addr, seq<LinkRequest>) -> bool)
    requires IsNode(root)
    requires forall i :: 0 <= i < |reqs| ==> WellFormed(reqs[i])
    ensures var p := Proposal(present, root, reqs, clock, approve);
      var plan := MultiLinkPlan(present, root, reqs, clock, approve);
      && plan.present == p.present
      && (p.result.Err? ==> plan.result == p.result)
      && (p.result.Ok? ==> plan.result == if Complete(p.present, p.result.value) then p.result else Err(Unavailable))
  {
  }

  lemma {:induction false} NoRootUnlink(present: set<Addr>, root: Addr, reqs: seq<LinkRequest>)
    requires IsNode(root) && FirstFailure(present, root, reqs).None?
    ensures forall i :: 0 <= i < |reqs| ==> CheckRequest(present, root, reqs[i]).None?
    ensures forall i :: 0 <= i < |reqs| && IsRootRequest(reqs[i]) ==> reqs[i].newAddr.Some?
  {
    if reqs != [] {
      NoRootUnlink(present, root, reqs[1..]);
      forall i | 0 <= i < |reqs| ensures CheckRequest(present, root, reqs[i]).None? {
        if i > 0 { assert reqs[i] == reqs[1..][i - 1]; }
      }
    }
  }

  // ---------------------------------------------------------------- what a batch means

  /** The same batch on the plain path map. */
  ghost function ApplyAll(v: View, reqs: seq<LinkRequest>, step: nat): Option<View>
    decreases |reqs| - step
  {
    if step >= |reqs| then Some(v)
    else if !CanPut(v, reqs[step].path) then None
    else ApplyAll(Graft(v, reqs[step].path, TargetView(reqs[step].newAddr)), reqs, step + 1)
  }

  ghost predicate NormalPaths(reqs: seq<LinkRequest>) {
    forall i :: 0 <= i < |reqs| ==> Normal(reqs[i].path)
  }

  ghost predicate NormalBatch(reqs: seq<LinkRequest>) {
    forall i :: 0 <= i < |reqs| ==> Normal(reqs[i].path) && (reqs[i].path == [] ==> reqs[i].newAddr.Some?)
  }

  /** The links of a batch are, in order, the updates of the path map. */
  lemma {:induction false} BatchRefinesMap(present: set<Addr>, root: Addr, reqs: seq<LinkRequest>,
                                           clock: (nat, nat) -> string, step: nat)
    requires IsNode(root) && NormalBatch(reqs)
    requires LinkAll(present, root, reqs, clock, step).result.Ok?
    ensures ApplyAll(ViewOf(root), reqs, step) == Some(ViewOf(LinkAll(present, root, reqs, clock, step).result.value))
    decreases |reqs| - step
  {
    if step < |reqs| {
      var req := reqs[step];
      LinkRefinesGraft(present, req.path, req.newAddr, root, clock, step);
      var plan := LinkOne(present, root, req, clock, step);
      BatchRefinesMap(plan.present, plan.result.value, reqs, clock, step + 1);
    }
  }

  ghost predicate TargetsHeld(present: set<Addr>, reqs: seq<LinkRequest>) {
    forall i :: 0 <= i < |reqs| && reqs[i].newAddr.Some? ==> Complete(present, reqs[i].newAddr.value)
  }

  /** With every blob held, a batch succeeds exactly when the path map takes each of its updates in turn. */
  lemma {:induction false} BatchSucceedsExactly(present: set<Addr>, root: Addr, reqs: seq<LinkRequest>,
                                                clock: (nat, nat) -> string, step: nat)
    requires Complete(present, root) && NormalBatch(reqs) && TargetsHeld(present, reqs)
    ensures var plan := LinkAll(present, root, reqs, clock, step);
      && (plan.result.Ok? <==> ApplyAll(ViewOf(root), reqs, step).Some?)
      && (plan.result.Ok? ==> Complete(plan.present, plan.result.value))
    decreases |reqs| - step
  {
    if step < |reqs| {
      var req := reqs[step];
      LinkSucceedsExactly(present, req.path, req.newAddr, root, clock, step);
      var plan := LinkOne(present, root, req, clock, step);
      if plan.result.Ok? {
        LinkRefinesGraft(present, req.path, req.newAddr, root, clock, step);
        LinkKeepsComplete(present, LinkParts(req.path), req.newAddr, root, clock, step);
        forall i | 0 <= i < |reqs| && reqs[i].newAddr.Some? ensures Complete(plan.present, reqs[i].newAddr.value) {
          CompleteMonotone(present, plan.present, reqs[i].newAddr.value);
        }
        BatchSucceedsExactly(plan.present, plan.result.value, reqs, clock, step + 1);
      }
    }
  }

  /** The node an assertion is about is the one the tree has there, provided the parent directory exists. */
  lemma AssertedNodeMeaning(present: set<Addr>, root: Addr, path: Path)
    requires Complete(present, root) && Normal(path)
    ensures var node := Lookup(root, path);
      AssertedNode(present, root, path) ==
        if node.Some? || HasDir(ViewOf(root), path[..|path| - 1]) then Ok(node) else Err(NotExist)
  {
    ResolveMeaning(present, root, path);
    assert path[..|path|] == path;
  }

  /** The path exists, or could be given an entry. */
  ghost predicate IsAccountedFor(root: Addr, path: Path) {
    path in ViewOf(root) || (path != [] && HasDir(ViewOf(root), path[..|path| - 1]))
  }

  /** What the flags ask of the tree: bit 1 a certain address, bit 2 a file, bit 4 a directory, bit 8 anything. */
  ghost predicate FlagsMet(root: Addr, path: Path, prevAddr: Option<Addr>, flags: bv32) {
    var v := ViewOf(root);
    && (flags & 1 != 0 ==> Lookup(root, path) == prevAddr)
    && (flags & 2 != 0 ==> path in v && v[path].FileEntry?)
    && (flags & 4 != 0 ==> HasDir(v, path))
    && (flags & 8 != 0 ==> path in v)
  }

  lemma FlagsMeaning(present: set<Addr>, root: Addr, path: Path, prevAddr: Option<Addr>, flags: bv32)
    requires Complete(present, root)
    ensures var node := Lookup(root, path);
      (node.Some? ==> IsNode(node.value)) && (FlagsHold(node, prevAddr, flags) <==> FlagsMet(root, path, prevAddr, flags))
  {
    var node := Lookup(root, path);
    if node.Some? { LookupReaches(root, path); CompleteBelow(present, root, node.value); }
  }

  /** Why a request cannot even be tried: the root stays, and what is asserted must be so. */
  ghost function RequestError(root: Addr, req: LinkRequest): Option<Error> {
    if req.path == [] && req.newAddr.None? then Some(UnlinkRoot)
    else if req.flags != 0 && !IsAccountedFor(root, req.path) then Some(NotExist)
    else if req.flags != 0 && !FlagsMet(root, req.path, req.prevAddr, req.flags) then Some(AssertionFailed)
    else None
  }

  /** The verdict on a request in the assertion phase. */
  lemma AssertionMeaning(present: set<Addr>, root: Addr, req: LinkRequest)
    requires Complete(present, root) && Normal(req.path)
    ensures CheckRequest(present, root, req) == RequestError(root, req)
  {
    AssertedNodeMeaning(present, root, req.path);
    FlagsMeaning(present, root, req.path, req.prevAddr, req.flags);
  }

  lemma {:induction false} AllPass(present: set<Addr>, root: Addr, reqs: seq<LinkRequest>)
    requires IsNode(root)
    ensures FirstFailure(present, root, reqs).None? <==>
      forall i :: 0 <= i < |reqs| ==> CheckRequest(present, root, reqs[i]).None?
  {
    if reqs != [] {
      AllPass(present, root, reqs[1..]);
      assert FirstFailure(present, root, reqs).None? ==>
        forall i :: 0 <= i < |reqs| ==> CheckRequest(present, root, reqs[i]).None? by {
        if FirstFailure(present, root, reqs).None? { NoRootUnlink(present, root, reqs); }
      }
      if forall i :: 0 <= i < |reqs| ==> CheckRequest(present, root, reqs[i]).None? {
        forall i | 0 <= i < |reqs[1..]| ensures CheckRequest(present, root, reqs[1..][i]).None? {
          assert reqs[1..][i] == reqs[i + 1];
        }
      }
    }
  }

  /** What an assertion says about the tree before the batch. */
  ghost predicate AssertionHolds(root: Addr, req: LinkRequest) {
    req.flags != 0 ==> IsAccountedFor(root, req.path) && FlagsMet(root, req.path, req.prevAddr, req.flags)
  }

  /** The error of a batch whose assertions do not all hold is that of the first that fails. */
  lemma {:induction false} FirstFailureMeaning(present: set<Addr>, root: Addr, reqs: seq<LinkRequest>) returns (i: nat)
    requires IsNode(root) && FirstFailure(present, root, reqs).Some?
    ensures i < |reqs| && CheckRequest(present, root, reqs[i]) == FirstFailure(present, root, reqs)
    ensures forall j :: 0 <= j < i ==> CheckRequest(present, root, reqs[j]).None?
  {
    i := 0;
    if CheckRequest(present, root, reqs[0]).None? {
      i := FirstFailureMeaning(present, root, reqs[1..]);
      i := i + 1;
      forall j | 0 <= j < i ensures CheckRequest(present, root, reqs[j]).None? {
        if j > 0 { assert reqs[j] == reqs[1..][j - 1]; }
      }
    }
  }

  lemma AssertionsPass(present: set<Addr>, root: Addr, reqs: seq<LinkRequest>)
    requires Complete(present, root) && NormalBatch(reqs)
    ensures FirstFailure(present, root, reqs).None? <==> forall i :: 0 <= i < |reqs| ==> AssertionHolds(root, reqs[i])
  {
    AllPass(present, root, reqs);
    forall i | 0 <= i < |reqs|
      ensures CheckRequest(present, root, reqs[i]).None? <==> AssertionHolds(root, reqs[i])
    {
      AssertionMeaning(present, root, reqs[i]);
    }
  }

  /**
    `MultiLink` as seen on the path map, when every blob it needs is held: it goes through exactly when all
    assertions hold of the tree as it was, the map takes each update in turn, and the callbacks agree; the map
    it leaves is the one those updates make.
  */
  lemma MultiLinkMeaning(present: set<Addr>, root: Addr, reqs: seq<LinkRequest>, clock: (nat, nat) -> string,
                         approve: (Addr, Addr, seq<LinkRequest>) -> bool)
    requires Complete(present, root) && NormalBatch(reqs) && TargetsHeld(present, reqs)
    ensures var r := MultiLinkPlan(present, root, reqs, clock, approve).result;
      var built := LinkAll(present, root, reqs, clock, 0).result;
      && (built.Ok? <==> ApplyAll(ViewOf(root), reqs, 0).Some?)
      && (r.Ok? <==>
            && (forall i :: 0 <= i < |reqs| ==> AssertionHolds(root, reqs[i]))
            && built.Ok? && approve(root, built.value, reqs))
      && (r.Ok? ==> ApplyAll(ViewOf(root), reqs, 0) == Some(ViewOf(r.value)))
  {
    AssertionsPass(present, root, reqs);
    BatchSucceedsExactly(present, root, reqs, clock, 0);
    if LinkAll(present, root, reqs, clock, 0).result.Ok? { BatchRefinesMap(present, root, reqs, clock, 0); }
  }

  /** The path "." stands for the root. */
  lemma DotIsTheRoot(present: set<Addr>, root: Addr, req: LinkRequest, clock: (nat, nat) -> string, step: nat)
    requires IsNode(root) && req.path == ["."] && req.newAddr.Some?
    ensures LinkOne(present, root, req, clock, step) == LinkOne(present, root, req.(path := []), clock, step)
    ensures CheckRequest(present, root, req.(newAddr := None)) == Some(UnlinkRoot)
  {
  }

  /** A path from the root of a file system is none in a volume. */
  lemma AbsoluteIsRefused(present: set<Addr>, root: Addr, req: LinkRequest, clock: (nat, nat) -> string, step: nat)
    requires IsNode(root) && WellFormed(req) && |req.path| > 1 && req.path[0] == ""
    ensures LinkOne(present, root, req, clock, step).result == Err(NotRelative)
    ensures req.flags != 0 ==> CheckRequest(present, root, req) == Some(NotRelative)
  {
  }

  /** A batch fails at its first link that fails, with the error of that link. */
  lemma {:induction false} BatchStopsAt(present: set<Addr>, root: Addr, reqs: seq<LinkRequest>,
                                        clock: (nat, nat) -> string, step: nat)
    returns (k: nat, before: Plan)
    requires IsNode(root) && NormalBatch(reqs) && LinkAll(present, root, reqs, clock, step).result.Err?
    ensures step <= k < |reqs| && NormalBatch(reqs[..k]) && before == LinkAll(present, root, reqs[..k], clock, step)
    ensures before.result.Ok? && IsNode(before.result.value)
    ensures LinkOne(before.present, before.result.value, reqs[k], clock, k).result
         == LinkAll(present, root, reqs, clock, step).result
    decreases |reqs| - step
  {
    var plan := LinkOne(present, root, reqs[step], clock, step);
    if plan.result.Err? {
      k, before := step, Plan(Ok(root), present);
    } else {
      LinkYieldsNode(present, root, reqs[step], clock, step);
      k, before := BatchStopsAt(plan.present, plan.result.value, reqs, clock, step + 1);
      assert reqs[..k][step] == reqs[step];
    }
  }

  /** A batch that the map takes can fail only for blobs that are missing or do not parse. */
  lemma {:induction false} BatchRefused(present: set<Addr>, root: Addr, reqs: seq<LinkRequest>,
                                        clock: (nat, nat) -> string, step: nat)
    requires IsNode(root) && NormalBatch(reqs) && LinkAll(present, root, reqs, clock, step).result.Err?
    ensures var e := LinkAll(present, root, reqs, clock, step).result.error;
      e == Unavailable || ((e == NotExist || e == NotDir) && ApplyAll(ViewOf(root), reqs, step).None?)
    decreases |reqs| - step
  {
    var req := reqs[step];
    var plan := LinkOne(present, root, req, clock, step);
    if plan.result.Err? {
      LinkRefused(present, req.path, req.newAddr, root, clock, step);
    } else {
      LinkRefinesGraft(present, req.path, req.newAddr, root, clock, step);
      LinkYieldsNode(present, root, req, clock, step);
      BatchRefused(plan.present, plan.result.value, reqs, clock, step + 1);
    }
  }

  /**
    What goes wrong with a batch, whether or not its targets are held: the first assertion that fails, else the
    first link that fails, else the callbacks, else a blob that is missing from the new tree.
  */
  lemma MultiLinkError(present: set<Addr>, root: Addr, reqs: seq<LinkRequest>, clock: (nat, nat) -> string,
                       approve: (Addr, Addr, seq<LinkRequest>) -> bool)
    requires Complete(present, root) && NormalPaths(reqs)
    ensures var r := MultiLinkPlan(present, root, reqs, clock, approve).result;
      if exists i: nat :: FailsFirst(root, reqs, i) then
        exists i: nat :: FailsFirst(root, reqs, i) && r == Err(RequestError(root, reqs[i]).value)
      else
        NormalBatch(reqs) && var built := LinkAll(present, root, reqs, clock, 0);
        if built.result.Err? then r == built.result && IsLinkError(root, reqs, r.error)
        else if !approve(root, built.result.value, reqs) then r == Err(Denied)
        else r == if Complete(built.present, built.result.value) then built.result else Err(Unavailable)
  {
    if FirstFailure(present, root, reqs).Some? {
      var i := FirstFailureMeaning(present, root, reqs);
      forall j | 0 <= j <= i ensures CheckRequest(present, root, reqs[j]) == RequestError(root, reqs[j]) {
        AssertionMeaning(present, root, reqs[j]);
      }
      assert FailsFirst(root, reqs, i);
    } else {
      NoRootUnlink(present, root, reqs);
      forall i | 0 <= i < |reqs| ensures RequestError(root, reqs[i]).None? {
        AssertionMeaning(present, root, reqs[i]);
      }
      if LinkAll(present, root, reqs, clock, 0).result.Err? { BatchRefused(present, root, reqs, clock, 0); }
    }
  }

  /** Request i fails, and none before it. */
  ghost predicate FailsFirst(root: Addr, reqs: seq<LinkRequest>, i: nat) {
    && i < |reqs| && RequestError(root, reqs[i]).Some?
    && forall j :: 0 <= j < i ==> RequestError(root, reqs[j]).None?
  }

  /** A link that the map takes fails only for missing blobs. */
  ghost predicate IsLinkError(root: Addr, reqs: seq<LinkRequest>, e: Error) {
    e == Unavailable || ((e == NotExist || e == NotDir) && ApplyAll(ViewOf(root), reqs, 0).None?)
  }

  // ---------------------------------------------------------------- the response to a batch

  /** A path with its node in the new tree, or that is no longer there. */
  datatype ResponseEntry = Pair(pair: PathNodePair) | Gone(path: Path)

  /** The lookup callbacks: they may prune the response or, with None, veto the batch. */
  type Responder = (seq<ResponseEntry>, seq<LinkRequest>, Addr) -> Option<seq<ResponseEntry>>

  function PathOf(e: ResponseEntry): Path {
    match e case Pair(pair) => pair.path case Gone(path) => path
  }

  predicate Mentions(entries: seq<ResponseEntry>, p: Path) {
    exists i :: 0 <= i < |entries| && PathOf(entries[i]) == p
  }

  function AddPairs(entries: seq<ResponseEntry>, pairs: seq<PathNodePair>): seq<ResponseEntry>
    decreases |pairs|
  {
    if pairs == [] then entries
    else AddPairs(if Mentions(entries, pairs[0].path) then entries else entries + [Pair(pairs[0])], pairs[1..])
  }

  function AddAnswer(entries: seq<ResponseEntry>, path: Path, pairs: seq<PathNodePair>): seq<ResponseEntry>
    requires pairs != []
  {
    if Leaf(pairs).outcome.NotFound? then entries + [Gone(path)] else AddPairs(entries, pairs)
  }

  /** The paths of the requests, and those on the way to them, each once, resolved in the new tree. */
  function Response(present: set<Addr>, root: Addr, reqs: seq<LinkRequest>): seq<ResponseEntry>
    requires IsNode(root)
  {
    if reqs == [] then []
    else
      var n := |reqs| - 1;
      var entries := Response(present, root, reqs[..n]);
      if Mentions(entries, reqs[n].path) then entries
      else AddAnswer(entries, reqs[n].path, Resolve(present, root, reqs[n].path))
  }

  lemma ResponseNext(present: set<Addr>, root: Addr, reqs: seq<LinkRequest>, i: nat)
    requires IsNode(root) && i < |reqs|
    ensures var entries, path := Response(present, root, reqs[..i]), reqs[i].path;
      Response(present, root, reqs[..i + 1]) ==
        if Mentions(entries, path) then entries else AddAnswer(entries, path, Resolve(present, root, path))
  {
    assert reqs[..i + 1][..i] == reqs[..i];
  }

  /** What the entry says is so in the tree; where nothing is there, it says so without an error. */
  ghost predicate IsTrue(root: Addr, e: ResponseEntry) {
    match e
    case Pair(pair) => pair.outcome == ExpectedOutcome(root, pair.path) && !pair.outcome.NotFound?
    case Gone(path) => ExpectedOutcome(root, path).NotFound?
  }

  ghost predicate IsTruthful(root: Addr, entries: seq<ResponseEntry>) {
    && (forall i :: 0 <= i < |entries| ==> IsTrue(root, entries[i]))
    && (forall i, j :: 0 <= i < j < |entries| ==> PathOf(entries[i]) != PathOf(entries[j]))
  }

  lemma MentionsMore(entries: seq<ResponseEntry>, e: ResponseEntry, p: Path)
    ensures Mentions(entries + [e], p) <==> Mentions(entries, p) || PathOf(e) == p
  {
    if Mentions(entries, p) {
      var i :| 0 <= i < |entries| && PathOf(entries[i]) == p;
      assert PathOf((entries + [e])[i]) == p;
    }
    assert (entries + [e])[|entries|] == e;
  }

  lemma {:induction false} PairsAdded(root: Addr, entries: seq<ResponseEntry>, pairs: seq<PathNodePair>, p: Path)
    requires IsTruthful(root, entries)
    requires forall i :: 0 <= i < |pairs| ==> IsTrue(root, Pair(pairs[i]))
    ensures IsTruthful(root, AddPairs(entries, pairs))
    ensures Mentions(AddPairs(entries, pairs), p) <==>
      Mentions(entries, p) || exists i :: 0 <= i < |pairs| && pairs[i].path == p
    decreases |pairs|
  {
    if pairs != [] {
      var more := if Mentions(entries, pairs[0].path) then entries else entries + [Pair(pairs[0])];
      MentionsMore(entries, Pair(pairs[0]), p);
      assert IsTrue(root, Pair(pairs[0]));
      PairsAdded(root, more, pairs[1..], p);
      assert forall i :: 0 < i < |pairs| ==> pairs[i] == pairs[1..][i - 1];
    }
  }

  /** A request's own path, and the paths on the way to it unless nothing is there. */
  ghost predicate IsWantedBy(root: Addr, req: LinkRequest, p: Path) {
    p == req.path || (p <= req.path && !ExpectedOutcome(root, req.path).NotFound?)
  }

  ghost predicate IsWanted(root: Addr, reqs: seq<LinkRequest>, p: Path) {
    exists k :: 0 <= k < |reqs| && IsWantedBy(root, reqs[k], p)
  }

  lemma WantedNext(root: Addr, reqs: seq<LinkRequest>, p: Path)
    requires reqs != []
    ensures var n := |reqs| - 1; IsWanted(root, reqs, p) <==> IsWanted(root, reqs[..n], p) || IsWantedBy(root, reqs[n], p)
  {
    var n := |reqs| - 1;
    if IsWanted(root, reqs[..n], p) {
      var k :| 0 <= k < n && IsWantedBy(root, reqs[..n][k], p);
      assert IsWantedBy(root, reqs[k], p);
    }
    if k :| 0 <= k < n && IsWantedBy(root, reqs[k], p) {
      assert IsWantedBy(root, reqs[..n][k], p);
    }
  }

  /** What is mentioned of a path stands for what is on the way to it. */
  lemma WantedAlready(root: Addr, reqs: seq<LinkRequest>, req: LinkRequest, p: Path)
    requires IsWanted(root, reqs, req.path) && IsWantedBy(root, req, p)
    ensures IsWanted(root, reqs, p)
  {
    var k :| 0 <= k < |reqs| && IsWantedBy(root, reqs[k], req.path);
    assert IsWantedBy(root, reqs[k], p);
  }

  /**
    The response to a batch tells the truth about the new tree: each entry is what the tree has there, no path
    occurs twice, and the paths are those of the requests and, where something is there, all on the way to them.
  */
  lemma {:induction false} ResponseMeaning(present: set<Addr>, root: Addr, reqs: seq<LinkRequest>, p: Path)
    requires Complete(present, root) && forall i :: 0 <= i < |reqs| ==> Normal(reqs[i].path)
    ensures IsTruthful(root, Response(present, root, reqs))
    ensures Mentions(Response(present, root, reqs), p) <==> IsWanted(root, reqs, p)
    decreases |reqs|
  {
    if reqs != [] {
      var n := |reqs| - 1;
      var entries, path := Response(present, root, reqs[..n]), reqs[n].path;
      ResponseMeaning(present, root, reqs[..n], p);
      ResponseMeaning(present, root, reqs[..n], path);
      WantedNext(root, reqs, p);
      if Mentions(entries, path) {
        if IsWantedBy(root, reqs[n], p) { WantedAlready(root, reqs[..n], reqs[n], p); }
      } else {
        AnswerMeaning(present, root, entries, reqs[n], p);
      }
    }
  }

  lemma AnswerMeaning(present: set<Addr>, root: Addr, entries: seq<ResponseEntry>, req: LinkRequest, p: Path)
    requires Complete(present, root) && Normal(req.path) && IsTruthful(root, entries) && !Mentions(entries, req.path)
    ensures var more := AddAnswer(entries, req.path, Resolve(present, root, req.path));
      IsTruthful(root, more) && (Mentions(more, p) <==> Mentions(entries, p) || IsWantedBy(root, req, p))
  {
    var path, pairs := req.path, Resolve(present, root, req.path);
    ResolveMeaning(present, root, path);
    assert path[..|path|] == path;
    if Leaf(pairs).outcome.NotFound? {
      MentionsMore(entries, Gone(path), p);
      forall i | 0 <= i < |entries| ensures PathOf(entries[i]) != path {}
    } else {
      forall i | 0 <= i < |pairs| ensures IsTrue(root, Pair(pairs[i])) {
        SomethingAbove(root, path, i);
      }
      PairsAdded(root, entries, pairs, p);
      PathsOnTheWay(present, root, path, p);
    }
  }

  lemma SomethingAbove(root: Addr, path: Path, i: nat)
    requires i <= |path| && !ExpectedOutcome(root, path).NotFound?
    ensures !ExpectedOutcome(root, path[..i]).NotFound?
  {
    if i < |path| {
      var d := path[..|path| - 1];
      assert path[..i] <= d;
      if Lookup(root, path).Some? {
        LookupPrefix(root, path[..i], path);
      } else {
        LookupPrefix(root, path[..i], d);
      }
    } else {
      assert path[..i] == path;
    }
  }

  lemma PathsOnTheWay(present: set<Addr>, root: Addr, path: Path, p: Path)
    requires Complete(present, root) && Normal(path)
    ensures var pairs := Resolve(present, root, path);
      (exists i :: 0 <= i < |pairs| && pairs[i].path == p) <==> p <= path
  {
    var pairs := Resolve(present, root, path);
    ResolveMeaning(present, root, path);
    if p <= path { assert pairs[|p|].path == p; }
  }
}
