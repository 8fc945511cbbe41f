/**
  Any number of threads in `loadFileNode` at once (internal/grits/namestore.go): a step protocol around the
  cache's mutex, its condition variable and the entries that are in flight.
*/
module SingleFlight {
  import opened Wrappers
  import opened Merkle

  /** How far a load has come; it works without the lock. */
  datatype Progress = Started | HasMetadata | HasBoth | Finished(good: bool)

  /** Where a thread is. At the top of the loop it needs the lock; a sleeper is in the condition variable's wait. */
  datatype Place =
    | AtTop(addr: Addr)
    | Sleeping(addr: Addr)
    | Loading(addr: Addr, load: nat, progress: Progress)
    | Returned(node: Option<nat>)

  /** An entry of the file cache: claimed by the thread that loads it, or holding a node, named after its load. */
  datatype CacheEntry = InFlight(loader: nat, load: nat) | Ready(load: nat)

  datatype Role = MetadataRole | ContentRole

  /** A reference on a node's metadata or content blob, and the load that took it. */
  datatype Ref = Ref(load: nat, node: Addr, role: Role)

  /** `leaked` are the references that no node and no running load will ever give back. */
  datatype State = State(threads: seq<Place>, cache: map<Addr, CacheEntry>, refs: set<Ref>, leaked: set<Ref>, nextLoad: nat)

  /** What a thread does next, or cleanup freeing a cached node. */
  datatype Step =
    | Call(t: nat, addr: Addr)
    | LookUp(t: nat)
    | ReadMetadata(t: nat, ok: bool)
    | ReadContent(t: nat, ok: bool)
    | MakeNode(t: nat)
    | Publish(t: nat)
    | Evict(addr: Addr)

  function Initial(threads: nat): State {
    State(seq(threads, _ => Returned(None)), map[], {}, {}, 0)
  }

  predicate At(s: State, t: nat, progress: Progress) {
    t < |s.threads| && s.threads[t].Loading? && s.threads[t].progress == progress
  }

  /** Content can only be asked for when the metadata parses. */
  predicate Enabled(s: State, step: Step) {
    match step
    case Call(t, a) => t < |s.threads| && s.threads[t].Returned?
    case LookUp(t) => t < |s.threads| && s.threads[t].AtTop?
    case ReadMetadata(t, ok) => At(s, t, Started)
    case ReadContent(t, ok) => At(s, t, HasMetadata) && (ok ==> s.threads[t].addr.Metadata?)
    case MakeNode(t) => At(s, t, HasBoth)
    case Publish(t) => At(s, t, Finished(true)) || At(s, t, Finished(false))
    case Evict(a) => a in s.cache && s.cache[a].Ready?
  }

  /** The broadcast wakes every sleeper, whatever it waits for. */
  function Woken(threads: seq<Place>): seq<Place> {
    seq(|threads|, i requires 0 <= i < |threads| =>
      if threads[i].Sleeping? then AtTop(threads[i].addr) else threads[i])
  }

  function Advance(s: State, t: nat, progress: Progress): State
    requires t < |s.threads| && s.threads[t].Loading?
  {
    s.(threads := s.threads[t := s.threads[t].(progress := progress)])
  }

  function Apply(s: State, step: Step): State
    requires Enabled(s, step)
  {
    match step
    case Call(t, a) => s.(threads := s.threads[t := AtTop(a)])
    case LookUp(t) =>
      var a := s.threads[t].addr;
      if a !in s.cache then
        s.(threads := s.threads[t := Loading(a, s.nextLoad, Started)],
           cache := s.cache[a := InFlight(t, s.nextLoad)], nextLoad := s.nextLoad + 1)
      else if s.cache[a].Ready? then s.(threads := s.threads[t := Returned(Some(s.cache[a].load))])
      else s.(threads := s.threads[t := Sleeping(a)])
    case ReadMetadata(t, ok) =>
      if ok then
        Advance(s, t, HasMetadata).(refs := s.refs + {Ref(s.threads[t].load, s.threads[t].addr, MetadataRole)})
      else Advance(s, t, Finished(false))
    case ReadContent(t, ok) =>
      var n, a := s.threads[t].load, s.threads[t].addr;
      if ok then Advance(s, t, HasBoth).(refs := s.refs + {Ref(n, a, ContentRole)})
      else Advance(s, t, Finished(false)).(refs := s.refs - {Ref(n, a, MetadataRole)})
    case MakeNode(t) =>
      var n, a := s.threads[t].load, s.threads[t].addr;
      if IsNode(a) then Advance(s, t, Finished(true))
      else
        // An unknown type number: only the metadata blob is released.
        Advance(s, t, Finished(false)).(refs := s.refs - {Ref(n, a, MetadataRole)},
                                        leaked := s.leaked + {Ref(n, a, ContentRole)})
    case Publish(t) =>
      var n, a := s.threads[t].load, s.threads[t].addr;
      if s.threads[t].progress.good then
        s.(threads := Woken(s.threads)[t := Returned(Some(n))], cache := s.cache[a := Ready(n)])
      else
        s.(threads := Woken(s.threads)[t := Returned(None)], cache := s.cache - {a})
    case Evict(a) =>
      var n := s.cache[a].load;
      s.(cache := s.cache - {a}, refs := s.refs - {Ref(n, a, MetadataRole), Ref(n, a, ContentRole)})
  }

  // ---------------------------------------------------------------- the invariant

  /** Every load has the entry it claimed, and every claimed entry its load. */
  predicate ClaimsMatch(s: State) {
    LoadsHaveClaims(s) && ClaimsHaveLoads(s)
  }

  predicate LoadsHaveClaims(s: State) {
    forall t :: 0 <= t < |s.threads| && s.threads[t].Loading? ==>
      s.threads[t].addr in s.cache && s.cache[s.threads[t].addr] == InFlight(t, s.threads[t].load)
  }

  predicate ClaimsHaveLoads(s: State) {
    forall a :: a in s.cache && s.cache[a].InFlight? ==> IsClaim(s, a)
  }

  predicate IsClaim(s: State, a: Addr)
    requires a in s.cache && s.cache[a].InFlight?
  {
    var t := s.cache[a].loader;
    t < |s.threads| && s.threads[t].Loading? && s.threads[t].addr == a && s.threads[t].load == s.cache[a].load
  }

  /** Whoever sleeps waits for a load that is still to end with a broadcast. */
  predicate SleepersHaveLoaders(s: State) {
    forall t :: 0 <= t < |s.threads| && s.threads[t].Sleeping? ==>
      s.threads[t].addr in s.cache && s.cache[s.threads[t].addr].InFlight?
  }

  predicate Holds(p: Progress, role: Role) {
    match p
    case Started => false
    case HasMetadata => role.MetadataRole?
    case HasBoth => true
    case Finished(good) => good
  }

  /** The reference belongs to a cached node, or to the load of one, at the stage it has reached. */
  predicate IsOwned(s: State, r: Ref) {
    && r.node in s.cache && s.cache[r.node].load == r.load
    && match s.cache[r.node]
       case Ready(_) => true
       case InFlight(t, _) => t < |s.threads| && s.threads[t].Loading? && Holds(s.threads[t].progress, r.role)
  }

  ghost predicate RefsExact(s: State) {
    forall r :: r in s.refs <==> IsOwned(s, r) || r in s.leaked
  }

  ghost predicate LoadsFresh(s: State) {
    && (forall a :: a in s.cache ==> s.cache[a].load < s.nextLoad)
    && (forall r :: r in s.leaked ==> IsLost(s, r))
  }

  /** A leaked reference is on the content of a node of unknown type, and its load is over or about to report failure. */
  predicate IsLost(s: State, r: Ref) {
    && r.load < s.nextLoad && r.role.ContentRole? && r.node.Metadata? && !IsNode(r.node)
    && (r.node in s.cache && s.cache[r.node].load == r.load ==>
          s.cache[r.node].InFlight? && At(s, s.cache[r.node].loader, Finished(false)))
  }

  /** Only a node of a known type is ever cached, and content is only read for metadata. */
  predicate NodesOnly(s: State) {
    CachedAreNodes(s) && LoadsKnowTypes(s)
  }

  predicate CachedAreNodes(s: State) {
    forall a :: a in s.cache && s.cache[a].Ready? ==> IsNode(a)
  }

  predicate LoadsKnowTypes(s: State) {
    forall t :: 0 <= t < |s.threads| ==>
      (At(s, t, HasBoth) ==> s.threads[t].addr.Metadata?) && (At(s, t, Finished(true)) ==> IsNode(s.threads[t].addr))
  }

  ghost predicate Inv(s: State) {
    ClaimsMatch(s) && SleepersHaveLoaders(s) && RefsExact(s) && LoadsFresh(s) && NodesOnly(s)
  }

  lemma InitialInv(threads: nat)
    ensures Inv(Initial(threads))
  {
  }

  lemma StepKeepsLoadsClaimed(s: State, step: Step)
    requires ClaimsMatch(s) && Enabled(s, step)
    ensures LoadsHaveClaims(Apply(s, step))
  {
  }

  lemma StepKeepsClaimsLoaded(s: State, step: Step)
    requires ClaimsMatch(s) && Enabled(s, step)
    ensures ClaimsHaveLoads(Apply(s, step))
  {
  }

  lemma StepKeepsClaims(s: State, step: Step)
    requires ClaimsMatch(s) && Enabled(s, step)
    ensures ClaimsMatch(Apply(s, step))
  {
    StepKeepsLoadsClaimed(s, step);
    StepKeepsClaimsLoaded(s, step);
  }

  lemma StepKeepsSleepers(s: State, step: Step)
    requires ClaimsMatch(s) && SleepersHaveLoaders(s) && Enabled(s, step)
    ensures SleepersHaveLoaders(Apply(s, step))
  {
  }

  lemma StepKeepsCachedNodes(s: State, step: Step)
    requires NodesOnly(s) && Enabled(s, step)
    ensures CachedAreNodes(Apply(s, step))
  {
  }

  lemma StepKeepsTypes(s: State, step: Step)
    requires LoadsKnowTypes(s) && Enabled(s, step)
    ensures LoadsKnowTypes(Apply(s, step))
  {
  }

  lemma StepKeepsNodes(s: State, step: Step)
    requires NodesOnly(s) && Enabled(s, step)
    ensures NodesOnly(Apply(s, step))
  {
    StepKeepsCachedNodes(s, step);
    StepKeepsTypes(s, step);
  }

  lemma StepKeepsLost(s: State, step: Step, r: Ref)
    requires ClaimsMatch(s) && NodesOnly(s) && LoadsFresh(s) && Enabled(s, step)
    requires r in Apply(s, step).leaked
    ensures IsLost(Apply(s, step), r)
  {
    if r in s.leaked { assert IsLost(s, r); }
    if r.node in s.cache && s.cache[r.node].InFlight? { assert IsClaim(s, r.node); }
  }

  lemma StepKeepsFresh(s: State, step: Step)
    requires ClaimsMatch(s) && NodesOnly(s) && LoadsFresh(s) && Enabled(s, step)
    ensures LoadsFresh(Apply(s, step))
  {
    forall r | r in Apply(s, step).leaked ensures IsLost(Apply(s, step), r) {
      StepKeepsLost(s, step, r);
    }
  }

  lemma LoadingKeepsRef(s: State, step: Step, r: Ref)
    requires ClaimsMatch(s) && NodesOnly(s) && LoadsFresh(s) && Enabled(s, step)
    requires step.ReadMetadata? || step.ReadContent? || step.MakeNode?
    requires r in s.refs <==> IsOwned(s, r) || r in s.leaked
    ensures var s' := Apply(s, step); r in s'.refs <==> IsOwned(s', r) || r in s'.leaked
  {
    assert r == Ref(r.load, r.node, if r.role.MetadataRole? then MetadataRole else ContentRole);
    if r in s.leaked { assert IsLost(s, r); }
    if r.node in s.cache && s.cache[r.node].InFlight? { assert IsClaim(s, r.node); }
  }

  lemma CachingKeepsRef(s: State, step: Step, r: Ref)
    requires ClaimsMatch(s) && NodesOnly(s) && LoadsFresh(s) && Enabled(s, step)
    requires step.Call? || step.LookUp? || step.Publish? || step.Evict?
    requires r in s.refs <==> IsOwned(s, r) || r in s.leaked
    ensures var s' := Apply(s, step); r in s'.refs <==> IsOwned(s', r) || r in s'.leaked
  {
    assert r == Ref(r.load, r.node, if r.role.MetadataRole? then MetadataRole else ContentRole);
    if r in s.leaked { assert IsLost(s, r); }
    if r.node in s.cache && s.cache[r.node].InFlight? { assert IsClaim(s, r.node); }
  }

  lemma StepKeepsRefs(s: State, step: Step)
    requires ClaimsMatch(s) && NodesOnly(s) && LoadsFresh(s) && RefsExact(s) && Enabled(s, step)
    ensures RefsExact(Apply(s, step))
  {
    forall r ensures r in Apply(s, step).refs <==> IsOwned(Apply(s, step), r) || r in Apply(s, step).leaked {
      if step.ReadMetadata? || step.ReadContent? || step.MakeNode? {
        LoadingKeepsRef(s, step, r);
      } else {
        CachingKeepsRef(s, step, r);
      }
    }
  }

  lemma StepKeepsInv(s: State, step: Step)
    requires Inv(s) && Enabled(s, step)
    ensures Inv(Apply(s, step))
  {
    StepKeepsClaims(s, step);
    StepKeepsSleepers(s, step);
    StepKeepsNodes(s, step);
    StepKeepsFresh(s, step);
    StepKeepsRefs(s, step);
  }

  // ---------------------------------------------------------------- what the invariant means

  /** At most one load of an address is in flight. */
  lemma OneLoadPerAddress(s: State, t: nat, u: nat)
    requires Inv(s) && t < |s.threads| && u < |s.threads|
    requires s.threads[t].Loading? && s.threads[u].Loading? && s.threads[t].addr == s.threads[u].addr
    ensures t == u
  {
    assert s.cache[s.threads[t].addr] == InFlight(t, s.threads[t].load);
  }

  /** A sleeper's load is running and has yet to broadcast: no wake-up is missed. */
  lemma SleeperHasLoader(s: State, t: nat) returns (u: nat)
    requires Inv(s) && t < |s.threads| && s.threads[t].Sleeping?
    ensures u < |s.threads| && s.threads[u].Loading? && s.threads[u].addr == s.threads[t].addr
  {
    assert IsClaim(s, s.threads[t].addr);
    u := s.cache[s.threads[t].addr].loader;
  }

  /** A cached node owns exactly one reference on its metadata blob and one on its content blob. */
  lemma NodeOwnsItsBlobs(s: State, a: Addr)
    requires Inv(s) && a in s.cache && s.cache[a].Ready?
    ensures var n := s.cache[a].load;
      (set r | r in s.refs && r.load == n && r.node == a) == {Ref(n, a, MetadataRole), Ref(n, a, ContentRole)}
  {
    var n := s.cache[a].load;
    forall r | r in s.refs && r.load == n && r.node == a
      ensures r in {Ref(n, a, MetadataRole), Ref(n, a, ContentRole)}
    {
      assert r == Ref(n, a, if r.role.MetadataRole? then MetadataRole else ContentRole);
    }
    assert IsOwned(s, Ref(n, a, MetadataRole)) && IsOwned(s, Ref(n, a, ContentRole));
  }

  /** With no load under way, every reference belongs to a cached node, but for those that unknown types leaked. */
  lemma QuietOwnership(s: State, r: Ref)
    requires Inv(s) && forall t :: 0 <= t < |s.threads| ==> !s.threads[t].Loading?
    ensures r in s.refs <==> (r.node in s.cache && s.cache[r.node] == Ready(r.load)) || r in s.leaked
  {
  }

  /** A load that fails leaves no entry, and no reference unless the metadata names an unknown type. */
  lemma FailureLeavesNothing(s: State, t: nat, r: Ref)
    requires Inv(s) && At(s, t, Finished(false))
    ensures var a, s' := s.threads[t].addr, Apply(s, Publish(t));
      && s'.threads[t] == Returned(None) && a !in s'.cache
      && (r in s'.refs && r.load == s.threads[t].load && r.node == a ==>
            r.role.ContentRole? && a.Metadata? && a.kind.Unknown?)
  {
    assert s.cache[s.threads[t].addr] == InFlight(t, s.threads[t].load);
    if r in s.leaked { assert IsLost(s, r); }
  }

  // ---------------------------------------------------------------- runs

  ghost predicate IsRun(states: seq<State>, steps: seq<Step>) {
    && |states| == |steps| + 1
    && forall i {:trigger IsStepAt(states, steps, i)} :: 0 <= i < |steps| ==> IsStepAt(states, steps, i)
  }

  ghost predicate IsStepAt(states: seq<State>, steps: seq<Step>, i: nat)
    requires i < |steps| < |states|
  {
    Enabled(states[i], steps[i]) && states[i + 1] == Apply(states[i], steps[i])
  }

  lemma {:induction false} RunKeepsInv(states: seq<State>, steps: seq<Step>, k: nat)
    requires IsRun(states, steps) && Inv(states[0]) && k < |states|
    ensures Inv(states[k])
  {
    if k > 0 {
      RunKeepsInv(states, steps, k - 1);
      assert IsStepAt(states, steps, k - 1);
      StepKeepsInv(states[k - 1], steps[k - 1]);
    }
  }

  /** Step i of the run returns a node for an address to its caller. */
  ghost predicate Returns(states: seq<State>, steps: seq<Step>, i: nat, a: Addr, node: nat)
    requires IsRun(states, steps) && i < |steps|
  {
    assert IsStepAt(states, steps, i);
    match steps[i]
    case LookUp(t) => states[i].threads[t].addr == a && states[i + 1].threads[t] == Returned(Some(node))
    case Publish(t) => states[i].threads[t].addr == a && states[i + 1].threads[t] == Returned(Some(node))
    case _ => false
  }

  lemma ReturnedIsCached(states: seq<State>, steps: seq<Step>, i: nat, a: Addr, node: nat)
    requires IsRun(states, steps) && i < |steps| && Returns(states, steps, i, a, node)
    ensures IsCached(states[i + 1], a, node)
  {
    assert IsStepAt(states, steps, i);
  }

  predicate IsCached(s: State, a: Addr, node: nat) {
    a in s.cache && s.cache[a] == Ready(node)
  }

  lemma StepKeepsCached(s: State, step: Step, a: Addr, node: nat)
    requires ClaimsMatch(s) && Enabled(s, step) && IsCached(s, a, node) && step != Evict(a)
    ensures IsCached(Apply(s, step), a, node)
  {
  }

  lemma {:induction false} NodeStaysCached(states: seq<State>, steps: seq<Step>, i: nat, k: nat, a: Addr, node: nat)
    requires IsRun(states, steps) && Inv(states[0]) && i <= k < |states| && IsCached(states[i], a, node)
    requires forall j :: i <= j < k ==> steps[j] != Evict(a)
    ensures IsCached(states[k], a, node)
    decreases k - i
  {
    if i < k {
      NodeStaysCached(states, steps, i, k - 1, a, node);
      RunKeepsInv(states, steps, k - 1);
      assert IsStepAt(states, steps, k - 1);
      StepKeepsCached(states[k - 1], steps[k - 1], a, node);
    }
  }

  /** All calls for an address that succeed between two evictions of it return the same node. */
  lemma SameNodeForAll(states: seq<State>, steps: seq<Step>, i: nat, j: nat, a: Addr, first: nat, second: nat)
    requires IsRun(states, steps) && Inv(states[0]) && i < j < |steps|
    requires Returns(states, steps, i, a, first) && Returns(states, steps, j, a, second)
    requires forall k :: i < k < j ==> steps[k] != Evict(a)
    ensures first == second
  {
    ReturnedIsCached(states, steps, i, a, first);
    NodeStaysCached(states, steps, i + 1, j, a, first);
    RunKeepsInv(states, steps, j);
    assert IsStepAt(states, steps, j);
  }

  // ---------------------------------------------------------------- what a call returns

  /** Step i makes a call of t for a. */
  ghost predicate Calls(steps: seq<Step>, i: nat, t: nat, a: Addr) {
    i < |steps| && steps[i] == Call(t, a)
  }

  /** A read of thread t's load fails in step i, or the type of what it reads is unknown. */
  ghost predicate LoadFails(states: seq<State>, steps: seq<Step>, i: nat, t: nat, a: Addr, load: nat)
    requires i < |steps| && i < |states|
  {
    && t < |states[i].threads| && states[i].threads[t].Loading?
    && states[i].threads[t].addr == a && states[i].threads[t].load == load
    && (steps[i] == ReadMetadata(t, false) || steps[i] == ReadContent(t, false) || (steps[i] == MakeNode(t) && !IsNode(a)))
  }

  /** Step i ends the call of t for a, with this result. */
  ghost predicate Ends(states: seq<State>, steps: seq<Step>, i: nat, t: nat, a: Addr, result: Option<nat>)
    requires i < |steps| && i + 1 < |states|
  {
    && t < |states[i].threads| && t < |states[i + 1].threads|
    && !states[i].threads[t].Returned? && states[i].threads[t].addr == a && states[i + 1].threads[t] == Returned(result)
  }

  /** A load that is about to report failure has had a failed read, or an unknown type. */
  lemma {:induction false} FailureHasCause(states: seq<State>, steps: seq<Step>, k: nat, t: nat) returns (i: nat)
    requires IsRun(states, steps) && Inv(states[0]) && k < |states| && At(states[k], t, Finished(false))
    requires t < |states[0].threads| && !states[0].threads[t].Loading?
    ensures i < k && LoadFails(states, steps, i, t, states[k].threads[t].addr, states[k].threads[t].load)
    ensures forall j :: i < j <= k ==> At(states[j], t, Finished(false))
    decreases k
  {
    assert IsStepAt(states, steps, k - 1);
    RunKeepsInv(states, steps, k - 1);
    if At(states[k - 1], t, Finished(false)) && states[k - 1].threads[t] == states[k].threads[t] {
      i := FailureHasCause(states, steps, k - 1, t);
    } else {
      i := k - 1;
    }
  }

  /** A call ends without a node only after its own load has failed, and otherwise with a node that is cached. */
  lemma EndsFor(states: seq<State>, steps: seq<Step>, i: nat, t: nat, a: Addr, result: Option<nat>)
    returns (cause: nat, load: nat)
    requires IsRun(states, steps) && Inv(states[0]) && i < |steps| && Ends(states, steps, i, t, a, result)
    requires t < |states[0].threads| && !states[0].threads[t].Loading?
    ensures result.Some? ==> IsCached(states[i + 1], a, result.value)
    ensures result.None? ==> cause < i && LoadFails(states, steps, cause, t, a, load)
    ensures result.None? ==> forall j :: cause < j <= i ==> At(states[j], t, Finished(false))
  {
    assert IsStepAt(states, steps, i);
    cause, load := 0, 0;
    if result.None? {
      load := states[i].threads[t].load;
      cause := FailureHasCause(states, steps, i, t);
    }
  }

  /** From a call on, the thread is at it until a step ends it. */
  lemma {:induction false} CallIsPending(states: seq<State>, steps: seq<Step>, i: nat, k: nat, t: nat, a: Addr)
    returns (end: nat)
    requires IsRun(states, steps) && Inv(states[0]) && i < k < |states| && Calls(steps, i, t, a)
    requires forall j, b :: i < j < k ==> !Calls(steps, j, t, b)
    ensures t < |states[k].threads|
    ensures !states[k].threads[t].Returned? ==> states[k].threads[t].addr == a
    ensures states[k].threads[t].Returned? ==> i < end < k && Ends(states, steps, end, t, a, states[k].threads[t].node)
    decreases k
  {
    end := 0;
    assert IsStepAt(states, steps, k - 1);
    if i + 1 < k {
      end := CallIsPending(states, steps, i, k - 1, t, a);
      if steps[k - 1].Call? { assert !Calls(steps, k - 1, t, steps[k - 1].addr); }
      if !states[k - 1].threads[t].Returned? { end := k - 1; }
    }
  }

  /**
    What a call comes to: it returns nothing only after a failed read, or an unknown type, in a load of its own;
    otherwise it returns a node for its address that is cached as it returns.
  */
  lemma CallResult(states: seq<State>, steps: seq<Step>, i: nat, k: nat, t: nat, a: Addr)
    returns (end: nat, cause: nat, load: nat)
    requires IsRun(states, steps) && Inv(states[0]) && i < k < |states| && Calls(steps, i, t, a)
    requires t < |states[0].threads| && !states[0].threads[t].Loading?
    requires forall j, b :: i < j < k ==> !Calls(steps, j, t, b)
    requires t < |states[k].threads| && states[k].threads[t].Returned?
    ensures i < end < k
    ensures var result := states[k].threads[t].node;
      && (result.Some? ==> IsCached(states[end + 1], a, result.value))
      && (result.None? ==> i < cause < end && LoadFails(states, steps, cause, t, a, load))
  {
    end := CallIsPending(states, steps, i, k, t, a);
    cause, load := EndsFor(states, steps, end, t, a, states[k].threads[t].node);
    assert IsStepAt(states, steps, i);
  }

  /** A thread that is not at a call can make one, and a load whose reads succeed caches its node and returns it. */
  lemma LoadWorks(s: State, t: nat, a: Addr)
    requires t < |s.threads| && s.threads[t].Returned? && a !in s.cache && IsNode(a)
    ensures var steps := [Call(t, a), LookUp(t), ReadMetadata(t, true), ReadContent(t, true), MakeNode(t), Publish(t)];
      && AllEnabled(s, steps)
      && var s' := ApplyAll(s, steps);
        t < |s'.threads| && s'.threads[t] == Returned(Some(s.nextLoad)) && IsCached(s', a, s.nextLoad)
  {
    var s1 := Apply(s, Call(t, a));
    var s2 := Apply(s1, LookUp(t));
    var s3 := Apply(s2, ReadMetadata(t, true));
    var s4 := Apply(s3, ReadContent(t, true));
    var s5 := Apply(s4, MakeNode(t));
    assert At(s5, t, Finished(true));
    EnabledNext(s5, Publish(t), []);
    EnabledNext(s4, MakeNode(t), [Publish(t)]);
    EnabledNext(s3, ReadContent(t, true), [MakeNode(t), Publish(t)]);
    EnabledNext(s2, ReadMetadata(t, true), [ReadContent(t, true), MakeNode(t), Publish(t)]);
    EnabledNext(s1, LookUp(t), [ReadMetadata(t, true), ReadContent(t, true), MakeNode(t), Publish(t)]);
    EnabledNext(s, Call(t, a), [LookUp(t), ReadMetadata(t, true), ReadContent(t, true), MakeNode(t), Publish(t)]);
  }

  predicate AllEnabled(s: State, steps: seq<Step>)
    decreases |steps|
  {
    steps == [] || (Enabled(s, steps[0]) && AllEnabled(Apply(s, steps[0]), steps[1..]))
  }

  function ApplyAll(s: State, steps: seq<Step>): State
    requires AllEnabled(s, steps)
    decreases |steps|
  {
    if steps == [] then s else ApplyAll(Apply(s, steps[0]), steps[1..])
  }

  lemma EnabledNext(s: State, step: Step, rest: seq<Step>)
    requires Enabled(s, step) && AllEnabled(Apply(s, step), rest)
    ensures AllEnabled(s, [step] + rest) && ApplyAll(s, [step] + rest) == ApplyAll(Apply(s, step), rest)
  {
    assert ([step] + rest)[1..] == rest;
  }

  /** Where no read for a goes wrong, every call for a node gets it. */
  lemma CallSucceeds(states: seq<State>, steps: seq<Step>, i: nat, k: nat, t: nat, a: Addr) returns (end: nat)
    requires IsRun(states, steps) && Inv(states[0]) && i < k < |states| && Calls(steps, i, t, a)
    requires t < |states[0].threads| && !states[0].threads[t].Loading?
    requires forall j, b :: i < j < k ==> !Calls(steps, j, t, b)
    requires t < |states[k].threads| && states[k].threads[t].Returned?
    requires IsNode(a) && forall j, u, n :: 0 <= j < k ==> !(LoadFails(states, steps, j, u, a, n) && !steps[j].MakeNode?)
    ensures i < end < k && states[k].threads[t].node.Some?
    ensures IsCached(states[end + 1], a, states[k].threads[t].node.value)
  {
    var cause, load;
    end, cause, load := CallResult(states, steps, i, k, t, a);
  }

  /** Any cached node can be evicted, and nothing of it is left then. */
  lemma EvictionFrees(s: State, a: Addr, r: Ref)
    requires Inv(s) && a in s.cache && s.cache[a].Ready?
    ensures Enabled(s, Evict(a))
    ensures var s' := Apply(s, Evict(a));
      a !in s'.cache && (r in s'.refs <==> r in s.refs && !(r.node == a && r.load == s.cache[a].load))
  {
    assert r == Ref(r.load, r.node, if r.role.MetadataRole? then MetadataRole else ContentRole);
  }

  // ---------------------------------------------------------------- every call comes to an end

  function Rank(p: Place): nat {
    match p
    case Returned(_) => 0
    case Sleeping(_) => 1
    case AtTop(_) => 6
    case Loading(_, _, progress) =>
      (match progress case Finished(_) => 2 case HasBoth => 3 case HasMetadata => 4 case Started => 5)
  }

  function Active(threads: seq<Place>): nat {
    if threads == [] then 0
    else Active(threads[..|threads| - 1]) + if threads[|threads| - 1].Returned? then 0 else 1
  }

  function Ranks(threads: seq<Place>): nat {
    if threads == [] then 0 else Ranks(threads[..|threads| - 1]) + Rank(threads[|threads| - 1])
  }

  lemma {:induction false} ChangeOne(threads: seq<Place>, t: nat, p: Place)
    requires t < |threads|
    ensures Ranks(threads[t := p]) + Rank(threads[t]) == Ranks(threads) + Rank(p)
    ensures Active(threads[t := p]) + (if threads[t].Returned? then 0 else 1)
         == Active(threads) + (if p.Returned? then 0 else 1)
  {
    var n := |threads| - 1;
    if t == n {
      assert threads[t := p][..n] == threads[..n];
    } else {
      ChangeOne(threads[..n], t, p);
      assert threads[t := p][..n] == threads[..n][t := p];
    }
  }

  lemma {:induction false} WokenActive(threads: seq<Place>)
    ensures Active(Woken(threads)) == Active(threads)
  {
    if threads != [] {
      var n := |threads| - 1;
      WokenActive(threads[..n]);
      assert Woken(threads)[..n] == Woken(threads[..n]);
    }
  }

  /** Every step of a call brings the end nearer: fewer calls are left, or the same with less to do. */
  lemma StepsRunOut(s: State, step: Step)
    requires Enabled(s, step) && !step.Call? && !step.Evict?
    ensures var s' := Apply(s, step);
      || Active(s'.threads) < Active(s.threads)
      || (Active(s'.threads) == Active(s.threads) && Ranks(s'.threads) < Ranks(s.threads))
  {
    var t, s' := step.t, Apply(s, step);
    if step.Publish? {
      WokenActive(s.threads);
      ChangeOne(Woken(s.threads), t, s'.threads[t]);
    } else {
      ChangeOne(s.threads, t, s'.threads[t]);
      assert s'.threads == s.threads[t := s'.threads[t]];
    }
  }

  /** While a call has not returned, some thread has a next step. */
  lemma NeverStuck(s: State, t: nat) returns (step: Step)
    requires Inv(s) && t < |s.threads| && !s.threads[t].Returned?
    ensures Enabled(s, step) && !step.Call? && !step.Evict?
  {
    var u := t;
    if s.threads[t].Sleeping? { u := SleeperHasLoader(s, t); }
    step := match s.threads[u]
      case Loading(_, _, Started) => ReadMetadata(u, false)
      case Loading(_, _, HasMetadata) => ReadContent(u, false)
      case Loading(_, _, HasBoth) => MakeNode(u)
      case Loading(_, _, Finished(_)) => Publish(u)
      case _ => LookUp(u);
  }
}
