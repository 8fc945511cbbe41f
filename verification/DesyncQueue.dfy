/**
  The client's background write queue (class DesyncQueue in client/lib/grits/GritsClient.js): one writer whose
  unconditional links are answered locally at once and sent to the server later, one at a time.
*/
module DesyncQueue {
  import opened Wrappers
  import opened Merkle
  import opened PathTree
  import opened PathMap
  import opened Requests
  import opened Coalescing
  import opened Addresses
  import FastWalk
  import Confinement
  import P = Permissions

  /** What the server made of the item in flight; everything but success and a missing parent is retried. */
  datatype Answer = NoAnswer | Linked | Missing | Refused

  // ---------------------------------------------------------------- the server

  /** approve stands for the callbacks, those for links and those that may veto the response. */
  ghost function Serve(present: set<Addr>, root: Addr, w: Write, clock: (nat, nat) -> string,
                       approve: (Addr, Addr, seq<LinkRequest>) -> bool): (Answer, Addr)
    requires IsNode(root) && Normal(w.path)
  {
    if w.path == [] && w.target.None? then (Refused, root)
    else
      match MultiLinkPlan(present, root, [AsRequest(w)], clock, approve).result
      case Ok(root') => (Linked, root')
      case Err(e) => (if e == NotExist then Missing else Refused, root)
  }

  /** Something at or above the parent is a file, or the root would have to go. */
  ghost predicate IsBlocked(root: Addr, w: Write) {
    if w.path == [] then w.target.None? || !IsDir(root)
    else exists i :: 0 <= i < |w.path| && NonDirAt(root, w.path[..i])
  }

  /** The tree the write leads to is built, and a callback objects to it. */
  ghost predicate IsDenied(present: set<Addr>, root: Addr, w: Write, clock: (nat, nat) -> string,
                           approve: (Addr, Addr, seq<LinkRequest>) -> bool)
    requires IsNode(root) && Normal(w.path)
  {
    if w.path == [] && w.target.None? then false
    else
      var built := LinkAll(present, root, [AsRequest(w)], clock, 0).result;
      built.Ok? && !approve(root, built.value, [AsRequest(w)])
  }

  function AsRequest(w: Write): LinkRequest {
    LinkRequest(w.path, w.target, None, 0)
  }

  /** One request on the map. */
  lemma ApplyOne(v: View, req: LinkRequest)
    ensures ApplyAll(v, [req], 0) ==
      if CanPut(v, req.path) then Some(Graft(v, req.path, TargetView(req.newAddr))) else None
  {
    if CanPut(v, req.path) {
      var u := Graft(v, req.path, TargetView(req.newAddr));
      assert ApplyAll(u, [req], 1) == Some(u);
    }
  }

  /** A write that cannot be put fails at its link, with the error that says whether it is blocked. */
  lemma LinkErrorOf(present: set<Addr>, root: Addr, w: Write, clock: (nat, nat) -> string)
    requires Complete(present, root) && Normal(w.path) && (w.path == [] ==> w.target.Some?)
    requires w.target.Some? ==> Complete(present, w.target.value)
    ensures var r := LinkAll(present, root, [AsRequest(w)], clock, 0).result;
      && (r.Ok? <==> CanPut(ViewOf(root), w.path))
      && (r.Err? ==> r.error == if IsBlocked(root, w) then NotDir else NotExist)
      && (IsBlocked(root, w) ==> r.Err?)
  {
    var parts := LinkParts(w.path);
    LinkSucceedsExactly(present, w.path, w.target, root, clock, 0);
    LinkFailsExactly(present, parts, w.target, root, clock, 0);
    BatchSucceedsExactly(present, root, [AsRequest(w)], clock, 0);
    ApplyOne(ViewOf(root), AsRequest(w));
    if w.path == [] {
      assert parts[..|parts| - 1] == [];
    } else if IsBlocked(root, w) {
      BlockedHasNoParent(root, w);
    }
  }

  lemma BlockedHasNoParent(root: Addr, w: Write)
    requires w.path != [] && IsBlocked(root, w)
    ensures !CanPut(ViewOf(root), w.path)
  {
    var i :| 0 <= i < |w.path| && NonDirAt(root, w.path[..i]);
    var d := w.path[..|w.path| - 1];
    if Lookup(root, d).Some? {
      assert w.path[..i] <= d;
      LookupPrefix(root, w.path[..i], d);
    }
  }

  /**
    The server takes a write exactly if the map does and no callback objects, reports a missing parent exactly if
    nothing is there, and refuses it for good exactly if it is blocked or denied.
  */
  lemma ServeMeaning(present: set<Addr>, root: Addr, w: Write, clock: (nat, nat) -> string,
                     approve: (Addr, Addr, seq<LinkRequest>) -> bool)
    requires Complete(present, root) && Normal(w.path)
    requires w.target.Some? ==> Complete(present, w.target.value)
    ensures var (answer, root') := Serve(present, root, w, clock, approve);
      && !answer.NoAnswer? && IsNode(root')
      && (answer.Linked? <==> Accepts(ViewOf(root), w) && !IsDenied(present, root, w, clock, approve))
      && (answer.Missing? <==> !Accepts(ViewOf(root), w) && !IsBlocked(root, w))
      && (answer.Refused? <==> IsBlocked(root, w) || IsDenied(present, root, w, clock, approve))
      && (answer.Linked? ==> ViewOf(root') == Put(ViewOf(root), w))
      && (!answer.Linked? ==> root' == root)
  {
    if w.path != [] || w.target.Some? {
      MultiLinkMeaning(present, root, [AsRequest(w)], clock, approve);
      MultiLinkError(present, root, [AsRequest(w)], clock, approve);
      assert AssertionHolds(root, AsRequest(w));
      ApplyOne(ViewOf(root), AsRequest(w));
      LinkErrorOf(present, root, w, clock);
    }
  }

  /** A batch of one that is built is one link. */
  lemma BuiltIsLink(present: set<Addr>, root: Addr, w: Write, clock: (nat, nat) -> string)
    requires IsNode(root) && Normal(w.path) && (w.path == [] ==> w.target.Some?)
    ensures var r := LinkAll(present, root, [AsRequest(w)], clock, 0).result;
      r == Link(present, LinkParts(w.path), w.target, root, clock, 0)
  {
    var req := AsRequest(w);
    var plan := LinkOne(present, root, req, clock, 0);
    assert [req][0] == req;
    if plan.result.Ok? {
      LinkYieldsNode(present, root, req, clock, 0);
      assert LinkAll(plan.present, plan.result.value, [req], clock, 1).result == plan.result;
    }
  }

  lemma LinkedIsBuilt(present: set<Addr>, root: Addr, w: Write, clock: (nat, nat) -> string,
                      approve: (Addr, Addr, seq<LinkRequest>) -> bool)
    requires IsNode(root) && Normal(w.path) && Serve(present, root, w, clock, approve).0.Linked?
    ensures w.path == [] ==> w.target.Some?
    ensures LinkAll(present, root, [AsRequest(w)], clock, 0).result == Ok(Serve(present, root, w, clock, approve).1)
  {
    PlanFollowsProposal(present, root, [AsRequest(w)], clock, approve);
  }

  /** A write that the server has dealt with is taken, on the map and in addresses. */
  lemma ServeTakes(present: set<Addr>, root: Addr, w: Write, clock: (nat, nat) -> string,
                   approve: (Addr, Addr, seq<LinkRequest>) -> bool)
    requires Complete(present, root) && Normal(w.path)
    requires w.target.Some? ==> Complete(present, w.target.value)
    requires Handled(Serve(present, root, w, clock, approve).0)
    ensures IsTaken(root, Serve(present, root, w, clock, approve).1, w)
  {
    ServeMeaning(present, root, w, clock, approve);
    if Serve(present, root, w, clock, approve).0.Missing? {
      DroppedIsTaken(root, w);
    } else {
      LinkedIsBuilt(present, root, w, clock, approve);
      BuiltIsLink(present, root, w, clock);
      LinkIsTaken(present, root, w, clock, 0);
    }
  }

  /** The link callback for a principal. */
  function Callback(parse: Confinement.Parser, principal: P.Principal): (Addr, Addr, seq<LinkRequest>) -> bool {
    (oldRoot, newRoot, reqs) => Confinement.Approved(parse, oldRoot, principal, reqs)
  }

  /** Under the link callback the writes that are denied are those at paths that the principal may not link. */
  lemma DeniedExactly(present: set<Addr>, root: Addr, w: Write, clock: (nat, nat) -> string,
                      parse: Confinement.Parser, principal: P.Principal)
    requires Complete(present, root) && Normal(w.path)
    requires w.target.Some? ==> Complete(present, w.target.value)
    ensures IsDenied(present, root, w, clock, Callback(parse, principal)) <==>
      Accepts(ViewOf(root), w) && !Confinement.MayLink(parse, root, principal, w.path)
  {
    if w.path != [] || w.target.Some? {
      BatchSucceedsExactly(present, root, [AsRequest(w)], clock, 0);
      ApplyOne(ViewOf(root), AsRequest(w));
      assert [AsRequest(w)][0].path == w.path;
    }
  }

  /** Once a file is linked, writes below it are blocked. */
  lemma FileBlocksBelow(root: Addr, p: Path, f: Addr, w: Write)
    requires Lookup(root, p) == Some(f) && !IsDir(f) && p <= w.path && p != w.path
    ensures IsBlocked(root, w)
  {
    assert w.path[..|p|] == p;
    assert NonDirAt(root, w.path[..|p|]);
  }

  // ---------------------------------------------------------------- the queue's own invariants

  /** Sequence numbers are handed out one by one, and what is queued is the newest part of all that was enqueued. */
  ghost predicate IsTail(log: seq<Write>, queue: seq<Write>) {
    && |queue| <= |log|
    && (forall i {:trigger IsQueued(log, queue, i)} :: 0 <= i < |queue| ==> IsQueued(log, queue, i))
    && forall i {:trigger IsLogged(log, i)} :: 0 <= i < |log| ==> IsLogged(log, i)
  }

  ghost predicate IsQueued(log: seq<Write>, queue: seq<Write>, i: nat)
    requires i < |queue| <= |log|
  {
    queue[i] == log[|log| - |queue| + i]
  }

  ghost predicate IsLogged(log: seq<Write>, i: nat)
    requires i < |log|
  {
    log[i].seqNo == i + 1 && Normal(log[i].path)
  }

  /** For each path in the queue and no other, its newest queued entry. */
  function Newest(queue: seq<Write>): map<Path, Write> {
    if queue == [] then map[]
    else
      var w := queue[|queue| - 1];
      Newest(queue[..|queue| - 1])[w.path := w]
  }

  ghost predicate IsNewestAt(queue: seq<Write>, i: nat) {
    i < |queue| && forall j :: i < j < |queue| ==> queue[j].path != queue[i].path
  }

  lemma {:induction false} NewestMeaning(queue: seq<Write>, p: Path) returns (i: nat)
    ensures p in Newest(queue) <==> WritesAt(queue, p)
    ensures p in Newest(queue) ==> IsNewestAt(queue, i) && queue[i].path == p && Newest(queue)[p] == queue[i]
  {
    i := 0;
    if queue != [] {
      var n := |queue| - 1;
      if queue[n].path == p {
        i := n;
      } else {
        i := NewestMeaning(queue[..n], p);
        if WritesAt(queue, p) {
          var k :| 0 <= k < |queue| && queue[k].path == p;
          assert queue[..n][k].path == p;
        }
      }
    }
  }

  lemma {:induction false} NewestOfTail(w: Write, rest: seq<Write>)
    ensures Newest([w] + rest) == map[w.path := w] + Newest(rest)
  {
    if rest == [] {
      assert Newest([w]) == Newest([w][..0])[w.path := w];
    } else {
      assert ([w] + rest)[..|rest|] == [w] + rest[..|rest| - 1];
      NewestOfTail(w, rest[..|rest| - 1]);
    }
  }

  ghost predicate AllQueued(waiters: map<nat, seq<nat>>, log: seq<Write>, queue: seq<Write>) {
    forall s :: s in waiters ==> |log| - |queue| < s <= |log|
  }

  function Waiting(waiters: map<nat, seq<nat>>, seqNo: nat): seq<nat> {
    if seqNo in waiters then waiters[seqNo] else []
  }

  lemma QueuedSeqNo(log: seq<Write>, queue: seq<Write>, i: nat)
    requires IsTail(log, queue) && i < |queue|
    ensures queue[i].seqNo == |log| - |queue| + i + 1 && queue[i] == log[queue[i].seqNo - 1]
    ensures Normal(queue[i].path)
  {
    assert IsQueued(log, queue, i);
    assert IsLogged(log, |log| - |queue| + i);
  }

  lemma PushKeeps(log: seq<Write>, queue: seq<Write>, w: Write)
    requires IsTail(log, queue) && Normal(w.path) && w.seqNo == |log| + 1
    ensures IsTail(log + [w], queue + [w])
    ensures Newest(queue + [w]) == Newest(queue)[w.path := w]
  {
    assert (queue + [w])[..|queue|] == queue;
    var log' := log + [w];
    forall i: nat | i < |log'| ensures IsLogged(log', i) {
      if i < |log| { assert IsLogged(log, i); }
    }
    var queue' := queue + [w];
    forall i: nat | i < |queue'| ensures IsQueued(log', queue', i) {
      if i < |queue| { assert IsQueued(log, queue, i); }
    }
  }

  lemma PushIsValid(log: seq<Write>, queue: seq<Write>, overrides: map<Path, Write>, lastSeq: nat,
                    waiters: map<nat, seq<nat>>, w: Write)
    requires QueueValid(log, queue, overrides, lastSeq, waiters) && Normal(w.path) && w.seqNo == lastSeq + 1
    ensures QueueValid(log + [w], queue + [w], overrides[w.path := w], w.seqNo, waiters)
  {
    PushKeeps(log, queue, w);
  }

  lemma PopKeeps(log: seq<Write>, queue: seq<Write>)
    requires IsTail(log, queue) && queue != []
    ensures IsTail(log, queue[1..])
  {
    forall i: nat | i < |queue| - 1 ensures IsQueued(log, queue[1..], i) {
      assert IsQueued(log, queue, i + 1);
    }
  }

  lemma NewerInTail(log: seq<Write>, queue: seq<Write>, p: Path)
    requires IsTail(log, queue) && queue != [] && p in Newest(queue[1..])
    ensures WritesAt(queue[1..], p) && Newest(queue[1..])[p].seqNo > queue[0].seqNo
  {
    var i := NewestMeaning(queue[1..], p);
    assert queue[1..][i] == queue[i + 1];
    QueuedSeqNo(log, queue, 0);
    QueuedSeqNo(log, queue, i + 1);
  }

  lemma RemoveMerged(m: map<Path, Write>, p: Path, w: Write)
    ensures p in m ==> map[p := w] + m == m
    ensures p !in m ==> (map[p := w] + m) - {p} == m && (map[p := w] + m)[p] == w
  {
  }

  /** The head is in the overrides exactly when nothing newer is queued for its path. */
  lemma HeadInNewest(log: seq<Write>, queue: seq<Write>)
    requires IsTail(log, queue) && queue != []
    ensures var p := queue[0].path; var newest := Newest(queue);
      && p in newest
      && (newest[p].seqNo != queue[0].seqNo ==> WritesAt(queue[1..], p) && Newest(queue[1..]) == newest)
      && (newest[p].seqNo == queue[0].seqNo ==> Newest(queue[1..]) == newest - {p})
  {
    var w, rest := queue[0], queue[1..];
    assert queue == [w] + rest;
    NewestOfTail(w, rest);
    RemoveMerged(Newest(rest), w.path, w);
    if w.path in Newest(rest) { NewerInTail(log, queue, w.path); }
  }

  // ---------------------------------------------------------------- the volume

  /** The server has dealt with the write. */
  predicate Handled(answer: Answer) {
    answer.Linked? || answer.Missing?
  }

  /** The writes that are out of the queue, and its head if the server is ahead of what the client has heard. */
  ghost function Reached(log: seq<Write>, queue: seq<Write>, ahead: bool): seq<Write>
    requires |queue| <= |log| && (ahead ==> queue != [])
  {
    log[..|log| - |queue| + if ahead then 1 else 0]
  }

  ghost function Pending(queue: seq<Write>, ahead: bool): seq<Write>
    requires ahead ==> queue != []
  {
    if ahead then queue[1..] else queue
  }

  /** The server is in step with what it has reached, if only directories replace the root. */
  ghost predicate Coherent(initial: Addr, server: Addr, log: seq<Write>, queue: seq<Write>, ahead: bool) {
    && IsDir(initial) && IsNode(server) && |queue| <= |log| && (ahead ==> queue != [])
    && (AllSafe(log) ==> InStep(initial, server, Reached(log, queue, ahead), Pending(queue, ahead)))
  }

  lemma HeadIsNext(log: seq<Write>, queue: seq<Write>)
    requires IsTail(log, queue) && queue != []
    ensures queue == [queue[0]] + queue[1..]
    ensures Reached(log, queue, true) == Reached(log, queue, false) + [queue[0]]
    ensures Reached(log, queue, true) == Reached(log, queue[1..], false)
    ensures AllSafe(log) ==> Safe(queue[0])
  {
    assert IsQueued(log, queue, 0);
    if AllSafe(log) { AllSafeUpTo(log, |log| - |queue|); }
  }

  lemma FlushedIsCurrent(v: View, log: seq<Write>, queue: seq<Write>, ahead: bool, n: Path)
    requires IsTail(log, queue) && (ahead ==> queue != [])
    requires forall i :: 0 <= i < |queue| ==> !AtOrAbove(queue[i].path, n)
    ensures SameAt(InOrder(v, Reached(log, queue, ahead)), InOrder(v, log), n)
  {
    var k := |Reached(log, queue, ahead)|;
    forall i | k <= i < |log| ensures !AtOrAbove(log[i].path, n) {
      assert IsQueued(log, queue, i - (|log| - |queue|));
    }
    UntouchedEntry(v, log, k, n);
  }

  lemma AddressIsCurrent(root: Addr, log: seq<Write>, queue: seq<Write>, ahead: bool, n: Path)
    requires IsTail(log, queue) && (ahead ==> queue != [])
    requires forall i :: 0 <= i < |queue| ==> !Related(queue[i].path, n)
    ensures AddressAfter(root, Reached(log, queue, ahead), n) == AddressAfter(root, log, n)
  {
    var k := |Reached(log, queue, ahead)|;
    forall i | k <= i < |log| ensures !Related(log[i].path, n) {
      assert IsQueued(log, queue, i - (|log| - |queue|));
    }
    UnrelatedAddress(root, log, k, n);
  }

  // ---------------------------------------------------------------- one step of each operation

  ghost predicate QueueValid(log: seq<Write>, queue: seq<Write>, overrides: map<Path, Write>, lastSeq: nat,
                             waiters: map<nat, seq<nat>>) {
    && IsTail(log, queue) && lastSeq == |log| && overrides == Newest(queue) && AllQueued(waiters, log, queue)
    && (queue != [] ==> Normal(queue[0].path))
  }

  lemma EnqueueKeeps(initial: Addr, server: Addr, log: seq<Write>, queue: seq<Write>, ahead: bool, w: Write)
    requires IsTail(log, queue) && Coherent(initial, server, log, queue, ahead)
    ensures Coherent(initial, server, log + [w], queue + [w], ahead)
  {
    if AllSafe(log + [w]) {
      AllSafeSnoc(log, w);
      assert Reached(log + [w], queue + [w], ahead) == Reached(log, queue, ahead);
      assert Pending(queue + [w], ahead) == Pending(queue, ahead) + [w];
      MorePending(initial, server, Reached(log, queue, ahead), Pending(queue, ahead), Pending(queue, ahead) + [w]);
    }
  }

  /** A superseded head is skipped, whether or not the server has seen it. */
  lemma SkipKeeps(initial: Addr, server: Addr, log: seq<Write>, queue: seq<Write>, ahead: bool)
    requires IsTail(log, queue) && queue != [] && Coherent(initial, server, log, queue, ahead)
    requires WritesAt(queue[1..], queue[0].path)
    ensures Coherent(initial, server, log, queue[1..], false)
  {
    HeadIsNext(log, queue);
    if AllSafe(log) && !ahead {
      SkipInStep(initial, server, Reached(log, queue, false), queue[0], queue[1..]);
    }
  }

  /** A head that the server has dealt with goes. */
  lemma DoneKeeps(initial: Addr, server: Addr, log: seq<Write>, queue: seq<Write>)
    requires IsTail(log, queue) && queue != [] && Coherent(initial, server, log, queue, true)
    ensures Coherent(initial, server, log, queue[1..], false)
  {
    HeadIsNext(log, queue);
  }

  /** The server deals with the head, for the first time or again. */
  lemma AnswerKeeps(initial: Addr, server: Addr, server': Addr, log: seq<Write>, queue: seq<Write>, ahead: bool)
    requires IsTail(log, queue) && queue != [] && Coherent(initial, server, log, queue, ahead)
    requires IsNode(server') && IsTaken(server, server', queue[0])
    ensures Coherent(initial, server', log, queue, true)
  {
    HeadIsNext(log, queue);
    if AllSafe(log) {
      if ahead {
        TakeAgainInStep(initial, server, server', Reached(log, queue, false), queue[0], queue[1..]);
      } else {
        TakeInStep(initial, server, server', Reached(log, queue, false), queue[0], queue[1..]);
      }
    }
  }

  lemma HeadIsStale(log: seq<Write>, queue: seq<Write>)
    requires IsTail(log, queue) && queue != []
    requires queue[0].path !in Newest(queue) || Newest(queue)[queue[0].path].seqNo != queue[0].seqNo
    ensures WritesAt(queue[1..], queue[0].path)
  {
    HeadInNewest(log, queue);
  }

  lemma HeadIsCurrent(log: seq<Write>, queue: seq<Write>)
    requires IsTail(log, queue) && queue != []
    requires queue[0].path in Newest(queue) && Newest(queue)[queue[0].path].seqNo == queue[0].seqNo
    ensures !WritesAt(queue[1..], queue[0].path)
  {
    HeadInNewest(log, queue);
    var i := NewestMeaning(queue[1..], queue[0].path);
  }

  /** The overrides after the head of the queue is done with. */
  function Cleared(overrides: map<Path, Write>, item: Write): map<Path, Write> {
    if item.path in overrides && overrides[item.path].seqNo == item.seqNo then overrides - {item.path} else overrides
  }

  lemma PopIsValid(log: seq<Write>, queue: seq<Write>, overrides: map<Path, Write>, lastSeq: nat,
                   waiters: map<nat, seq<nat>>)
    requires QueueValid(log, queue, overrides, lastSeq, waiters) && queue != []
    ensures QueueValid(log, queue[1..], Cleared(overrides, queue[0]), lastSeq, waiters - {queue[0].seqNo})
  {
    HeadInNewest(log, queue);
    PopKeeps(log, queue);
    QueuedSeqNo(log, queue, 0);
    if |queue| > 1 { QueuedSeqNo(log, queue, 1); }
  }

  /** A later entry is queued for the path of the head. */
  ghost predicate Superseded(queue: seq<Write>)
    requires queue != []
  {
    WritesAt(queue[1..], queue[0].path)
  }

  /** The server goes on refusing a write that is blocked or denied. */
  ghost predicate IsRefused(present: set<Addr>, root: Addr, w: Write, clock: (nat, nat) -> string,
                            approve: (Addr, Addr, seq<LinkRequest>) -> bool)
    requires IsNode(root) && Normal(w.path)
  {
    IsBlocked(root, w) || IsDenied(present, root, w, clock, approve)
  }

  /** What the server holds, its time stamps and its callbacks when it handles a request. */
  datatype Round = Round(present: set<Addr>, clock: (nat, nat) -> string, approve: (Addr, Addr, seq<LinkRequest>) -> bool)

  ghost predicate RefusesIn(r: Round, root: Addr, w: Write) {
    && Normal(w.path) && Complete(r.present, root) && (w.target.Some? ==> Complete(r.present, w.target.value))
    && IsRefused(r.present, root, w, r.clock, r.approve)
  }

  /** The server's reply to a lookup that continues from where the caches gave out. */
  datatype Reply = Replied | AccessDenied | OtherStatus

  /** What a lookup makes of a pending write at or above its path. */
  datatype LocalAnswer = NoOverride | At(addr: Addr) | Absent | Denied | Broken

  /** The entries of a reply are searched for a variable that does not exist, so none becomes an answer. */
  function AfterReply(reply: Reply): LocalAnswer {
    match reply case Replied => Broken case AccessDenied => LocalAnswer.Denied case OtherStatus => Absent
  }

  /** The newest of all writes ever enqueued at or above a path. */
  ghost predicate IsNewestFor(log: seq<Write>, w: Write, target: Path) {
    && AtOrAbove(w.path, target) && 0 < w.seqNo <= |log| && w == log[w.seqNo - 1]
    && forall i :: w.seqNo <= i < |log| ==> !AtOrAbove(log[i].path, target)
  }

  /**
    An address is what the pending write has at the path; "absent" is right except after an odd reply; and with all
    of the target cached only an inherited name or an unlinked ancestor keeps the answer from being right.
  */
  ghost predicate IsLocalAnswer(w: Write, target: Path, cache: set<Addr>, reply: Reply, found: LocalAnswer)
    requires AtOrAbove(w.path, target)
  {
    var rest := target[|w.path|..]; var right := TargetAt(w.target, rest);
    && !found.NoOverride?
    && (found.At? ==> right == Some(found.addr))
    && (found.Absent? ==> right.None? || reply.OtherStatus?)
    && (w.path == target ==> found == if right.Some? then At(right.value) else Absent)
    && (found.Denied? ==> reply.AccessDenied?)
    && (w.path != target && w.target.None? ==>
          found == match reply case Replied => Broken case AccessDenied => LocalAnswer.Denied case OtherStatus => Absent)
    && (w.target.Some? && Complete(cache, w.target.value) ==>
          && (found.At? <==> right.Some?)
          && (right.None? && !FastWalk.IsMisled(w.target.value, rest) ==> found == Absent))
  }

  lemma WalkAnswers(w: Write, target: Path, cache: set<Addr>, reply: Reply, r: FastWalk.WalkResult)
    requires AtOrAbove(w.path, target) && w.path != target && w.target.Some?
    requires FastWalk.IsWalk(cache, w.target.value, target[|w.path|..], r)
    ensures IsLocalAnswer(w, target, cache, reply,
      if r.Hit? then At(r.node) else if r.Failed? then Absent else if r.Partial? then AfterReply(reply) else Broken)
  {
    var start, rest := w.target.value, target[|w.path|..];
    FastWalk.ResultMeaning(cache, start, rest, r);
    if Complete(cache, start) { FastWalk.AllCached(cache, start, rest, r); }
  }

  /** Callbacks that object to nothing. */
  function AllAgree(oldRoot: Addr, newRoot: Addr, reqs: seq<LinkRequest>): bool {
    true
  }

  // ---------------------------------------------------------------- the queue

  class DesyncQueue {
    var overrides: map<Path, Write>
    var queue: seq<Write>
    var lastSeq: nat
    var flushing: bool
    /** Whether the worker is waiting for the server's answer on the head of the queue. */
    var inFlight: bool
    /** Who waits for a sequence number to be dealt with. */
    var waiters: map<nat, seq<nat>>

    /** All that was ever enqueued, and the server's root at the start and now. */
    ghost var log: seq<Write>
    ghost var initial: Addr
    ghost var server: Addr
    /** Whether the server has dealt with the head already, and what it has to tell about it. */
    ghost var ahead: bool
    ghost var answer: Answer

    ghost predicate QueueOk()
      reads this`log, this`queue, this`overrides, this`lastSeq, this`waiters
    {
      QueueValid(log, queue, overrides, lastSeq, waiters)
    }

    ghost predicate VolumeOk()
      reads this`initial, this`server, this`log, this`queue, this`ahead
    {
      Coherent(initial, server, log, queue, ahead)
    }

    ghost predicate Valid()
      reads this
    {
      && QueueOk() && VolumeOk()
      && (queue != [] ==> flushing) && (inFlight ==> queue != []) && (!inFlight ==> answer.NoAnswer?)
      && (Handled(answer) ==> ahead)
    }

    constructor (root: Addr)
      requires IsNode(root) && IsDir(root)
      ensures Valid() && log == [] && queue == [] && initial == root && server == root && !inFlight
    {
      overrides, queue, lastSeq, flushing, inFlight, waiters := map[], [], 0, false, false, map[];
      log, initial, server, ahead, answer := [], root, root, false, NoAnswer;
      NothingDone(root);
    }

    method Push(w: Write)
      requires Valid() && Normal(w.path) && w.seqNo == lastSeq + 1
      modifies this`lastSeq, this`log, this`overrides, this`queue, this`flushing
      ensures Valid() && lastSeq == w.seqNo
      ensures log == old(log) + [w] && queue == old(queue) + [w] && overrides == old(overrides)[w.path := w]
    {
      PushIsValid(log, queue, overrides, lastSeq, waiters, w);
      EnqueueKeeps(initial, server, log, queue, ahead, w);
      lastSeq, log := w.seqNo, log + [w];
      overrides := overrides[w.path := w];
      queue := queue + [w];
      flushing := true;
    }

    /** `enqueue`, which also starts the worker. */
    method Enqueue(path: Path, target: Option<Addr>)
      requires Valid() && Normal(path)
      modifies this
      ensures Valid() && unchanged(`initial) && unchanged(`server) && unchanged(`answer) && unchanged(`waiters)
      ensures unchanged(`inFlight)
      ensures var w := Write(path, target, old(lastSeq) + 1);
        log == old(log) + [w] && queue == old(queue) + [w] && overrides == old(overrides)[path := w]
    {
      Push(Write(path, target, lastSeq + 1));
    }

    /** `_notifyWaiters` */
    method NotifyWaiters(seqNo: nat) returns (woken: seq<nat>)
      modifies this`waiters
      ensures waiters == old(waiters) - {seqNo}
      ensures woken == Waiting(old(waiters), seqNo)
    {
      woken := [];
      if seqNo in waiters {
        woken := waiters[seqNo];
      }
      waiters := waiters - {seqNo};
    }

    /** Takes the head off the queue, with its override if that is still current, and tells those who wait for it. */
    method Pop() returns (woken: seq<nat>)
      requires QueueOk() && queue != []
      modifies this`queue, this`overrides, this`waiters
      ensures QueueOk() && queue == old(queue)[1..]
      ensures overrides == Cleared(old(overrides), old(queue)[0])
      ensures Told(old(waiters), old(queue)[0].seqNo, woken)
    {
      var item := queue[0];
      PopIsValid(log, queue, overrides, lastSeq, waiters);
      queue := queue[1..];
      if item.path in overrides && overrides[item.path].seqNo == item.seqNo {
        overrides := overrides - {item.path};
      }
      woken := NotifyWaiters(item.seqNo);
    }

    method SkipHead() returns (woken: seq<nat>)
      requires Valid() && flushing && !inFlight && queue != []
      requires queue[0].path !in overrides || overrides[queue[0].path].seqNo != queue[0].seqNo
      modifies this`queue, this`overrides, this`waiters, this`ahead
      ensures Valid() && WritesAt(old(queue)[1..], old(queue)[0].path)
      ensures queue == old(queue)[1..] && overrides == old(overrides)
      ensures Told(old(waiters), old(queue)[0].seqNo, woken)
    {
      HeadIsStale(log, queue);
      SkipKeeps(initial, server, log, queue, ahead);
      ahead := false;
      woken := Pop();
    }

    /** One turn of the worker up to sending: a superseded head is dropped, and those waiting for it are told. */
    method FlushNext() returns (woken: seq<nat>)
      requires Valid() && flushing && !inFlight
      modifies this`queue, this`flushing, this`inFlight, this`waiters, this`overrides, this`ahead
      ensures Valid() && (old(queue) != [] ==> flushing)
      ensures old(queue) == [] ==> !flushing && !inFlight && queue == [] && woken == []
      ensures old(queue) != [] && WritesAt(old(queue)[1..], old(queue)[0].path) ==>
        !inFlight && queue == old(queue)[1..] && overrides == old(overrides)
        && Told(old(waiters), old(queue)[0].seqNo, woken)
      ensures old(queue) != [] && !WritesAt(old(queue)[1..], old(queue)[0].path) ==>
        inFlight && queue == old(queue) && overrides == old(overrides) && waiters == old(waiters) && woken == []
    {
      woken := [];
      if queue == [] {
        flushing := false;
      } else if queue[0].path !in overrides || overrides[queue[0].path].seqNo != queue[0].seqNo {
        woken := SkipHead();
      } else {
        HeadIsCurrent(log, queue);
        inFlight := true;
      }
    }

    /** Those waiting for a sequence number were told, and they alone. */
    ghost predicate Told(was: map<nat, seq<nat>>, seqNo: nat, woken: seq<nat>)
      reads this`waiters
    {
      waiters == was - {seqNo} && woken == if seqNo in was then was[seqNo] else []
    }

    /** The server handles the item in flight, with the blobs it holds by then. */
    ghost method ServerHandles(present: set<Addr>, clock: (nat, nat) -> string,
                               approve: (Addr, Addr, seq<LinkRequest>) -> bool)
      requires Valid() && inFlight && answer.NoAnswer?
      requires Complete(present, server) && (queue[0].target.Some? ==> Complete(present, queue[0].target.value))
      modifies this`server, this`answer, this`ahead
      ensures Valid() && !answer.NoAnswer?
      ensures (answer, server) == Serve(present, old(server), queue[0], clock, approve)
      ensures forall n :: !Related(queue[0].path, n) ==> Lookup(server, n) == Lookup(old(server), n)
    {
      ServeMeaning(present, server, queue[0], clock, approve);
      var (a, root) := Serve(present, server, queue[0], clock, approve);
      if Handled(a) {
        ServeTakes(present, server, queue[0], clock, approve);
        AnswerKeeps(initial, server, root, log, queue, ahead);
        forall n | !Related(queue[0].path, n) ensures Lookup(root, n) == Lookup(server, n) {
          assert IsTakenAt(server, root, queue[0], n);
        }
        ahead := true;
      }
      answer, server := a, root;
    }

    method PopDone() returns (woken: seq<nat>)
      requires QueueOk() && VolumeOk() && ahead
      modifies this`queue, this`overrides, this`waiters, this`ahead
      ensures QueueOk() && VolumeOk() && !ahead && queue == old(queue)[1..]
      ensures Told(old(waiters), old(queue)[0].seqNo, woken)
    {
      DoneKeeps(initial, server, log, queue);
      ahead := false;
      woken := Pop();
    }

    /**
      The rest of the worker's turn, once the client hears back: the server's answer, or a failure on the way
      (NoAnswer) after which it is not known whether the server has handled the item.
    */
    method FlushDone(reply: Answer) returns (woken: seq<nat>)
      requires Valid() && inFlight && (Handled(reply) ==> reply == answer)
      modifies this
      ensures Valid() && !inFlight
      ensures unchanged(`log) && unchanged(`initial) && unchanged(`server) && unchanged(`flushing)
      ensures Handled(reply) ==> queue == old(queue)[1..] && Told(old(waiters), old(queue)[0].seqNo, woken)
      ensures !Handled(reply) ==> queue == old(queue) && waiters == old(waiters) && woken == []
    {
      woken := [];
      if Handled(reply) {
        woken := PopDone();
      }
      answer, inFlight := NoAnswer, false;
    }

    /** The server's answer on the item in flight gets through: the item leaves the queue unless it is refused. */
    method Deliver(reply: Answer, ghost present: set<Addr>, ghost clock: (nat, nat) -> string,
                   ghost approve: (Addr, Addr, seq<LinkRequest>) -> bool)
      returns (woken: seq<nat>)
      requires Valid() && inFlight && answer.NoAnswer?
      requires Complete(present, server) && (queue[0].target.Some? ==> Complete(present, queue[0].target.value))
      requires reply == Serve(present, server, queue[0], clock, approve).0
      modifies this
      ensures Valid() && !inFlight && unchanged(`log) && unchanged(`initial) && unchanged(`flushing)
      ensures server == Serve(present, old(server), old(queue)[0], clock, approve).1
      ensures var stays := IsRefused(present, old(server), old(queue)[0], clock, approve);
        queue == (if stays then old(queue) else old(queue)[1..]) && (stays ==> server == old(server))
    {
      ServeMeaning(present, server, queue[0], clock, approve);
      ServerHandles(present, clock, approve);
      woken := FlushDone(reply);
    }

    /**
      A turn of the worker in which the server's answer gets through: the head leaves the queue exactly if it is
      superseded, or neither blocked nor denied; one that stays leaves the server as it is.
    */
    method Turn(reply: Answer, ghost present: set<Addr>, ghost clock: (nat, nat) -> string,
                ghost approve: (Addr, Addr, seq<LinkRequest>) -> bool)
      returns (woken: seq<nat>)
      requires Valid() && flushing && !inFlight && queue != []
      requires Complete(present, server) && (queue[0].target.Some? ==> Complete(present, queue[0].target.value))
      requires reply == Serve(present, server, queue[0], clock, approve).0
      modifies this
      ensures Valid() && flushing && !inFlight && unchanged(`log) && unchanged(`initial)
      ensures var stays := !Superseded(old(queue)) && IsRefused(present, old(server), old(queue)[0], clock, approve);
        queue == (if stays then old(queue) else old(queue)[1..]) && (stays ==> server == old(server))
      ensures server == if Superseded(old(queue)) then old(server)
        else Serve(present, old(server), old(queue)[0], clock, approve).1
    {
      woken := FlushNext();
      if inFlight {
        woken := Deliver(reply, present, clock, approve);
      }
    }

    /** However often the worker tries, a head that goes on being refused and that nothing supersedes stays. */
    method RetryRefused(turns: nat, ghost rounds: nat -> Round)
      requires Valid() && flushing && !inFlight && queue != [] && !Superseded(queue)
      requires forall i :: 0 <= i < turns ==> RefusesIn(rounds(i), server, queue[0])
      modifies this
      ensures Valid() && flushing && !inFlight && unchanged(`log) && unchanged(`initial)
      ensures queue == old(queue) && server == old(server)
    {
      var i := 0;
      while i < turns
        invariant Valid() && flushing && !inFlight && unchanged(`log) && unchanged(`initial)
        invariant queue == old(queue) && server == old(server)
      {
        ghost var r := rounds(i);
        assert RefusesIn(r, server, queue[0]);
        ServeMeaning(r.present, server, queue[0], r.clock, r.approve);
        var woken := Turn(Refused, r.present, r.clock, r.approve);
        i := i + 1;
      }
    }

    /**
      `_lookup_internal` and `_desyncLookup` while a write at or above the target is pending: its address if it is
      for the very path, else a walk from there through the caches, else what becomes of the server's reply.
    */
    method LookupOverride(target: Path, cache: set<Addr>, reply: Reply) returns (found: LocalAnswer, best: Option<Write>)
      requires Valid()
      ensures found.NoOverride? <==> best.None?
      ensures best.None? ==> forall i :: 0 <= i < |queue| ==> !AtOrAbove(queue[i].path, target)
      ensures best.Some? ==> IsNewestFor(log, best.value, target) && |log| - |queue| < best.value.seqNo
      ensures best.Some? ==> IsLocalAnswer(best.value, target, cache, reply, found)
    {
      best := FindAncestorOverride(target);
      if best.None? {
        return NoOverride, best;
      }
      var w := best.value;
      if w.path == target {
        return (if w.target.Some? then At(w.target.value) else Absent), best;
      }
      if w.target.None? {
        return AfterReply(reply), best;  // nothing is cached under no address
      }
      var r := FastWalk.FastWalk(cache, w.target.value, target[|w.path|..]);
      match r {
        case Hit(node) => found := At(node);
        case Failed => found := Absent;
        case Partial(_, _) => found := AfterReply(reply);
        case Astray(_) => found := Broken;  // what it stopped at is no string
      }
      WalkAnswers(w, target, cache, reply, r);
    }

    /** `findAncestorOverride`: the newest override at or above the target. */
    method FindAncestorOverride(target: Path) returns (best: Option<Write>)
      requires Valid()
      ensures best.None? ==> forall i :: 0 <= i < |queue| ==> !AtOrAbove(queue[i].path, target)
      ensures best.Some? ==>
        && AtOrAbove(best.value.path, target)
        && |log| - |queue| < best.value.seqNo <= |log| && best.value == log[best.value.seqNo - 1]
        && forall i :: best.value.seqNo <= i < |log| ==> !AtOrAbove(log[i].path, target)
    {
      best := None;
      var paths := overrides.Keys;
      while paths != {}
        invariant paths <= overrides.Keys
        invariant best.Some? ==>
          && best.value.path in overrides && best.value == overrides[best.value.path]
          && AtOrAbove(best.value.path, target)
        invariant forall p :: p in overrides && p !in paths && AtOrAbove(p, target) ==>
          best.Some? && overrides[p].seqNo <= best.value.seqNo
      {
        var path :| path in paths;
        paths := paths - {path};
        OverrideIsLogged(path);
        if AtOrAbove(path, target) && (best.None? || overrides[path].seqNo > best.value.seqNo) {
          best := Some(overrides[path]);
        }
      }
      if best.Some? { NewestAbove(best.value, target); }
      forall i | 0 <= i < |queue| ensures queue[i].path in overrides { InOverrides(i); }
    }

    lemma OverrideIsLogged(path: Path)
      requires Valid() && path in overrides
      ensures var w := overrides[path]; w.path == path && |log| - |queue| < w.seqNo <= |log| && log[w.seqNo - 1] == w
    {
      var k := NewestMeaning(queue, path);
      QueuedSeqNo(log, queue, k);
    }

    lemma InOverrides(i: nat)
      requires Valid() && i < |queue|
      ensures queue[i].path in overrides && queue[i].seqNo <= overrides[queue[i].path].seqNo
    {
      var k := NewestMeaning(queue, queue[i].path);
      QueuedSeqNo(log, queue, i);
      QueuedSeqNo(log, queue, k);
    }

    lemma NewestAbove(best: Write, target: Path)
      requires Valid() && best.path in overrides && best == overrides[best.path]
      requires forall p :: p in overrides && AtOrAbove(p, target) ==> overrides[p].seqNo <= best.seqNo
      ensures |log| - |queue| < best.seqNo <= |log| && best == log[best.seqNo - 1]
      ensures forall i :: best.seqNo <= i < |log| ==> !AtOrAbove(log[i].path, target)
    {
      OverrideIsLogged(best.path);
      forall i | best.seqNo <= i < |log| ensures !AtOrAbove(log[i].path, target) {
        var j := i - (|log| - |queue|);
        QueuedSeqNo(log, queue, j);
        InOverrides(j);
      }
    }

    /** `findDescendantSeq`: the highest sequence number pending at or below the target, or -1. */
    method FindDescendantSeq(target: Path) returns (highest: int)
      requires Valid()
      ensures highest == -1 || (|log| - |queue| < highest <= |log| && AtOrAbove(target, log[highest - 1].path))
      ensures forall i :: 0 <= i < |queue| && AtOrAbove(target, queue[i].path) ==> queue[i].seqNo <= highest
    {
      highest := -1;
      var paths := overrides.Keys;
      while paths != {}
        invariant paths <= overrides.Keys
        invariant highest == -1 || (|log| - |queue| < highest <= |log| && AtOrAbove(target, log[highest - 1].path))
        invariant forall p :: p in overrides && p !in paths && AtOrAbove(target, p) ==> overrides[p].seqNo <= highest
      {
        var path :| path in paths;
        paths := paths - {path};
        OverrideIsLogged(path);
        if AtOrAbove(target, path) && overrides[path].seqNo > highest {
          highest := overrides[path].seqNo;
        }
      }
      forall i | 0 <= i < |queue| ensures queue[i].path in overrides && queue[i].seqNo <= overrides[queue[i].path].seqNo {
        InOverrides(i);
      }
    }

    /** `_waitForDescendants`: wait, if anything at or below the directory is pending, for the newest of it. */
    method WaitForDescendants(dir: Path, who: nat) returns (waitFor: int)
      requires Valid()
      modifies this`waiters
      ensures Valid()
      ensures waitFor == -1 || (|log| - |queue| < waitFor <= |log| && AtOrAbove(dir, log[waitFor - 1].path))
      ensures waitFor < 0 ==> waiters == old(waiters)
      ensures waitFor >= 0 ==>
        && waiters - {waitFor} == old(waiters) - {waitFor} && waitFor in waiters
        && waiters[waitFor] == (if waitFor in old(waiters) then old(waiters)[waitFor] else []) + [who]
      ensures forall i :: 0 <= i < |queue| && AtOrAbove(dir, queue[i].path) ==> queue[i].seqNo <= waitFor
    {
      waitFor := FindDescendantSeq(dir);
      if waitFor >= 0 {
        waiters := waiters[waitFor := Waiting(waiters, waitFor) + [who]];
      }
    }

    /** When the queue has drained, no override is left and the server has all that was enqueued, in order. */
    lemma Drained()
      requires Valid() && queue == []
      ensures overrides == map[] && waiters == map[]
      ensures AllSafe(log) ==> ViewOf(server) == InOrder(ViewOf(initial), log)
    {
      assert waiters.Keys == {};
      if AllSafe(log) {
        assert Reached(log, queue, ahead) == log;
        AgreeEverywhere(ViewOf(server), InOrder(ViewOf(initial), log));
      }
    }

    /** A drained queue has left every address that can be known. */
    lemma AddressesDrained(n: Path)
      requires Valid() && queue == [] && AllSafe(log) && AddressAfter(initial, log, n).Known?
      ensures Lookup(server, n) == AddressAfter(initial, log, n).addr
    {
      AddressIsSettled(n);
    }

    /** Where nothing is pending at or above a path, the server already has there what it will have in the end. */
    lemma ServerIsCurrent(n: Path)
      requires Valid() && AllSafe(log)
      requires forall i :: 0 <= i < |queue| ==> !AtOrAbove(queue[i].path, n)
      ensures SameAt(ViewOf(server), InOrder(ViewOf(initial), log), n)
    {
      FlushedIsCurrent(ViewOf(initial), log, queue, ahead, n);
      assert !Covered(Pending(queue, ahead), n);
      assert SameAt(ViewOf(server), InOrder(ViewOf(initial), Reached(log, queue, ahead)), n);
    }

    /**
      Where nothing is pending at, above or below a path, the server already has there the very address that it will
      have in the end, so far as that can be known.
    */
    lemma AddressIsSettled(n: Path)
      requires Valid() && AllSafe(log)
      requires forall i :: 0 <= i < |queue| ==> !Related(queue[i].path, n)
      requires AddressAfter(initial, log, n).Known?
      ensures Lookup(server, n) == AddressAfter(initial, log, n).addr
    {
      AddressIsCurrent(initial, log, queue, ahead, n);
      KnownInStep(initial, server, Reached(log, queue, ahead), Pending(queue, ahead), n);
    }

    /**
      The answer given from an override while it was pending is, once the queue has drained, what the server has
      there: if the override was taken and no later entry is taken below the path.
    */
    lemma ReadWasRight(best: Write, target: Path)
      requires Valid() && queue == [] && AllSafe(log) && IsNewestFor(log, best, target)
      requires Accepts(InOrder(ViewOf(initial), log[..best.seqNo - 1]), best)
      requires forall i :: best.seqNo <= i < |log| ==> !WritesBelow(initial, log, i, target)
      ensures Lookup(server, target) == TargetAt(best.target, target[|best.path|..])
    {
      assert log[..|log|] == log;
      assert !WrittenBelow(initial, log, best.seqNo - 1, |log|, target);
      OverrideIsFinal(initial, log, best.seqNo - 1, target, |log|);
      AddressesDrained(target);
    }

    /** It is wrong whenever anything below the path has come out differently. */
    lemma ReadWasWrong(target: Path, answer: Option<Addr>, q: Path)
      requires Valid() && queue == [] && AllSafe(log) && target <= q
      requires !IsEntryAt(InOrder(ViewOf(initial), log), q, TargetAt(answer, q[|target|..]))
      ensures Lookup(server, target) != answer
    {
      Drained();
      DifferenceShows(server, target, answer, q);
    }
  }

  method TwoEnqueued(root: Addr, p: Path, t: Option<Addr>, p': Path, t': Option<Addr>) returns (q: DesyncQueue)
    requires IsDir(root) && Normal(p) && Normal(p')
    ensures fresh(q) && q.Valid() && q.flushing && !q.inFlight && q.server == root
    ensures q.queue == [Write(p, t, 1), Write(p', t', 2)]
  {
    q := new DesyncQueue(root);
    q.Enqueue(p, t);
    q.Enqueue(p', t');
  }

  /** A queue that never drains: a file is linked at p, and before it is flushed a write below it is enqueued. */
  method StuckQueue(root: Addr, p: Path, f: Addr, n: Name, target: Option<Addr>,
                    ghost present: set<Addr>, ghost clock: (nat, nat) -> string)
    returns (q: DesyncQueue)
    requires Complete(present, root) && IsDir(root) && Complete(present, f) && f.kind.File?
    requires Normal(p + [n]) && CanPut(ViewOf(root), p)
    requires target.Some? ==> Complete(present, target.value)
    ensures q.Valid() && q.flushing && !q.inFlight && q.queue == [Write(p + [n], target, 2)]
    ensures Lookup(q.server, p) == Some(f) && IsBlocked(q.server, q.queue[0]) && !Superseded(q.queue)
  {
    assert p == (p + [n])[..|p|];
    q := TwoEnqueued(root, p, Some(f), p + [n], target);
    ghost var first, second := q.queue[0], q.queue[1];
    assert q.queue[1..] == [second];
    FileIsPut(present, root, first, clock);
    var woken := q.Turn(Linked, present, clock, AllAgree);
    FileBlocksBelow(q.server, p, f, second);
  }

  lemma DeniedIsRefused(present: set<Addr>, root: Addr, w: Write, clock: (nat, nat) -> string,
                        parse: Confinement.Parser, principal: P.Principal)
    requires Complete(present, root) && Normal(w.path)
    requires w.target.Some? ==> Complete(present, w.target.value)
    requires Accepts(ViewOf(root), w) && !Confinement.MayLink(parse, root, principal, w.path)
    ensures RefusesIn(Round(present, clock, Callback(parse, principal)), root, w)
  {
    DeniedExactly(present, root, w, clock, parse, principal);
  }

  /** Another: a client links where it may not. */
  method DeniedQueue(root: Addr, w: Write, parse: Confinement.Parser, principal: P.Principal, turns: nat,
                     ghost present: set<Addr>, ghost clock: nat -> (nat, nat) -> string)
    returns (q: DesyncQueue)
    requires Complete(present, root) && IsDir(root) && Normal(w.path) && w.seqNo == 1
    requires w.target.Some? ==> Complete(present, w.target.value)
    requires Accepts(ViewOf(root), w) && !Confinement.MayLink(parse, root, principal, w.path)
    ensures q.Valid() && q.flushing && !q.inFlight && q.queue == [w] && q.server == root
  {
    q := new DesyncQueue(root);
    q.Enqueue(w.path, w.target);
    assert q.queue == [w] && !Superseded(q.queue);
    ghost var rounds := (i: nat) => Round(present, clock(i), Callback(parse, principal));
    forall i: nat ensures RefusesIn(rounds(i), root, w) {
      DeniedIsRefused(present, root, w, clock(i), parse, principal);
    }
    q.RetryRefused(turns, rounds);
  }

  lemma FileIsPut(present: set<Addr>, root: Addr, w: Write, clock: (nat, nat) -> string)
    requires Complete(present, root) && Normal(w.path) && CanPut(ViewOf(root), w.path)
    requires w.target.Some? && Complete(present, w.target.value) && w.target.value.kind.File?
    ensures var (answer, root') := Serve(present, root, w, clock, AllAgree);
      answer.Linked? && Lookup(root', w.path) == w.target && !IsRefused(present, root, w, clock, AllAgree)
  {
    ServeMeaning(present, root, w, clock, AllAgree);
    ServeTakes(present, root, w, clock, AllAgree);
    assert w.path[|w.path|..] == [];
    assert IsTakenAt(root, Serve(present, root, w, clock, AllAgree).1, w, w.path);
  }

  // ---------------------------------------------------------------- a read that comes out wrong

  /** A directory is linked at p, and then a file in it that is not there already. */
  lemma ChangedBelow(root: Addr, p: Path, d: Addr, n: Name, f: Addr)
    requires IsDir(root) && CanPut(ViewOf(root), p) && IsDir(d) && f.Metadata? && f.kind.File?
    requires n in Kids(d) ==> Kids(d)[n] != f
    ensures var first, second := Write(p, Some(d), 1), Write(p + [n], Some(f), 2);
      var v := Put(ViewOf(root), first);
      && AllSafe([first, second]) && Accepts(ViewOf(root), first) && Accepts(v, second)
      && InOrder(ViewOf(root), [first, second]) == Put(v, second)
      && !IsEntryAt(Put(v, second), p + [n], Lookup(d, [n]))
  {
    var first, second := Write(p, Some(d), 1), Write(p + [n], Some(f), 2);
    TwoInOrder(root, first, second);
    DirIsThere(ViewOf(root), first);
    assert second.path[..|p|] == p;
    DiffersAt(Put(ViewOf(root), first), second, d, n);
  }

  lemma DirIsThere(v: View, w: Write)
    requires Accepts(v, w) && w.target.Some? && IsDir(w.target.value)
    ensures HasDir(Put(v, w), w.path)
  {
    PutThere(v, w);
  }

  lemma DiffersAt(v: View, w: Write, d: Addr, n: Name)
    requires Accepts(v, w) && w.target.Some? && w.target.value.Metadata? && w.target.value.kind.File?
    requires n in Kids(d) ==> Kids(d)[n] != w.target.value
    ensures !IsEntryAt(Put(v, w), w.path, Lookup(d, [n]))
  {
    PutThere(v, w);
    assert [n][1..] == [];
  }

  lemma TwoInOrder(root: Addr, first: Write, second: Write)
    ensures AllSafe([first, second]) <==> Safe(first) && Safe(second)
    ensures InOrder(ViewOf(root), [first, second]) == Put(Put(ViewOf(root), first), second)
  {
    assert [first, second] == [first] + [second] && [first] == [] + [first];
    AllSafeSnoc([], first);
    AllSafeSnoc([first], second);
    AddressSnoc(root, [], first, []);
    AddressSnoc(root, [first], second, []);
  }

  lemma PutThere(v: View, w: Write)
    requires Accepts(v, w) && w.target.Some?
    ensures w.path in Put(v, w) && Put(v, w)[w.path] == EntryOf(w.target.value)
  {
    assert w.path[|w.path|..] == [];
  }

  /** Putting what the map accepts, with callbacks that agree, leaves a tree that is held. */
  lemma AcceptedIsLinked(present: set<Addr>, root: Addr, w: Write, clock: (nat, nat) -> string)
    returns (present': set<Addr>)
    requires Complete(present, root) && Normal(w.path) && Accepts(ViewOf(root), w)
    requires w.target.Some? ==> Complete(present, w.target.value)
    ensures var (answer, root') := Serve(present, root, w, clock, AllAgree);
      answer.Linked? && ViewOf(root') == Put(ViewOf(root), w) && !IsRefused(present, root, w, clock, AllAgree)
    ensures present <= present' && Complete(present', Serve(present, root, w, clock, AllAgree).1)
  {
    ServeMeaning(present, root, w, clock, AllAgree);
    LinkedIsBuilt(present, root, w, clock, AllAgree);
    BuiltIsLink(present, root, w, clock);
    var root' := Serve(present, root, w, clock, AllAgree).1;
    present' := present + Written(root', LinkParts(w.path));
    LinkKeepsComplete(present, LinkParts(w.path), w.target, root, clock, 0);
  }

  /** A directory is linked at p and read, and then a file in it is linked. */
  method ReadBetween(root: Addr, p: Path, d: Addr, n: Name, f: Addr, cache: set<Addr>, reply: Reply)
    returns (q: DesyncQueue, found: LocalAnswer)
    requires IsDir(root) && Normal(p + [n])
    ensures fresh(q) && q.Valid() && q.flushing && !q.inFlight && q.initial == root && q.server == root
    ensures found == At(d)
    ensures q.log == q.queue == [Write(p, Some(d), 1), Write(p + [n], Some(f), 2)]
  {
    q := new DesyncQueue(root);
    assert p == (p + [n])[..|p|];
    q.Enqueue(p, Some(d));
    var best;
    found, best := q.LookupOverride(p, cache, reply);
    ReadsItsTarget(Write(p, Some(d), 1), p, cache, reply, found);
    q.Enqueue(p + [n], Some(f));
  }

  /** What a read answers for a directory that is pending is no longer its address when a file below it is through. */
  method StaleRead(root: Addr, p: Path, d: Addr, n: Name, f: Addr, cache: set<Addr>, reply: Reply,
                   ghost present: set<Addr>, ghost clock: (nat, nat) -> string)
    returns (q: DesyncQueue, found: LocalAnswer)
    requires Complete(present, root) && Complete(present, d) && Complete(present, f)
    requires IsDir(root) && IsDir(d) && f.kind.File? && (n in Kids(d) ==> Kids(d)[n] != f)
    requires Normal(p + [n]) && CanPut(ViewOf(root), p)
    ensures q.Valid() && q.queue == [] && found == At(d) && Lookup(q.server, p) != Some(d)
  {
    q, found := ReadBetween(root, p, d, n, f, cache, reply);
    ghost var first, second := q.queue[0], q.queue[1];
    assert q.queue[1..] == [second] && p == (p + [n])[..|p|] && (p + [n])[|p|..] == [n];
    ChangedBelow(root, p, d, n, f);
    ghost var held := FlushOne(q, present, clock);
    CompleteMonotone(present, held, f);
    held := FlushOne(q, held, clock);
    q.ReadWasWrong(p, Some(d), p + [n]);
  }

  /** The server links the head, and the worker hears of it. */
  method FlushOne(q: DesyncQueue, ghost present: set<Addr>, ghost clock: (nat, nat) -> string)
    returns (ghost held: set<Addr>)
    requires q.Valid() && q.flushing && !q.inFlight && q.queue != [] && !Superseded(q.queue)
    requires Accepts(ViewOf(q.server), q.queue[0]) && Complete(present, q.server)
    requires q.queue[0].target.Some? ==> Complete(present, q.queue[0].target.value)
    modifies q
    ensures q.Valid() && q.flushing && !q.inFlight && q.log == old(q.log) && q.initial == old(q.initial)
    ensures q.queue == old(q.queue)[1..] && ViewOf(q.server) == Put(ViewOf(old(q.server)), old(q.queue)[0])
    ensures present <= held && Complete(held, q.server)
  {
    held := AcceptedIsLinked(present, q.server, q.queue[0], clock);
    var woken := q.Turn(Linked, present, clock, AllAgree);
  }

  lemma ReadsItsTarget(w: Write, p: Path, cache: set<Addr>, reply: Reply, found: LocalAnswer)
    requires w.path == p && w.target.Some? && IsLocalAnswer(w, p, cache, reply, found)
    ensures found == At(w.target.value)
  {
    assert p[|p|..] == [];
  }
}
