/**
  What a queue of background writes does to the addresses in a volume, and when the address that the client
  answers with before the queue is flushed is the one the volume ends up with
  (class DesyncQueue and `_lookup_internal` in client/lib/grits/GritsClient.js).
*/
module Addresses {
  import opened Wrappers
  import opened Merkle
  import opened PathTree
  import opened PathMap
  import opened Coalescing

  /** What a link's target has at a path below it. */
  function TargetAt(target: Option<Addr>, rest: Path): Option<Addr> {
    match target case Some(t) => Lookup(t, rest) case None => None
  }

  /** An address, or none; or unknown, since a directory is rebuilt with a new time stamp. */
  datatype Address = Known(addr: Option<Addr>) | Rebuilt

  /** What is at n when the writes have been applied in order. */
  ghost function AddressAfter(root: Addr, ws: seq<Write>, n: Path): Address {
    if ws == [] then Known(Lookup(root, n))
    else AddressNext(root, ws[..|ws| - 1], ws[|ws| - 1], n, AddressAfter(root, ws[..|ws| - 1], n))
  }

  ghost function AddressNext(root: Addr, done: seq<Write>, w: Write, n: Path, was: Address): Address {
    if !Related(w.path, n) || !Accepts(InOrder(ViewOf(root), done), w) then was
    else if AtOrAbove(w.path, n) then Known(TargetAt(w.target, n[|w.path|..]))
    else Rebuilt
  }

  lemma AddressSnoc(root: Addr, done: seq<Write>, w: Write, n: Path)
    ensures AddressAfter(root, done + [w], n) == AddressNext(root, done, w, n, AddressAfter(root, done, n))
    ensures InOrder(ViewOf(root), done + [w]) == Put(InOrder(ViewOf(root), done), w)
  {
    assert (done + [w])[..|done|] == done;
  }

  lemma AddressUpTo(root: Addr, ws: seq<Write>, k: nat, n: Path)
    requires k < |ws|
    ensures AddressAfter(root, ws[..k + 1], n) == AddressNext(root, ws[..k], ws[k], n, AddressAfter(root, ws[..k], n))
  {
    assert ws[..k + 1] == ws[..k] + [ws[k]];
    AddressSnoc(root, ws[..k], ws[k], n);
  }

  // ---------------------------------------------------------------- addresses and the path map

  /** The map has at q what the address has there. */
  ghost predicate IsEntryAt(v: View, q: Path, a: Option<Addr>) {
    (q in v <==> a.Some?) && (q in v ==> v[q] == EntryOf(a.value))
  }

  lemma TargetBelow(target: Option<Addr>, p: Path, n: Path, q: Path)
    requires p <= n <= q
    ensures TargetAt(target, q[|p|..]) == TargetAt(TargetAt(target, n[|p|..]), q[|n|..])
  {
    assert q[|p|..] == n[|p|..] + q[|n|..];
    if target.Some? { LookupConcat(target.value, n[|p|..], q[|n|..]); }
  }

  /** A known address decides what the map has there and below. */
  lemma {:induction false} KnownMeaning(root: Addr, ws: seq<Write>, n: Path, q: Path)
    requires AddressAfter(root, ws, n).Known? && n <= q
    ensures IsEntryAt(InOrder(ViewOf(root), ws), q, TargetAt(AddressAfter(root, ws, n).addr, q[|n|..]))
  {
    if ws == [] {
      assert q == n + q[|n|..];
      LookupConcat(root, n, q[|n|..]);
    } else {
      var w, rest := ws[|ws| - 1], ws[..|ws| - 1];
      if Related(w.path, n) && Accepts(InOrder(ViewOf(root), rest), w) {
        TargetBelow(w.target, w.path, n, q);
      } else {
        KnownMeaning(root, rest, n, q);
        if AtOrAbove(w.path, q) && !Related(w.path, n) { AncestorsCompare(w.path, n, q); }
      }
    }
  }

  lemma LookupBelow(root: Addr, n: Path, q: Path)
    requires n <= q
    ensures Lookup(root, q) == TargetAt(Lookup(root, n), q[|n|..])
  {
    assert q == n + q[|n|..];
    LookupConcat(root, n, q[|n|..]);
  }

  // ---------------------------------------------------------------- one write at the server

  /** The root after the server has dealt with a write: on the map, and at n. */
  ghost predicate IsTakenAt(root: Addr, root': Addr, w: Write, n: Path) {
    if !Related(w.path, n) || !Accepts(ViewOf(root), w) then Lookup(root', n) == Lookup(root, n)
    else AtOrAbove(w.path, n) ==> Lookup(root', n) == TargetAt(w.target, n[|w.path|..])
  }

  ghost predicate IsTaken(root: Addr, root': Addr, w: Write) {
    && ViewOf(root') == Put(ViewOf(root), w)
    && forall n {:trigger IsTakenAt(root, root', w, n)} :: IsTakenAt(root, root', w, n)
  }

  /** A write that is not taken is dropped, and the root stays. */
  lemma DroppedIsTaken(root: Addr, w: Write)
    requires !Accepts(ViewOf(root), w)
    ensures IsTaken(root, root, w)
  {
  }

  /** A link that goes through. */
  lemma LinkIsTaken(present: set<Addr>, root: Addr, w: Write, clock: (nat, nat) -> string, step: nat)
    requires Normal(w.path) && IsNode(root) && (w.path == [] ==> w.target.Some?)
    requires Link(present, LinkParts(w.path), w.target, root, clock, step).Ok?
    ensures IsTaken(root, Link(present, LinkParts(w.path), w.target, root, clock, step).value, w)
  {
    var root' := Link(present, LinkParts(w.path), w.target, root, clock, step).value;
    LinkRefinesGraft(present, w.path, w.target, root, clock, step);
    forall n ensures IsTakenAt(root, root', w, n) {
      if w.path == [] {
        assert n[0..] == n;
      } else {
        LinkMeaning(present, w.path, w.target, root, clock, step, n);
      }
    }
  }

  // ---------------------------------------------------------------- in step with the writes in order

  /** At n the tree has the address that the writes done lead to, unless a pending write will decide. */
  ghost predicate IsKnownAt(initial: Addr, server: Addr, done: seq<Write>, pending: seq<Write>, n: Path) {
    var address := AddressAfter(initial, done, n);
    !Covered(pending, n) && address.Known? ==> Lookup(server, n) == address.addr
  }

  /**
    A tree agrees with what applying the writes done in order gives, on the map and in addresses, but for what the
    writes pending, some of which the tree may be ahead or behind of, will decide.
  */
  ghost predicate InStep(initial: Addr, server: Addr, done: seq<Write>, pending: seq<Write>) {
    && IsDir(initial) && IsDir(server) && AllSafe(done)
    && AgreeBut(ViewOf(server), InOrder(ViewOf(initial), done), pending)
    && forall n {:trigger IsKnownAt(initial, server, done, pending, n)} :: IsKnownAt(initial, server, done, pending, n)
  }

  lemma RootIsSound(root: Addr)
    requires IsDir(root)
    ensures Sound(ViewOf(root))
  {
    ViewIsPrefixClosed(root);
    assert [] in ViewOf(root);
  }

  lemma AllSafeSnoc(done: seq<Write>, w: Write)
    ensures AllSafe(done + [w]) <==> AllSafe(done) && Safe(w)
  {
    assert (done + [w])[..|done|] == done;
  }

  lemma NothingDone(initial: Addr)
    requires IsDir(initial)
    ensures InStep(initial, initial, [], [])
  {
    forall n ensures IsKnownAt(initial, initial, [], [], n) {}
  }

  lemma MorePending(initial: Addr, server: Addr, done: seq<Write>, pending: seq<Write>, more: seq<Write>)
    requires InStep(initial, server, done, pending) && forall i :: 0 <= i < |pending| ==> pending[i] in more
    ensures InStep(initial, server, done, more)
  {
    AgreeButMore(ViewOf(server), InOrder(ViewOf(initial), done), pending, more);
    forall n ensures IsKnownAt(initial, server, done, more, n) {
      assert IsKnownAt(initial, server, done, pending, n);
      if Covered(pending, n) { CoveredByMore(pending, more, n); }
    }
  }

  /** A superseded write is skipped. */
  lemma SkipInStep(initial: Addr, server: Addr, done: seq<Write>, w: Write, rest: seq<Write>)
    requires InStep(initial, server, done, [w] + rest) && Safe(w) && WritesAt(rest, w.path)
    ensures InStep(initial, server, done + [w], rest)
  {
    AllSafeSnoc(done, w);
    SupersededSkipped(ViewOf(server), InOrder(ViewOf(initial), done), w, rest);
    AddressSnoc(initial, done, w, []);
    forall n ensures IsKnownAt(initial, server, done + [w], rest, n) {
      AddressSnoc(initial, done, w, n);
      assert IsKnownAt(initial, server, done, [w] + rest, n);
      CoveredHead(w, rest, n);
      if AtOrAbove(w.path, n) { CoveredAt(rest, w.path, n); }
    }
  }

  lemma CoveredAt(ws: seq<Write>, p: Path, n: Path)
    requires WritesAt(ws, p) && AtOrAbove(p, n)
    ensures Covered(ws, n)
  {
    var i :| 0 <= i < |ws| && ws[i].path == p;
    assert AtOrAbove(ws[i].path, n);
  }

  /** Where the map or the address is the same around n, the server accepts what is accepted in order. */
  lemma SameAnswer(initial: Addr, server: Addr, done: seq<Write>, w: Write, rest: seq<Write>, n: Path)
    requires InStep(initial, server, done, [w] + rest) && Related(w.path, n) && !Covered(rest, n)
    requires !AtOrAbove(w.path, n) ==> AddressAfter(initial, done, n).Known?
    ensures Accepts(ViewOf(server), w) <==> Accepts(InOrder(ViewOf(initial), done), w)
  {
    RootIsSound(server);
    RootIsSound(initial);
    InOrderIsSound(ViewOf(initial), done);
    if w.path != [] {
      var d := w.path[..|w.path| - 1];
      CoveredHead(w, rest, n);
      CoveredHead(w, rest, d);
      if AtOrAbove(w.path, n) {
        if Covered(rest, d) { CoveredBelow(rest, d, n); }
        assert SameAt(ViewOf(server), InOrder(ViewOf(initial), done), d);
      } else {
        assert IsKnownAt(initial, server, done, [w] + rest, n);
        KnownMeaning(initial, done, n, d);
        LookupBelow(server, n, d);
      }
    }
  }

  /** Below a path where nothing can be put there is nothing. */
  lemma NothingThere(v: View, w: Write, n: Path)
    requires Sound(v) && Safe(w) && !Accepts(v, w) && AtOrAbove(w.path, n)
    ensures n !in v
  {
    if w.path != [] {
      var d := w.path[..|w.path| - 1];
      assert d <= n && d != n;
    }
  }

  /** The server deals with the write. */
  lemma TakeInStep(initial: Addr, server: Addr, server': Addr, done: seq<Write>, w: Write, rest: seq<Write>)
    requires InStep(initial, server, done, [w] + rest) && Safe(w) && IsTaken(server, server', w)
    ensures InStep(initial, server', done + [w], rest)
  {
    RootIsSound(server);
    RootIsSound(initial);
    InOrderIsSound(ViewOf(initial), done);
    AllSafeSnoc(done, w);
    AddressSnoc(initial, done, w, []);
    PutOnBoth(ViewOf(server), InOrder(ViewOf(initial), done), w, rest);
    RootStaysDir(server, server', w);
    forall n ensures IsKnownAt(initial, server', done + [w], rest, n) {
      if !Covered(rest, n) { TakeKnownAt(initial, server, server', done, w, rest, n); }
    }
  }

  lemma TakeKnownAt(initial: Addr, server: Addr, server': Addr, done: seq<Write>, w: Write, rest: seq<Write>, n: Path)
    requires InStep(initial, server, done, [w] + rest) && Safe(w) && IsTaken(server, server', w)
    requires !Covered(rest, n)
    ensures IsKnownAt(initial, server', done + [w], rest, n)
  {
    AddressSnoc(initial, done, w, n);
    CoveredHead(w, rest, n);
    assert IsTakenAt(server, server', w, n);
    assert IsKnownAt(initial, server, done, [w] + rest, n);
    if Related(w.path, n) && AddressAfter(initial, done + [w], n).Known? {
      if AtOrAbove(w.path, n) || AddressAfter(initial, done, n).Known? {
        SameAnswer(initial, server, done, w, rest, n);
      }
      if AtOrAbove(w.path, n) && !Accepts(ViewOf(server), w) {
        RootIsSound(server);
        RootIsSound(initial);
        InOrderIsSound(ViewOf(initial), done);
        NothingThere(ViewOf(server), w, n);
        NothingThere(InOrder(ViewOf(initial), done), w, n);
        KnownMeaning(initial, done, n, n);
      }
    }
  }

  lemma RootStaysDir(server: Addr, server': Addr, w: Write)
    requires IsDir(server) && Safe(w) && ViewOf(server') == Put(ViewOf(server), w)
    ensures IsDir(server')
  {
    RootIsSound(server);
    PutIsSound(ViewOf(server), w);
    assert [] in ViewOf(server');
  }

  // ---------------------------------------------------------------- the same write twice

  lemma AcceptedAgain(v: View, w: Write)
    requires Sound(v) && Safe(w)
    ensures Accepts(Put(v, w), w) <==> Accepts(v, w)
    ensures Put(Put(v, w), w) == Put(v, w)
  {
    if Accepts(v, w) {
      GraftTwice(v, w.path, TargetView(w.target), TargetView(w.target));
      PutIsSound(v, w);
    }
  }

  lemma DoneTwice(initial: Addr, done: seq<Write>, w: Write)
    requires Sound(InOrder(ViewOf(initial), done)) && Safe(w)
    ensures InOrder(ViewOf(initial), done + [w] + [w]) == InOrder(ViewOf(initial), done + [w])
    ensures forall n :: AddressAfter(initial, done + [w] + [w], n) == AddressAfter(initial, done + [w], n)
  {
    AcceptedAgain(InOrder(ViewOf(initial), done), w);
    AddressSnoc(initial, done, w, []);
    AddressSnoc(initial, done + [w], w, []);
    forall n ensures AddressAfter(initial, done + [w] + [w], n) == AddressAfter(initial, done + [w], n) {
      AddressSnoc(initial, done, w, n);
      AddressSnoc(initial, done + [w], w, n);
    }
  }

  /** The server deals once more with a write whose answer got lost. */
  lemma TakeAgainInStep(initial: Addr, server: Addr, server': Addr, done: seq<Write>, w: Write, rest: seq<Write>)
    requires InStep(initial, server, done + [w], rest) && Safe(w) && IsTaken(server, server', w)
    ensures InStep(initial, server', done + [w], rest)
  {
    MorePending(initial, server, done + [w], rest, [w] + rest);
    TakeInStep(initial, server, server', done + [w], w, rest);
    AllSafeSnoc(done, w);
    RootIsSound(initial);
    InOrderIsSound(ViewOf(initial), done);
    DoneTwice(initial, done, w);
    forall n ensures IsKnownAt(initial, server', done + [w], rest, n) {
      assert IsKnownAt(initial, server', done + [w] + [w], rest, n);
    }
  }

  // ---------------------------------------------------------------- what can be known

  lemma {:induction false} UnrelatedAddress(root: Addr, ws: seq<Write>, k: nat, n: Path)
    requires k <= |ws| && forall i :: k <= i < |ws| ==> !Related(ws[i].path, n)
    ensures AddressAfter(root, ws[..k], n) == AddressAfter(root, ws, n)
    decreases |ws| - k
  {
    if k < |ws| {
      AddressUpTo(root, ws, k, n);
      UnrelatedAddress(root, ws, k + 1, n);
    } else {
      assert ws[..k] == ws;
    }
  }

  /** Entry i is taken, strictly below n. */
  ghost predicate WritesBelow(root: Addr, ws: seq<Write>, i: nat, n: Path) {
    i < |ws| && AtOrAbove(n, ws[i].path) && Accepts(InOrder(ViewOf(root), ws[..i]), ws[i])
  }

  ghost predicate WrittenBelow(root: Addr, ws: seq<Write>, k: nat, m: nat, n: Path) {
    exists i :: k < i < m && WritesBelow(root, ws, i, n)
  }

  lemma WrittenNext(root: Addr, ws: seq<Write>, k: nat, m: nat, n: Path)
    requires k < m < |ws| && !AtOrAbove(ws[m].path, n)
    ensures WrittenBelow(root, ws, k, m + 1, n) <==> WrittenBelow(root, ws, k, m, n) || WritesBelow(root, ws, m, n)
    ensures WritesBelow(root, ws, m, n) <==> Related(ws[m].path, n) && Accepts(InOrder(ViewOf(root), ws[..m]), ws[m])
  {
    if WritesBelow(root, ws, m, n) { assert k < m < m + 1; }
  }

  /** What the override gives, unless an entry up to m is taken below n. */
  ghost function OverrideAddress(root: Addr, ws: seq<Write>, k: nat, m: nat, n: Path): Address
    requires k < |ws| && AtOrAbove(ws[k].path, n)
  {
    if WrittenBelow(root, ws, k, m, n) then Rebuilt else Known(TargetAt(ws[k].target, n[|ws[k].path|..]))
  }

  ghost predicate IsOverrideAt(root: Addr, ws: seq<Write>, k: nat, m: nat, n: Path)
    requires k < |ws| && m <= |ws| && AtOrAbove(ws[k].path, n)
  {
    AddressAfter(root, ws[..m], n) == OverrideAddress(root, ws, k, m, n)
  }

  lemma OverrideTaken(root: Addr, ws: seq<Write>, k: nat, n: Path)
    requires k < |ws| && AtOrAbove(ws[k].path, n) && Accepts(InOrder(ViewOf(root), ws[..k]), ws[k])
    ensures IsOverrideAt(root, ws, k, k + 1, n)
  {
    AddressUpTo(root, ws, k, n);
  }

  lemma OverrideNext(root: Addr, ws: seq<Write>, k: nat, m: nat, n: Path)
    requires k < m < |ws| && AtOrAbove(ws[k].path, n) && !AtOrAbove(ws[m].path, n)
    requires IsOverrideAt(root, ws, k, m, n)
    ensures IsOverrideAt(root, ws, k, m + 1, n)
  {
    WrittenNext(root, ws, k, m, n);
    AddressUpTo(root, ws, m, n);
  }

  /**
    The address of an override, once taken, is the final one exactly as far as it can be known: unless a later entry
    is taken below the path.
  */
  lemma OverrideIsFinal(root: Addr, ws: seq<Write>, k: nat, n: Path, m: nat)
    requires k < m <= |ws| && AtOrAbove(ws[k].path, n) && Accepts(InOrder(ViewOf(root), ws[..k]), ws[k])
    requires forall i :: k < i < |ws| ==> !AtOrAbove(ws[i].path, n)
    ensures AddressAfter(root, ws[..m], n) == OverrideAddress(root, ws, k, m, n)
  {
    OverrideTaken(root, ws, k, n);
    var i := k + 1;
    while i < m
      invariant k < i <= m && IsOverrideAt(root, ws, k, i, n)
    {
      OverrideNext(root, ws, k, i, n);
      i := i + 1;
    }
  }

  /** A tree in step has every address that can be known, where no pending write will decide. */
  lemma KnownInStep(initial: Addr, server: Addr, done: seq<Write>, pending: seq<Write>, n: Path)
    requires InStep(initial, server, done, pending) && AddressAfter(initial, done, n).Known?
    requires forall i :: 0 <= i < |pending| ==> !Related(pending[i].path, n)
    ensures Lookup(server, n) == AddressAfter(initial, done, n).addr
  {
    assert !Covered(pending, n);
    assert IsKnownAt(initial, server, done, pending, n);
  }

  /** If in the end anything below n differs from what is below an address, that address is not at n. */
  lemma DifferenceShows(server: Addr, n: Path, answer: Option<Addr>, q: Path)
    requires n <= q && !IsEntryAt(ViewOf(server), q, TargetAt(answer, q[|n|..]))
    ensures Lookup(server, n) != answer
  {
    LookupBelow(server, n, q);
  }
}
