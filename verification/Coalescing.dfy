/**
  What a client's queue of background writes does to a volume, as an update of its path map: entries that a later
  entry for the same path supersedes may be skipped (class DesyncQueue in client/lib/grits/GritsClient.js).
*/
module Coalescing {
  import opened Wrappers
  import opened Merkle
  import opened PathTree
  import opened PathMap

  /** A queued link, or an unlink when it has no target. */
  datatype Write = Write(path: Path, target: Option<Addr>, seqNo: nat)

  /** Whether the server takes a write: its parent directory is there, and the root is not being unlinked. */
  ghost predicate Accepts(v: View, w: Write) {
    CanPut(v, w.path) && (w.path == [] ==> w.target.Some?)
  }

  /** A write that the server refuses is dropped. */
  ghost function Put(v: View, w: Write): View {
    if Accepts(v, w) then Graft(v, w.path, TargetView(w.target)) else v
  }

  ghost function InOrder(v: View, ws: seq<Write>): View {
    if ws == [] then v else Put(InOrder(v, ws[..|ws| - 1]), ws[|ws| - 1])
  }

  /** The same, leaving out the entries whose positions are in skip. */
  ghost function Skipping(v: View, ws: seq<Write>, skip: set<nat>): View {
    if ws == [] then v
    else
      var rest := Skipping(v, ws[..|ws| - 1], skip);
      if |ws| - 1 in skip then rest else Put(rest, ws[|ws| - 1])
  }

  ghost predicate WritesAt(ws: seq<Write>, p: Path) {
    exists i :: 0 <= i < |ws| && ws[i].path == p
  }

  ghost predicate IsSuperseded(ws: seq<Write>, i: nat) {
    i < |ws| && exists j :: i < j < |ws| && ws[j].path == ws[i].path
  }

  /** Only a directory may replace the root: `UnsafeWritesBreakCoalescing` shows what goes wrong otherwise. */
  ghost predicate Safe(w: Write) {
    w.path == [] ==> w.target.Some? && IsDir(w.target.value)
  }

  ghost predicate AllSafe(ws: seq<Write>) {
    ws == [] || (Safe(ws[|ws| - 1]) && AllSafe(ws[..|ws| - 1]))
  }

  lemma {:induction false} AllSafeUpTo(ws: seq<Write>, k: nat)
    requires AllSafe(ws) && k <= |ws|
    ensures AllSafe(ws[..k]) && (k < |ws| ==> Safe(ws[k]))
  {
    if k == |ws| {
      assert ws[..k] == ws;
    } else if k < |ws| - 1 {
      AllSafeUpTo(ws[..|ws| - 1], k);
      assert ws[..|ws| - 1][..k] == ws[..k];
    }
  }

  ghost predicate Sound(v: View) {
    PrefixClosed(v) && HasDir(v, [])
  }

  // ---------------------------------------------------------------- agreement

  /** Some entry writes at or above q. */
  ghost predicate Covered(ws: seq<Write>, q: Path) {
    exists i :: 0 <= i < |ws| && AtOrAbove(ws[i].path, q)
  }

  ghost predicate SameAt(v: View, u: View, q: Path) {
    (q in v <==> q in u) && (q in v ==> v[q] == u[q])
  }

  /** The views can differ only where entries still to come will write. */
  ghost predicate AgreeBut(v: View, u: View, ws: seq<Write>) {
    forall q {:trigger SameAt(v, u, q)} :: !Covered(ws, q) ==> SameAt(v, u, q)
  }

  lemma AgreeEverywhere(v: View, u: View)
    requires AgreeBut(v, u, [])
    ensures v == u
  {
    forall q: Path ensures (q in v <==> q in u) && (q in v ==> v[q] == u[q]) {
      assert !Covered([], q);
      assert SameAt(v, u, q);
    }
  }

  lemma CoveredByMore(ws: seq<Write>, us: seq<Write>, q: Path)
    requires forall i :: 0 <= i < |ws| ==> ws[i] in us
    requires Covered(ws, q)
    ensures Covered(us, q)
  {
  }

  /** More entries to come can only weaken the agreement that is owed now. */
  lemma AgreeButMore(v: View, u: View, ws: seq<Write>, us: seq<Write>)
    requires AgreeBut(v, u, ws) && forall i :: 0 <= i < |ws| ==> ws[i] in us
    ensures AgreeBut(v, u, us)
  {
    forall q | !Covered(us, q) ensures SameAt(v, u, q) {
      if Covered(ws, q) { CoveredByMore(ws, us, q); }
    }
  }

  lemma PutElsewhere(v: View, w: Write, q: Path)
    requires !AtOrAbove(w.path, q)
    ensures SameAt(v, Put(v, w), q)
  {
  }

  lemma PutIsSound(v: View, w: Write)
    requires Sound(v) && Safe(w)
    ensures Sound(Put(v, w))
  {
    if Accepts(v, w) {
      var u, t := Put(v, w), TargetView(w.target);
      if t.Some? { ViewIsPrefixClosed(w.target.value); }
      forall a: Path, q: Path | q in u && a <= q && a != q ensures HasDir(u, a) {
        GraftKeepsAbove(v, w.path, t, a, q);
      }
      if w.path == [] { assert HasDir(t.value, w.path[0..]); }
    }
  }

  lemma GraftKeepsAbove(v: View, p: Path, t: Option<View>, a: Path, q: Path)
    requires PrefixClosed(v) && CanPut(v, p) && (t.Some? ==> PrefixClosed(t.value))
    requires q in Graft(v, p, t) && a <= q && a != q
    ensures HasDir(Graft(v, p, t), a)
  {
    if p <= q {
      if p <= a {
        assert a[|p|..] <= q[|p|..] && a[|p|..] != q[|p|..];
        assert HasDir(t.value, a[|p|..]);
      } else {
        var d := p[..|p| - 1];
        assert a <= d;
        assert a != d ==> HasDir(v, a);
      }
    } else {
      assert HasDir(v, a);
      assert !(p <= a);
    }
  }

  lemma CoveredHead(w: Write, ws: seq<Write>, q: Path)
    ensures Covered([w] + ws, q) <==> AtOrAbove(w.path, q) || Covered(ws, q)
  {
    if Covered([w] + ws, q) {
      var i :| 0 <= i < |[w] + ws| && AtOrAbove(([w] + ws)[i].path, q);
      if i > 0 { assert ws[i - 1] == ([w] + ws)[i]; }
    }
    if Covered(ws, q) { CoveredByMore(ws, [w] + ws, q); }
    assert ([w] + ws)[0] == w;
  }

  /** Both sides take the next entry. */
  lemma PutOnBoth(v: View, u: View, w: Write, ws: seq<Write>)
    requires Sound(v) && Sound(u) && Safe(w) && AgreeBut(v, u, [w] + ws)
    ensures AgreeBut(Put(v, w), Put(u, w), ws)
  {
    forall q | !Covered(ws, q) ensures SameAt(Put(v, w), Put(u, w), q) {
      PutOnBothAt(v, u, w, ws, q);
    }
  }

  lemma PutOnBothAt(v: View, u: View, w: Write, ws: seq<Write>, q: Path)
    requires Sound(v) && Sound(u) && Safe(w) && AgreeBut(v, u, [w] + ws) && !Covered(ws, q)
    ensures SameAt(Put(v, w), Put(u, w), q)
  {
    CoveredHead(w, ws, q);
    if !AtOrAbove(w.path, q) {
      assert SameAt(v, u, q);
      PutElsewhere(v, w, q);
      PutElsewhere(u, w, q);
    } else if w.path != [] {
      var d := w.path[..|w.path| - 1];
      assert d <= q && !(w.path <= d);
      if Covered(ws, d) { CoveredBelow(ws, d, q); }
      CoveredHead(w, ws, d);
      assert SameAt(v, u, d);
      if !HasDir(v, d) {
        assert d != q;
      }
    }
  }

  lemma CoveredBelow(ws: seq<Write>, d: Path, q: Path)
    requires Covered(ws, d) && d <= q
    ensures Covered(ws, q)
  {
    var i :| 0 <= i < |ws| && AtOrAbove(ws[i].path, d);
    assert AtOrAbove(ws[i].path, q);
  }

  lemma SameElsewhere(v: View, w: Write, ws: seq<Write>, q: Path)
    requires WritesAt(ws, w.path) && !Covered(ws, q)
    ensures SameAt(v, Put(v, w), q)
  {
    assert !AtOrAbove(w.path, q);
    PutElsewhere(v, w, q);
  }

  /** One side takes an entry that the other skips: one for its path is still to come. */
  lemma PutOnOne(v: View, u: View, w: Write, ws: seq<Write>)
    requires AgreeBut(v, u, ws) && WritesAt(ws, w.path)
    ensures AgreeBut(v, Put(u, w), ws)
  {
    forall q | !Covered(ws, q) ensures SameAt(v, Put(u, w), q) {
      SameElsewhere(u, w, ws, q);
      assert SameAt(v, u, q);
    }
  }

  // ---------------------------------------------------------------- coalescing

  lemma {:induction false} InOrderIsSound(v: View, ws: seq<Write>)
    requires Sound(v) && AllSafe(ws)
    ensures Sound(InOrder(v, ws))
  {
    if ws != [] {
      InOrderIsSound(v, ws[..|ws| - 1]);
      PutIsSound(InOrder(v, ws[..|ws| - 1]), ws[|ws| - 1]);
    }
  }

  lemma InOrderNext(v: View, ws: seq<Write>, k: nat)
    requires k < |ws|
    ensures InOrder(v, ws[..k + 1]) == Put(InOrder(v, ws[..k]), ws[k])
  {
    assert ws[..k + 1][..k] == ws[..k];
  }

  lemma SkippingNext(v: View, ws: seq<Write>, skip: set<nat>, k: nat)
    requires k < |ws|
    ensures Skipping(v, ws[..k + 1], skip) ==
      var rest := Skipping(v, ws[..k], skip); if k in skip then rest else Put(rest, ws[k])
  {
    assert ws[..k + 1][..k] == ws[..k];
  }

  /** The next entry of the queue, taken by one side and taken or skipped by the other. */
  lemma AgreeNext(v: View, u: View, ws: seq<Write>, k: nat, skipped: bool)
    requires k < |ws| && Sound(v) && Sound(u) && Safe(ws[k]) && AgreeBut(v, u, ws[k..])
    requires skipped ==> IsSuperseded(ws, k)
    ensures var v' := if skipped then v else Put(v, ws[k]);
      Sound(v') && Sound(Put(u, ws[k])) && AgreeBut(v', Put(u, ws[k]), ws[k + 1..])
  {
    assert ws[k..] == [ws[k]] + ws[k + 1..];
    PutIsSound(u, ws[k]);
    if skipped {
      SupersededInRest(ws, k);
      SupersededSkipped(v, u, ws[k], ws[k + 1..]);
    } else {
      PutIsSound(v, ws[k]);
      PutOnBoth(v, u, ws[k], ws[k + 1..]);
    }
  }

  lemma {:induction false} SkippingAgrees(v: View, ws: seq<Write>, skip: set<nat>, k: nat)
    requires Sound(v) && AllSafe(ws) && k <= |ws| && forall i :: i in skip ==> IsSuperseded(ws, i)
    ensures Sound(Skipping(v, ws[..k], skip)) && Sound(InOrder(v, ws[..k]))
    ensures AgreeBut(Skipping(v, ws[..k], skip), InOrder(v, ws[..k]), ws[k..])
  {
    if k > 0 {
      var i := k - 1;
      AllSafeUpTo(ws, i);
      SkippingAgrees(v, ws, skip, i);
      InOrderNext(v, ws, i);
      SkippingNext(v, ws, skip, i);
      AgreeNext(Skipping(v, ws[..i], skip), InOrder(v, ws[..i]), ws, i, i in skip);
    }
  }

  lemma SupersededInRest(ws: seq<Write>, k: nat)
    requires IsSuperseded(ws, k)
    ensures WritesAt(ws[k + 1..], ws[k].path)
  {
    var j :| k < j < |ws| && ws[j].path == ws[k].path;
    assert ws[k + 1..][j - k - 1] == ws[j];
  }

  lemma SupersededSkipped(v: View, u: View, w: Write, ws: seq<Write>)
    requires AgreeBut(v, u, [w] + ws) && WritesAt(ws, w.path)
    ensures AgreeBut(v, Put(u, w), ws)
  {
    var i :| 0 <= i < |ws| && ws[i].path == w.path;
    forall q | !Covered(ws, q) ensures SameAt(v, u, q) {
      assert !AtOrAbove(ws[i].path, q);
      CoveredHead(w, ws, q);
    }
    PutOnOne(v, u, w, ws);
  }

  /** Skipping any superseded entries leaves the same volume as applying every entry in order. */
  lemma CoalescingKeepsMeaning(v: View, ws: seq<Write>, skip: set<nat>)
    requires Sound(v) && AllSafe(ws) && forall i :: i in skip ==> IsSuperseded(ws, i)
    ensures Skipping(v, ws, skip) == InOrder(v, ws)
  {
    SkippingAgrees(v, ws, skip, |ws|);
    assert ws[..|ws|] == ws && ws[|ws|..] == [];
    AgreeEverywhere(Skipping(v, ws, skip), InOrder(v, ws));
  }

  /** Every unsafe write has a queue, with one further write at the root, in which skipping changes the outcome. */
  lemma UnsafeWritesBreakCoalescing(v: View, w: Write, dir: Addr)
    requires Sound(v) && !Safe(w) && IsDir(dir) && ViewOf(dir) != v
    ensures var other := Write([], Some(dir), w.seqNo);
      var ws := if w.target.Some? then [w, other] else [other, w];
      Safe(other) && IsSuperseded(ws, 0) && Skipping(v, ws, {0}) != InOrder(v, ws)
  {
    var other := Write([], Some(dir), w.seqNo);
    var ws := if w.target.Some? then [w, other] else [other, w];
    assert ws[..0] == [] && ws[..2] == ws && ws[1].path == ws[0].path;
    InOrderNext(v, ws, 0);
    InOrderNext(v, ws, 1);
    SkippingNext(v, ws, {0}, 0);
    SkippingNext(v, ws, {0}, 1);
    RootPut(v, ws[0]);
    RootPut(v, ws[1]);
    RootPut(Put(v, ws[0]), ws[1]);
    if w.target.Some? {
      assert [] in ViewOf(w.target.value) && ViewOf(w.target.value)[[]] != DirEntry;
      assert [] in ViewOf(dir) && ViewOf(dir)[[]] == DirEntry;
    }
  }

  lemma RootPut(v: View, w: Write)
    requires w.path == []
    ensures Put(v, w) == if HasDir(v, []) && w.target.Some? then ViewOf(w.target.value) else v
  {
    if Accepts(v, w) {
      forall q: Path ensures q[0..] == q {}
      assert forall q: Path :: q in Put(v, w) <==> q in ViewOf(w.target.value);
    }
  }

  // ---------------------------------------------------------------- reading while writes are pending

  /** What is at n does not change by writes that are not at or above it; at most n gains or loses names. */
  lemma {:induction false} UntouchedEntry(v: View, ws: seq<Write>, k: nat, n: Path)
    requires k <= |ws| && forall i :: k <= i < |ws| ==> !AtOrAbove(ws[i].path, n)
    ensures SameAt(InOrder(v, ws[..k]), InOrder(v, ws), n)
    decreases |ws| - k
  {
    if k < |ws| {
      InOrderNext(v, ws, k);
      PutElsewhere(InOrder(v, ws[..k]), ws[k], n);
      UntouchedEntry(v, ws, k + 1, n);
    } else {
      assert ws[..k] == ws;
    }
  }

  /** The newest entry at or above n, once the server takes it, decides what is at n. */
  lemma NewestDecides(v: View, ws: seq<Write>, k: nat, n: Path)
    requires k < |ws| && AtOrAbove(ws[k].path, n) && Accepts(InOrder(v, ws[..k]), ws[k])
    requires forall i :: k < i < |ws| ==> !AtOrAbove(ws[i].path, n)
    ensures var t, r := TargetView(ws[k].target), n[|ws[k].path|..]; var u := InOrder(v, ws);
      && (n in u <==> t.Some? && r in t.value)
      && (n in u ==> u[n] == t.value[r])
  {
    InOrderNext(v, ws, k);
    UntouchedEntry(v, ws, k + 1, n);
  }
}
