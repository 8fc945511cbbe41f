/**
  Which blob references the cached nodes own: each node holds one on its metadata and one on its content
  (internal/grits/namestore.go: actuallyLoadFileNode, CreateTreeNode, cleanup).
*/
module Ownership {
  import opened Merkle
  import opened BlobStore

  function ContentOf(m: Addr): Addr {
    if m.Metadata? then m.content else m
  }

  /** The two references that go with one node. */
  function Share(m: Addr): multiset<Addr> {
    multiset{m} + multiset{ContentOf(m)}
  }

  ghost function Owned(nodes: set<Addr>): multiset<Addr> {
    if nodes == {} then multiset{}
    else var m :| m in nodes; Owned(nodes - {m}) + Share(m)
  }

  lemma SharesSwap(owned: multiset<Addr>, m: Addr, n: Addr)
    ensures owned + Share(m) + Share(n) == owned + Share(n) + Share(m)
  {
  }

  lemma {:induction false} OwnedSplit(nodes: set<Addr>, m: Addr)
    requires m in nodes
    ensures Owned(nodes) == Owned(nodes - {m}) + Share(m)
  {
    var first :| first in nodes && Owned(nodes) == Owned(nodes - {first}) + Share(first);
    if first != m {
      OwnedSplit(nodes - {first}, m);
      OwnedSplit(nodes - {m}, first);
      var rest := nodes - {first} - {m};
      assert rest == nodes - {m} - {first};
      SharesSwap(Owned(rest), m, first);
    }
  }

  /** Every reference counted on a blob is owned by a cached node or held elsewhere. */
  ghost predicate Accounted(files: Files, nodes: set<Addr>, outside: multiset<Addr>) {
    forall x {:trigger IsAccounted(files, nodes, outside, x)} :: IsAccounted(files, nodes, outside, x)
  }

  ghost predicate IsAccounted(files: Files, nodes: set<Addr>, outside: multiset<Addr>, x: Addr) {
    RefOf(files, x) == outside[x] + Owned(nodes)[x]
  }

  lemma NodeOwnsItsBlobs(files: Files, nodes: set<Addr>, outside: multiset<Addr>, m: Addr)
    requires Accounted(files, nodes, outside) && m in nodes
    ensures RefOf(files, m) > 0 && RefOf(files, ContentOf(m)) > 0
  {
    OwnedSplit(nodes, m);
    assert IsAccounted(files, nodes, outside, m) && IsAccounted(files, nodes, outside, ContentOf(m));
  }

  /** A cached node's blob on which somebody else holds a reference too counts at least two. */
  lemma HeldTwice(files: Files, nodes: set<Addr>, outside: multiset<Addr>, m: Addr, x: Addr)
    requires Accounted(files, nodes, outside) && m in nodes && x in Share(m) && x in outside
    ensures RefOf(files, x) > 1
  {
    OwnedSplit(nodes, m);
    assert IsAccounted(files, nodes, outside, x);
  }

  lemma ReadKeeps(files: Files, nodes: set<Addr>, outside: multiset<Addr>, a: Addr)
    requires Accounted(files, nodes, outside)
    ensures a in files ==> Accounted(Retain(files, a), nodes, outside + multiset{a})
    ensures a !in files ==> Accounted(Create(files, a), nodes, outside + multiset{a})
  {
    var files' := if a in files then Retain(files, a) else Create(files, a);
    forall x ensures IsAccounted(files', nodes, outside + multiset{a}, x) {
      assert IsAccounted(files, nodes, outside, x);
    }
  }

  lemma DropKeeps(files: Files, nodes: set<Addr>, rest: multiset<Addr>, a: Addr, now: int)
    requires Accounted(files, nodes, rest + multiset{a})
    ensures RefOf(files, a) > 0
    ensures Accounted(Drop(files, a, now), nodes, rest)
  {
    assert IsAccounted(files, nodes, rest + multiset{a}, a);
    forall x ensures IsAccounted(Drop(files, a, now), nodes, rest, x) {
      assert IsAccounted(files, nodes, rest + multiset{a}, x);
    }
  }

  /** References held elsewhere become a node's own when it enters the cache. */
  lemma NodeAdded(files: Files, nodes: set<Addr>, outside: multiset<Addr>, m: Addr)
    requires Accounted(files, nodes, outside + Share(m)) && m !in nodes
    ensures Accounted(files, nodes + {m}, outside)
  {
    OwnedSplit(nodes + {m}, m);
    assert nodes + {m} - {m} == nodes;
    forall x ensures IsAccounted(files, nodes + {m}, outside, x) {
      assert IsAccounted(files, nodes, outside + Share(m), x);
    }
  }

  lemma NodeRemoved(files: Files, nodes: set<Addr>, outside: multiset<Addr>, m: Addr)
    requires Accounted(files, nodes, outside) && m in nodes
    ensures Accounted(files, nodes - {m}, outside + Share(m))
  {
    OwnedSplit(nodes, m);
    forall x ensures IsAccounted(files, nodes - {m}, outside + Share(m), x) {
      assert IsAccounted(files, nodes, outside, x);
    }
  }

  lemma EvictKeeps(files: Files, nodes: set<Addr>, outside: multiset<Addr>, now: int)
    requires Accounted(files, nodes, outside)
    ensures Accounted(Surviving(files, {}, now), nodes, outside)
  {
    forall x ensures IsAccounted(Surviving(files, {}, now), nodes, outside, x) {
      assert IsAccounted(files, nodes, outside, x);
    }
  }

  ghost function WithContent(nodes: set<Addr>, x: Addr): set<Addr> {
    set m | m in nodes && ContentOf(m) == x
  }

  lemma ShareCount(m: Addr, x: Addr)
    ensures Share(m)[x] == (if m == x then 1 else 0) + (if ContentOf(m) == x then 1 else 0)
  {
  }

  lemma WithContentSplit(nodes: set<Addr>, m: Addr, x: Addr)
    requires m in nodes
    ensures |WithContent(nodes, x)| == |WithContent(nodes - {m}, x)| + if ContentOf(m) == x then 1 else 0
  {
    if ContentOf(m) == x {
      assert WithContent(nodes, x) == WithContent(nodes - {m}, x) + {m};
    } else {
      assert WithContent(nodes, x) == WithContent(nodes - {m}, x);
    }
  }

  /** The references a set of nodes owns on one blob, counted out. */
  lemma {:induction false} OwnedCounts(nodes: set<Addr>, x: Addr)
    ensures Owned(nodes)[x] == (if x in nodes then 1 else 0) + |WithContent(nodes, x)|
  {
    if nodes == {} {
      assert WithContent(nodes, x) == {};
    } else {
      var m :| m in nodes && Owned(nodes) == Owned(nodes - {m}) + Share(m);
      OwnedCounts(nodes - {m}, x);
      ShareCount(m, x);
      WithContentSplit(nodes, m, x);
    }
  }
}
