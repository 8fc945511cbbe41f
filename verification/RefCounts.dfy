/**
  The arithmetic of reference counts over a Merkle DAG (DenseRefManager, internal/grits/namestore.go).

  A count map is exact for a bag of holds when every address counts its holds plus its links from counted
  directories.  The bag also stands for links that are pending: halfway through a take or a release, the
  children already handled are held although their directory is not counted yet, or not any more.
*/
module RefCounts {
  import opened Merkle

  /** An address that nothing holds or links to has no entry, so every count is positive. */
  type Positive = n: int | n > 0 witness 1

  type Counts = map<Addr, Positive>

  function CountOf(rc: Counts, a: Addr): nat {
    if a in rc then rc[a] else 0
  }

  /** The (directory, name) links to a from a set of live nodes. */
  ghost function LinksTo(live: set<Addr>, a: Addr): set<(Addr, Name)> {
    set p, n | p in live && n in Kids(p) && Kids(p)[n] == a :: (p, n)
  }

  ghost function NamesFor(p: Addr, names: set<Name>, a: Addr): set<Name> {
    set n | n in names && n in Kids(p) && Kids(p)[n] == a
  }

  ghost predicate Exact(rc: Counts, holds: multiset<Addr>) {
    forall a {:trigger IsExactAt(rc, holds, a)} :: IsExactAt(rc, holds, a)
  }

  ghost predicate IsExactAt(rc: Counts, holds: multiset<Addr>, a: Addr) {
    CountOf(rc, a) == holds[a] + |LinksTo(rc.Keys, a)|
  }

  /** The children of p under the given names, each as often as it is named. */
  ghost function Bag(p: Addr, names: set<Name>): multiset<Addr>
    requires names <= Kids(p).Keys
  {
    if names == {} then multiset{}
    else var n :| n in names; Bag(p, names - {n}) + multiset{Kids(p)[n]}
  }

  lemma NamesAdd(p: Addr, names: set<Name>, n: Name, a: Addr)
    requires n in Kids(p) && n !in names
    ensures |NamesFor(p, names + {n}, a)| == |NamesFor(p, names, a)| + if Kids(p)[n] == a then 1 else 0
  {
    if Kids(p)[n] == a {
      assert NamesFor(p, names + {n}, a) == NamesFor(p, names, a) + {n};
    } else {
      assert NamesFor(p, names + {n}, a) == NamesFor(p, names, a);
    }
  }

  lemma {:induction false} BagCounts(p: Addr, names: set<Name>, a: Addr)
    requires names <= Kids(p).Keys
    ensures Bag(p, names)[a] == |NamesFor(p, names, a)|
  {
    if names != {} {
      var n :| n in names && Bag(p, names) == Bag(p, names - {n}) + multiset{Kids(p)[n]};
      BagCounts(p, names - {n}, a);
      NamesAdd(p, names - {n}, n, a);
      assert names - {n} + {n} == names;
    } else {
      assert NamesFor(p, names, a) == {};
    }
  }

  lemma BagAdd(p: Addr, names: set<Name>, n: Name)
    requires names <= Kids(p).Keys && n in Kids(p) && n !in names
    ensures Bag(p, names + {n}) == Bag(p, names) + multiset{Kids(p)[n]}
  {
    var more, sum := Bag(p, names + {n}), Bag(p, names) + multiset{Kids(p)[n]};
    forall a ensures more[a] == sum[a] {
      BagCounts(p, names, a);
      BagCounts(p, names + {n}, a);
      NamesAdd(p, names, n, a);
    }
  }

  ghost function Pairs(p: Addr, names: set<Name>): set<(Addr, Name)> {
    set n | n in names :: (p, n)
  }

  lemma {:induction false} PairsCount(p: Addr, names: set<Name>)
    ensures |Pairs(p, names)| == |names|
  {
    if names != {} {
      var n :| n in names;
      PairsCount(p, names - {n});
      assert Pairs(p, names) == Pairs(p, names - {n}) + {(p, n)};
    }
  }

  lemma LinksSplit(live: set<Addr>, p: Addr, a: Addr)
    requires p !in live
    ensures LinksTo(live + {p}, a) == LinksTo(live, a) + Pairs(p, NamesFor(p, Kids(p).Keys, a))
    ensures LinksTo(live, a) !! Pairs(p, NamesFor(p, Kids(p).Keys, a))
  {
  }

  lemma LinksAdd(live: set<Addr>, p: Addr, a: Addr)
    requires p !in live
    ensures |LinksTo(live + {p}, a)| == |LinksTo(live, a)| + Bag(p, Kids(p).Keys)[a]
  {
    LinksSplit(live, p, a);
    PairsCount(p, NamesFor(p, Kids(p).Keys, a));
    BagCounts(p, Kids(p).Keys, a);
  }

  lemma TakeCounted(rc: Counts, holds: multiset<Addr>, a: Addr)
    requires Exact(rc, holds) && a in rc
    ensures Exact(rc[a := rc[a] + 1], holds + multiset{a})
  {
    var rc' := rc[a := rc[a] + 1];
    assert rc'.Keys == rc.Keys;
    forall x ensures IsExactAt(rc', holds + multiset{a}, x) {
      assert IsExactAt(rc, holds, x);
    }
  }

  lemma NotLinkedToItself(p: Addr)
    ensures Bag(p, Kids(p).Keys)[p] == 0
  {
    BagCounts(p, Kids(p).Keys, p);
    forall n | n in Kids(p) ensures Kids(p)[n] != p { KidIsSmaller(p, n); }
    assert NamesFor(p, Kids(p).Keys, p) == {};
  }

  /** Counting a new directory turns the holds on its children into links. */
  lemma TakeNew(rc: Counts, holds: multiset<Addr>, p: Addr)
    requires Exact(rc, holds + Bag(p, Kids(p).Keys)) && p !in rc
    ensures Exact(rc[p := 1], holds + multiset{p})
  {
    var rc', bag := rc[p := 1], Bag(p, Kids(p).Keys);
    assert rc'.Keys == rc.Keys + {p};
    forall a ensures IsExactAt(rc', holds + multiset{p}, a) {
      assert IsExactAt(rc, holds + bag, a);
      LinksAdd(rc.Keys, p, a);
      if a == p { NotLinkedToItself(p); }
      OneMore(rc, holds, bag, p, a);
    }
  }

  /** What counting p adds at a, given the links of p. */
  lemma OneMore(rc: Counts, holds: multiset<Addr>, bag: multiset<Addr>, p: Addr, a: Addr)
    requires p !in rc && (a == p ==> bag[a] == 0)
    ensures CountOf(rc[p := 1], a) - (holds + multiset{p})[a] == CountOf(rc, a) - holds[a]
    ensures (holds + bag)[a] == holds[a] + bag[a]
  {
  }

  lemma ReleaseCounted(rc: Counts, rest: multiset<Addr>, a: Addr)
    requires Exact(rc, rest + multiset{a})
    ensures a in rc && rc[a] > 0
    ensures rc[a] > 1 ==> Exact(rc[a := rc[a] - 1], rest)
  {
    assert IsExactAt(rc, rest + multiset{a}, a);
    if rc[a] > 1 {
      var rc' := rc[a := rc[a] - 1];
      assert rc'.Keys == rc.Keys;
      forall x ensures IsExactAt(rc', rest, x) {
        assert IsExactAt(rc, rest + multiset{a}, x);
      }
    }
  }

  /** Dropping a directory turns its links into holds that are still to be released. */
  lemma ReleaseLast(rc: Counts, rest: multiset<Addr>, p: Addr)
    requires Exact(rc, rest + multiset{p}) && CountOf(rc, p) == 1
    ensures Exact(rc - {p}, rest + Bag(p, Kids(p).Keys))
  {
    var rc' := rc - {p};
    forall a ensures IsExactAt(rc', rest + Bag(p, Kids(p).Keys), a) {
      assert IsExactAt(rc, rest + multiset{p}, a);
      ReleaseLastAt(rc, rest, p, a);
    }
  }

  lemma ReleaseLastAt(rc: Counts, rest: multiset<Addr>, p: Addr, a: Addr)
    requires CountOf(rc, p) == 1 && IsExactAt(rc, rest + multiset{p}, a)
    ensures IsExactAt(rc - {p}, rest + Bag(p, Kids(p).Keys), a)
  {
    assert rc.Keys == (rc - {p}).Keys + {p};
    LinksAdd((rc - {p}).Keys, p, a);
    if a == p { NotLinkedToItself(p); }
  }

  lemma KidIsCounted(rc: Counts, holds: multiset<Addr>, p: Addr, n: Name)
    requires Exact(rc, holds) && p in rc && n in Kids(p)
    ensures Kids(p)[n] in rc
  {
    assert (p, n) in LinksTo(rc.Keys, Kids(p)[n]);
    assert IsExactAt(rc, holds, Kids(p)[n]);
  }

  lemma {:induction false} CountedFromHold(rc: Counts, holds: multiset<Addr>, a: Addr, x: Addr)
    requires Exact(rc, holds) && a in rc && Reaches(a, x)
    ensures x in rc
  {
    if x != a {
      var n :| n in Kids(a) && Reaches(Kids(a)[n], x);
      KidIsCounted(rc, holds, a, n);
      CountedFromHold(rc, holds, Kids(a)[n], x);
    }
  }

  /** From a counted node, climbing through counted parents ends at a held root. */
  lemma {:induction false} HeldAbove(rc: Counts, holds: multiset<Addr>, a: Addr) returns (root: Addr)
    requires Exact(rc, holds) && a in rc
    ensures root in holds && Reaches(root, a)
    decreases set x | x in rc && a < x
  {
    if a in holds {
      root := a;
    } else {
      assert IsExactAt(rc, holds, a);
      var link :| link in LinksTo(rc.Keys, a);
      var p := link.0;
      KidIsSmaller(p, link.1);
      var above, further := set x | x in rc && a < x, set x | x in rc && p < x;
      assert further < above by {
        assert p in above && p !in further;
        forall x | x in further ensures x in above {}
      }
      root := HeldAbove(rc, holds, p);
      assert Reaches(p, a);
      ReachesTransitive(root, p, a);
    }
  }

  /** The counted addresses are exactly those reachable from a held root. */
  lemma CountedIffReachable(rc: Counts, holds: multiset<Addr>, a: Addr)
    requires Exact(rc, holds)
    ensures a in rc <==> exists root :: root in holds && Reaches(root, a)
  {
    if a in rc {
      var root := HeldAbove(rc, holds, a);
    }
    forall root | root in holds && Reaches(root, a) ensures a in rc {
      assert IsExactAt(rc, holds, root);
      CountedFromHold(rc, holds, root, a);
    }
  }

  /** Counts are determined by the holds: two exact maps for the same holds are the same map. */
  lemma ExactIsUnique(rc1: Counts, rc2: Counts, holds: multiset<Addr>)
    requires Exact(rc1, holds) && Exact(rc2, holds)
    ensures rc1 == rc2
  {
    forall a ensures a in rc1 <==> a in rc2 {
      CountedIffReachable(rc1, holds, a);
      CountedIffReachable(rc2, holds, a);
    }
    assert rc1.Keys == rc2.Keys;
    forall a | a in rc1 ensures rc1[a] == rc2[a] {
      assert IsExactAt(rc1, holds, a) && IsExactAt(rc2, holds, a);
    }
  }

  /** Taking a directory's children does not bring the directory itself into the count. */
  lemma StillNew(rc0: Counts, rc: Counts, holds: multiset<Addr>, a: Addr)
    requires Exact(rc0, holds) && a !in rc0
    requires Exact(rc, holds + Bag(a, Kids(a).Keys))
    ensures a !in rc
  {
    if a in rc {
      var root := HeldAbove(rc, holds + Bag(a, Kids(a).Keys), a);
      if root in holds {
        CountedIffReachable(rc0, holds, a);
      } else {
        BagCounts(a, Kids(a).Keys, root);
        assert Bag(a, Kids(a).Keys)[root] > 0;
        var n :| n in NamesFor(a, Kids(a).Keys, root);
        KidIsSmaller(a, n);
        ReachesIsAcyclic(root, a);
      }
    }
  }

  /** One more child has been dealt with. */
  lemma BagStep(p: Addr, todo: set<Name>, n: Name)
    requires todo <= Kids(p).Keys && n in todo
    ensures Bag(p, Kids(p).Keys - (todo - {n})) == Bag(p, Kids(p).Keys - todo) + multiset{Kids(p)[n]}
  {
    assert Kids(p).Keys - (todo - {n}) == Kids(p).Keys - todo + {n};
    BagAdd(p, Kids(p).Keys - todo, n);
  }

  lemma BagRemove(p: Addr, todo: set<Name>, n: Name, rest: multiset<Addr>)
    requires todo <= Kids(p).Keys && n in todo
    ensures rest + Bag(p, todo) == rest + Bag(p, todo - {n}) + multiset{Kids(p)[n]}
  {
    BagAdd(p, todo - {n}, n);
    assert todo - {n} + {n} == todo;
  }

  lemma BagEnds(p: Addr)
    ensures Bag(p, Kids(p).Keys - {}) == Bag(p, Kids(p).Keys)
    ensures Bag(p, Kids(p).Keys - Kids(p).Keys) == multiset{}
  {
    assert Kids(p).Keys - {} == Kids(p).Keys;
    assert Kids(p).Keys - Kids(p).Keys == {};
  }

  // Releasing a directory for the last time leaves it in the table until its children have been released.
  // The directories in that state are doomed; counts are exact for the rest of the table.

  ghost predicate ExactBut(rc: Counts, doomed: set<Addr>, holds: multiset<Addr>) {
    doomed <= rc.Keys && Exact(rc - doomed, holds)
  }

  /** None of the doomed directories lies at or below a. */
  ghost predicate ClearOf(doomed: set<Addr>, a: Addr) {
    forall d :: d in doomed ==> !Reaches(a, d)
  }

  lemma KidClearOf(doomed: set<Addr>, a: Addr, n: Name)
    requires ClearOf(doomed, a) && n in Kids(a)
    ensures ClearOf(doomed + {a}, Kids(a)[n])
  {
    forall d | d in doomed + {a} ensures !Reaches(Kids(a)[n], d) {
      if Reaches(Kids(a)[n], d) {
        assert Reaches(a, d);
        KidIsSmaller(a, n);
        ReachesIsAcyclic(Kids(a)[n], d);
      }
    }
  }

  lemma HeldIsCounted(rc: Counts, doomed: set<Addr>, rest: multiset<Addr>, a: Addr)
    requires ExactBut(rc, doomed, rest + multiset{a})
    ensures a in rc && a !in doomed
  {
    ReleaseCounted(rc - doomed, rest, a);
  }

  lemma SharedBut(rc: Counts, doomed: set<Addr>, rest: multiset<Addr>, a: Addr, c: Positive)
    requires ExactBut(rc, doomed, rest + multiset{a}) && a in rc && rc[a] == c + 1
    ensures ExactBut(rc[a := c], doomed, rest)
  {
    HeldIsCounted(rc, doomed, rest, a);
    ReleaseCounted(rc - doomed, rest, a);
    assert (rc - doomed)[a := c] == rc[a := c] - doomed;
  }

  lemma DoomedNext(rc: Counts, doomed: set<Addr>, rest: multiset<Addr>, a: Addr)
    requires ExactBut(rc, doomed, rest + multiset{a}) && CountOf(rc, a) == 1
    ensures ExactBut(rc, doomed + {a}, rest + Bag(a, Kids(a).Keys))
  {
    HeldIsCounted(rc, doomed, rest, a);
    ReleaseLast(rc - doomed, rest, a);
    assert rc - doomed - {a} == rc - (doomed + {a});
  }

  lemma DoomedGone(rc: Counts, doomed: set<Addr>, rest: multiset<Addr>, a: Addr)
    requires ExactBut(rc, doomed + {a}, rest) && a !in doomed
    ensures ExactBut(rc - {a}, doomed, rest)
  {
    assert rc - {a} - doomed == rc - (doomed + {a});
  }

  lemma NoneDoomed(rc: Counts, holds: multiset<Addr>)
    ensures ExactBut(rc, {}, holds) <==> Exact(rc, holds)
  {
    assert rc - {} == rc;
  }
}
