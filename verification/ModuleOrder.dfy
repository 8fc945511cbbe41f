/**
  The order in which the server starts its modules, and how it completes their list
  (internal/gritsd/modules.go).
*/
module ModuleOrder {
  import opened Wrappers

  datatype DependencyKind = Optional | Required | AutoCreate

  datatype Dependency = Dependency(moduleType: string, kind: DependencyKind)

  /** Modules are compared by identity; several may have one name. */
  datatype Module = Module(id: nat, name: string, dependencies: seq<Dependency>)

  predicate DependsOn(m: Module, d: Module) {
    exists i :: 0 <= i < |m.dependencies| && m.dependencies[i].moduleType == d.name
  }

  // ---------------------------------------------------------------- reachability

  /** Each module of the path depends on the next. */
  ghost predicate IsPath(modules: seq<Module>, path: seq<Module>) {
    && path != [] && (forall i :: 0 <= i < |path| ==> path[i] in modules)
    && forall i :: 0 <= i < |path| - 1 ==> DependsOn(path[i], path[i + 1])
  }

  ghost predicate Reaches(modules: seq<Module>, a: Module, b: Module) {
    exists path :: IsPath(modules, path) && path[0] == a && path[|path| - 1] == b
  }

  lemma ReachesItself(modules: seq<Module>, a: Module)
    requires a in modules
    ensures Reaches(modules, a, a)
  {
    assert IsPath(modules, [a]);
  }

  lemma ReachesNext(modules: seq<Module>, a: Module, b: Module, c: Module)
    requires Reaches(modules, a, b) && DependsOn(b, c) && c in modules
    ensures Reaches(modules, a, c)
  {
    var path :| IsPath(modules, path) && path[0] == a && path[|path| - 1] == b;
    assert IsPath(modules, path + [c]);
  }

  // ---------------------------------------------------------------- what the sort promises

  function ToSet(s: seq<Module>): set<Module> {
    set m | m in s
  }

  ghost predicate Distinct(s: seq<Module>) {
    forall i, j :: 0 <= i < j < |s| ==> s[i] != s[j]
  }

  /** Whatever the module at position i depends on comes before it, unless it is on a cycle with it. */
  ghost predicate DependenciesFirst(modules: seq<Module>, sorted: seq<Module>, i: nat)
    requires i < |sorted|
  {
    forall d :: d in modules && DependsOn(sorted[i], d) && !Reaches(modules, d, sorted[i]) ==> d in sorted[..i]
  }

  ghost predicate IsOrdered(modules: seq<Module>, sorted: seq<Module>) {
    forall i :: 0 <= i < |sorted| ==> DependenciesFirst(modules, sorted, i)
  }

  lemma AppendOrdered(modules: seq<Module>, sorted: seq<Module>, m: Module)
    requires IsOrdered(modules, sorted)
    requires forall d :: d in modules && DependsOn(m, d) && !Reaches(modules, d, m) ==> d in sorted
    ensures IsOrdered(modules, sorted + [m])
  {
    var next := sorted + [m];
    forall i | 0 <= i < |next| ensures DependenciesFirst(modules, next, i) {
      if i < |sorted| {
        assert DependenciesFirst(modules, sorted, i);
        assert next[..i] == sorted[..i];
      } else {
        assert next[..i] == sorted;
      }
    }
  }

  ghost predicate DependenciesIn(modules: seq<Module>, m: Module, visited: set<Module>) {
    forall d :: d in modules && DependsOn(m, d) ==> d in visited
  }

  /** Every module once, after all that it depends on, save perhaps itself. */
  ghost predicate IsInOrder(modules: seq<Module>) {
    && Distinct(modules)
    && forall i, d :: 0 <= i < |modules| && d in modules && DependsOn(modules[i], d) ==> d in modules[..i + 1]
  }

  lemma InOrderNext(modules: seq<Module>, i: nat)
    requires IsInOrder(modules) && i < |modules|
    ensures modules[i] !in ToSet(modules[..i]) && modules[..i + 1] == modules[..i] + [modules[i]]
    ensures DependenciesIn(modules, modules[i], ToSet(modules[..i]) + {modules[i]})
  {
    assert modules[..i + 1] == modules[..i] + [modules[i]];
  }

  // ---------------------------------------------------------------- the sort

  function OfType(modules: seq<Module>, name: string): (r: seq<Module>)
    ensures forall m :: m in r <==> m in modules && m.name == name
  {
    if modules == [] then []
    else
      var rest := OfType(modules[..|modules| - 1], name);
      var m := modules[|modules| - 1];
      if m.name == name then rest + [m] else rest
  }

  /** `sortModulesByDependency`: the map by type, and the state of the depth-first search. */
  class DependencySort {
    const modules: seq<Module>
    var modulesByType: map<string, seq<Module>>
    var visited: set<Module>
    var sorted: seq<Module>

    constructor (modules: seq<Module>)
      ensures this.modules == modules && visited == {} && sorted == []
      ensures IsGrouped()
    {
      this.modules := modules;
      visited, sorted, modulesByType := {}, [], map[];
      new;
      var i := 0;
      while i < |modules|
        invariant 0 <= i <= |modules| && visited == {} && sorted == []
        invariant forall name :: (if name in modulesByType then modulesByType[name] else []) == OfType(modules[..i], name)
        modifies `modulesByType
      {
        var m := modules[i];
        var group := if m.name in modulesByType then modulesByType[m.name] else [];
        modulesByType := modulesByType[m.name := group + [m]];
        assert modules[..i + 1][..i] == modules[..i];
        i := i + 1;
      }
      assert modules[..i] == modules;
    }

    ghost predicate IsGrouped()
      reads this
    {
      forall name :: (if name in modulesByType then modulesByType[name] else []) == OfType(modules, name)
    }

    /** Modules are visited when they are sorted already or on the stack of calls. */
    ghost predicate Valid(stack: set<Module>)
      reads this
    {
      && IsGrouped()
      && visited == stack + ToSet(sorted) && stack !! ToSet(sorted)
      && visited <= ToSet(modules)
      && Distinct(sorted) && IsOrdered(modules, sorted)
    }

    /** `visit`, from a call for each module of the stack, all of which lead to this one. */
    method Visit(m: Module, ghost stack: set<Module>)
      requires Valid(stack) && m in modules
      requires forall s :: s in stack ==> Reaches(modules, s, m)
      modifies this`visited, this`sorted
      ensures Valid(stack) && m in visited && old(sorted) <= sorted && old(visited) <= visited
      ensures m in old(visited) ==> unchanged(this)
      ensures m !in old(visited) && DependenciesIn(modules, m, old(visited) + {m}) ==>
        sorted == old(sorted) + [m] && visited == old(visited) + {m}
      decreases ToSet(modules) - visited, 0
    {
      if m in visited {
        return;
      }
      ghost var before := ToSet(modules) - visited;
      visited := visited + {m};
      assert ToSet(modules) - visited == before - {m};
      ReachesItself(modules, m);
      VisitDependencies(m, stack + {m});
      VisitedIsSorted(m, stack + {m});
      AppendOrdered(modules, sorted, m);
      sorted := sorted + [m];
      assert ToSet(sorted) == ToSet(old(sorted)) + (ToSet(sorted) - ToSet(old(sorted)));
    }

    /** The loops of `visit` over the dependencies and over the modules of each. */
    method VisitDependencies(m: Module, ghost stack: set<Module>)
      requires Valid(stack) && m in modules && m in stack
      requires forall s :: s in stack ==> Reaches(modules, s, m)
      modifies this`visited, this`sorted
      ensures Valid(stack) && old(sorted) <= sorted && old(visited) <= visited
      ensures forall k :: 0 <= k < |m.dependencies| ==> TypeVisited(m.dependencies[k].moduleType)
      ensures DependenciesIn(modules, m, old(visited)) ==> unchanged(this)
      decreases ToSet(modules) - visited, 3
    {
      var i := 0;
      while i < |m.dependencies|
        invariant 0 <= i <= |m.dependencies|
        invariant Valid(stack) && old(sorted) <= sorted && old(visited) <= visited
        invariant forall k :: 0 <= k < i ==> TypeVisited(m.dependencies[k].moduleType)
        invariant DependenciesIn(modules, m, old(visited)) ==> unchanged(this)
      {
        VisitType(m, i, stack);
        i := i + 1;
      }
    }

    ghost predicate TypeVisited(name: string)
      reads this`visited
    {
      forall d :: d in modules && d.name == name ==> d in visited
    }

    method VisitType(m: Module, i: nat, ghost stack: set<Module>)
      requires Valid(stack) && m in modules && i < |m.dependencies|
      requires forall s :: s in stack ==> Reaches(modules, s, m)
      modifies this`visited, this`sorted
      ensures Valid(stack) && old(sorted) <= sorted && old(visited) <= visited
      ensures forall k :: 0 <= k < i && old(TypeVisited(m.dependencies[k].moduleType)) ==>
        TypeVisited(m.dependencies[k].moduleType)
      ensures TypeVisited(m.dependencies[i].moduleType)
      ensures DependenciesIn(modules, m, old(visited)) ==> unchanged(this)
      decreases ToSet(modules) - visited, 2
    {
      var name := m.dependencies[i].moduleType;
      assert (if name in modulesByType then modulesByType[name] else []) == OfType(modules, name);
      if name in modulesByType {
        VisitGroup(m, modulesByType[name], stack);
      }
    }

    /** What is visited but not sorted is on the stack, so it leads to m. */
    lemma VisitedIsSorted(m: Module, stack: set<Module>)
      requires Valid(stack)
      requires forall s :: s in stack ==> Reaches(modules, s, m)
      requires forall k :: 0 <= k < |m.dependencies| ==> TypeVisited(m.dependencies[k].moduleType)
      ensures forall d :: d in modules && DependsOn(m, d) && !Reaches(modules, d, m) ==> d in sorted
    {
    }

    method VisitGroup(m: Module, group: seq<Module>, ghost stack: set<Module>)
      requires Valid(stack) && m in modules
      requires forall d :: d in group ==> d in modules && DependsOn(m, d)
      requires forall s :: s in stack ==> Reaches(modules, s, m)
      modifies this`visited, this`sorted
      ensures Valid(stack) && old(sorted) <= sorted && old(visited) <= visited
      ensures forall d :: d in group ==> d in visited
      ensures (forall d :: d in group ==> d in old(visited)) ==> unchanged(this)
      decreases ToSet(modules) - visited, 1
    {
      var j := 0;
      while j < |group|
        invariant 0 <= j <= |group|
        invariant Valid(stack) && old(sorted) <= sorted && old(visited) <= visited
        invariant forall d :: d in group[..j] ==> d in visited
        invariant (forall d :: d in group ==> d in old(visited)) ==> unchanged(this)
      {
        forall s | s in stack ensures Reaches(modules, s, group[j]) {
          ReachesNext(modules, s, m, group[j]);
        }
        Visit(group[j], stack);
        j := j + 1;
      }
    }

    /** Every module, once, after what it depends on. */
    method Sort()
      requires IsGrouped() && visited == {} && sorted == []
      modifies this`visited, this`sorted
      ensures Distinct(sorted) && ToSet(sorted) == ToSet(modules)
      ensures IsOrdered(modules, sorted)
      ensures IsInOrder(modules) ==> sorted == modules
    {
      var i := 0;
      assert modules[..0] == [];
      while i < |modules|
        invariant 0 <= i <= |modules| && Valid({}) && ToSet(modules[..i]) <= visited
        invariant IsInOrder(modules) ==> sorted == modules[..i]
      {
        if IsInOrder(modules) { InOrderNext(modules, i); }
        if modules[i] !in visited {
          Visit(modules[i], {});
        }
        i := i + 1;
      }
      assert modules[..i] == modules;
    }
  }

  lemma {:induction false} DistinctIsPermutation(s: seq<Module>, t: seq<Module>)
    requires Distinct(s) && Distinct(t) && ToSet(s) == ToSet(t)
    ensures multiset(s) == multiset(t)
  {
    forall m ensures multiset(s)[m] == multiset(t)[m] {
      CountOfDistinct(s, m);
      CountOfDistinct(t, m);
      assert m in s <==> m in ToSet(s);
      assert m in t <==> m in ToSet(t);
    }
  }

  lemma {:induction false} CountOfDistinct(s: seq<Module>, m: Module)
    requires Distinct(s)
    ensures multiset(s)[m] == if m in s then 1 else 0
  {
    if s != [] {
      var rest, last := s[..|s| - 1], s[|s| - 1];
      assert s == rest + [last];
      CountOfDistinct(rest, m);
      assert last !in rest;
    }
  }

  /**
    The modules sorted: the same modules, and for every dependency of one on another that does not lead back to
    it, whatever cycles there are elsewhere, the other comes first.
  */
  method SortModulesByDependency(modules: seq<Module>) returns (sorted: seq<Module>)
    ensures Distinct(sorted) && (forall m :: m in sorted <==> m in modules)
    ensures Distinct(modules) ==> multiset(sorted) == multiset(modules)
    ensures IsInOrder(modules) ==> sorted == modules
    ensures forall i, j :: 0 <= i < |sorted| && 0 <= j < |sorted| ==>
      DependsOn(sorted[i], sorted[j]) && !Reaches(modules, sorted[j], sorted[i]) ==> j < i
  {
    var sort := new DependencySort(modules);
    sort.Sort();
    sorted := sort.sorted;
    assert forall m :: m in sorted <==> m in ToSet(sorted);
    assert forall m :: m in modules <==> m in ToSet(modules);
    if Distinct(modules) { DistinctIsPermutation(sorted, modules); }
    forall i, j | 0 <= i < |sorted| && 0 <= j < |sorted|
      && DependsOn(sorted[i], sorted[j]) && !Reaches(modules, sorted[j], sorted[i])
      ensures j < i
    {
      assert DependenciesFirst(modules, sorted, i);
    }
  }

  // ---------------------------------------------------------------- completing the list

  predicate HasType(modules: seq<Module>, name: string) {
    exists i :: 0 <= i < |modules| && modules[i].name == name
  }

  /** The dependencies of one module that must be there are. */
  predicate Satisfied(modules: seq<Module>, m: Module) {
    forall k :: 0 <= k < |m.dependencies| && !m.dependencies[k].kind.Optional? ==>
      HasType(modules, m.dependencies[k].moduleType)
  }

  /** Makes a module of a type for one that depends on it; None when that fails. */
  type Factory = (string, Module) -> Option<Module>

  /** `createModuleFromConfig` knows finitely many types and gives a module the name of its type. */
  ghost predicate IsFactory(create: Factory, known: set<string>) {
    forall name, m :: create(name, m).Some? ==> name in known && create(name, m).value.name == name
  }

  /** Module i of the list was there from the start or created for an earlier one that depends on it. */
  ghost predicate IsJustified(modules: seq<Module>, start: nat, create: Factory, i: nat)
    requires start <= i < |modules|
  {
    exists j, k :: 0 <= j < i && 0 <= k < |modules[j].dependencies|
      && modules[j].dependencies[k] == Dependency(modules[i].name, AutoCreate)
      && create(modules[i].name, modules[j]) == Some(modules[i])
      && !HasType(modules[..i], modules[i].name)
  }

  datatype Progress = Progress(modules: seq<Module>, exist: set<string>)

  /** The types that exist are those of the list, which has only grown by what its modules need. */
  ghost predicate IsProgress(p: Progress, original: seq<Module>, create: Factory) {
    && original <= p.modules
    && (forall name :: name in p.exist <==> HasType(p.modules, name))
    && forall i :: |original| <= i < |p.modules| ==> IsJustified(p.modules, |original|, create, i)
  }

  lemma HasTypeGrows(modules: seq<Module>, m: Module, name: string)
    ensures HasType(modules + [m], name) <==> HasType(modules, name) || m.name == name
  {
    var next := modules + [m];
    if HasType(modules, name) {
      var i :| 0 <= i < |modules| && modules[i].name == name;
      assert next[i].name == name;
    }
    assert next[|modules|] == m;
  }

  lemma AddKeepsProgress(p: Progress, original: seq<Module>, create: Factory, j: nat, k: nat)
    requires IsProgress(p, original, create) && j < |p.modules| && k < |p.modules[j].dependencies|
    requires var d := p.modules[j].dependencies[k];
      d.kind.AutoCreate? && d.moduleType !in p.exist && create(d.moduleType, p.modules[j]).Some?
      && create(d.moduleType, p.modules[j]).value.name == d.moduleType
    ensures var m := create(p.modules[j].dependencies[k].moduleType, p.modules[j]).value;
      IsProgress(Progress(p.modules + [m], p.exist + {m.name}), original, create)
  {
    var m := create(p.modules[j].dependencies[k].moduleType, p.modules[j]).value;
    var next := p.modules + [m];
    forall name ensures name in p.exist + {m.name} <==> HasType(next, name) {
      HasTypeGrows(p.modules, m, name);
    }
    forall i | |original| <= i < |next| ensures IsJustified(next, |original|, create, i) {
      if i < |p.modules| {
        assert IsJustified(p.modules, |original|, create, i);
        var a, b :| 0 <= a < i && 0 <= b < |p.modules[a].dependencies|
          && p.modules[a].dependencies[b] == Dependency(p.modules[i].name, AutoCreate)
          && create(p.modules[i].name, p.modules[a]) == Some(p.modules[i])
          && !HasType(p.modules[..i], p.modules[i].name);
        assert next[..i] == p.modules[..i] && next[a].dependencies[b] == Dependency(next[i].name, AutoCreate);
      } else {
        assert next[..i] == p.modules && next[j].dependencies[k] == Dependency(next[i].name, AutoCreate);
      }
    }
  }

  lemma SatisfiedGrows(modules: seq<Module>, more: seq<Module>, m: Module)
    requires modules <= more && Satisfied(modules, m)
    ensures Satisfied(more, m)
  {
    forall k | 0 <= k < |m.dependencies| && !m.dependencies[k].kind.Optional?
      ensures HasType(more, m.dependencies[k].moduleType)
    {
      var i :| 0 <= i < |modules| && modules[i].name == m.dependencies[k].moduleType;
      assert more[i].name == modules[i].name;
    }
  }

  /** A dependency that could not be met: it is required, or creating a module for it failed. */
  ghost predicate IsUnmet(modules: seq<Module>, create: Factory, i: nat, k: nat) {
    && i < |modules| && k < |modules[i].dependencies|
    && var d := modules[i].dependencies[k];
      && !HasType(modules, d.moduleType)
      && (d.kind.Required? || (d.kind.AutoCreate? && create(d.moduleType, modules[i]).None?))
  }

  /** The dependencies of m before the k-th that must be there are. */
  ghost predicate SatisfiedUpTo(modules: seq<Module>, m: Module, k: nat) {
    forall h :: 0 <= h < k && h < |m.dependencies| && !m.dependencies[h].kind.Optional? ==>
      HasType(modules, m.dependencies[h].moduleType)
  }

  method CompleteFor(p: Progress, i: nat, create: Factory, ghost original: seq<Module>, ghost known: set<string>)
    returns (r: Progress, unmet: Option<nat>)
    requires IsFactory(create, known) && IsProgress(p, original, create) && i < |p.modules|
    ensures IsProgress(r, original, create) && p.modules <= r.modules
    ensures r == p || known - r.exist < known - p.exist
    ensures unmet.None? ==> Satisfied(r.modules, p.modules[i])
    ensures unmet.Some? ==> IsUnmet(r.modules, create, i, unmet.value) && SatisfiedUpTo(r.modules, p.modules[i], unmet.value)
  {
    var m := p.modules[i];
    r, unmet := p, None;
    var k := 0;
    while k < |m.dependencies|
      invariant 0 <= k <= |m.dependencies|
      invariant IsProgress(r, original, create) && p.modules <= r.modules
      invariant r == p || known - r.exist < known - p.exist
      invariant forall h :: 0 <= h < k && !m.dependencies[h].kind.Optional? ==> m.dependencies[h].moduleType in r.exist
    {
      var d := m.dependencies[k];
      if d.moduleType !in r.exist {
        match d.kind
        case Required => return r, Some(k);
        case AutoCreate =>
          var created := create(d.moduleType, m);
          if created.None? {
            return r, Some(k);
          }
          AddKeepsProgress(r, original, create, i, k);
          assert d.moduleType in known - r.exist;
          r := Progress(r.modules + [created.value], r.exist + {d.moduleType});
        case Optional =>
      }
      k := k + 1;
    }
  }

  /**
    `resolveModuleDependencies`: it comes to an end although the list may grow as it goes, and succeeds exactly
    when every dependency that must be there is.
  */
  method ResolveModuleDependencies(original: seq<Module>, create: Factory, ghost known: set<string>)
    returns (modules: seq<Module>, unmet: Option<(nat, nat)>)
    requires IsFactory(create, known)
    ensures original <= modules
    ensures forall i :: |original| <= i < |modules| ==> IsJustified(modules, |original|, create, i)
    ensures unmet.None? <==> forall i :: 0 <= i < |modules| ==> Satisfied(modules, modules[i])
    ensures unmet.Some? ==> var (i, k) := unmet.value;
      && IsUnmet(modules, create, i, k) && SatisfiedUpTo(modules, modules[i], k)
      && forall j :: 0 <= j < i ==> Satisfied(modules, modules[j])
  {
    var p := Progress(original, set m | m in original :: m.name);
    forall name ensures name in p.exist <==> HasType(original, name) {}
    var i := 0;
    while i < |p.modules|
      invariant 0 <= i <= |p.modules| && IsProgress(p, original, create)
      invariant forall j :: 0 <= j < i ==> Satisfied(p.modules, p.modules[j])
      decreases known - p.exist, |p.modules| - i
    {
      var r, failed := CompleteFor(p, i, create, original, known);
      if failed.Some? {
        assert !Satisfied(r.modules, r.modules[i]);
        forall j | 0 <= j < i ensures Satisfied(r.modules, r.modules[j]) {
          SatisfiedGrows(p.modules, r.modules, p.modules[j]);
        }
        return r.modules, Some((i, failed.value));
      }
      forall j | 0 <= j < i ensures Satisfied(r.modules, r.modules[j]) {
        SatisfiedGrows(p.modules, r.modules, p.modules[j]);
      }
      p, i := r, i + 1;
    }
    return p.modules, None;
  }
}
