/**
  The client's comparison of two trees (client/lib/diff/main.js): it passes over equal addresses and lists what
  only one side has.
*/
module Diff {
  import opened Wrappers
  import opened Merkle
  import opened PathTree

  /** One line of output: a path with the addresses on the two sides. */
  datatype Line = Line(path: Path, left: Option<Addr>, right: Option<Addr>)

  // ---------------------------------------------------------------- what should be reported

  predicate AreDirs(recursive: bool, left: Addr, right: Addr) {
    recursive && IsDir(left) && IsDir(right)
  }

  /** Both sides have something at p that is not looked into any further. */
  predicate EndsAt(recursive: bool, left: Addr, right: Addr, p: Path) {
    var l, r := Lookup(left, p), Lookup(right, p);
    l.Some? && r.Some? && !AreDirs(recursive, l.value, r.value)
  }

  /** Without any pruning: the sides differ at p, not as two directories, and no comparison has ended above. */
  predicate IsReported(recursive: bool, left: Addr, right: Addr, p: Path) {
    var l, r := Lookup(left, p), Lookup(right, p);
    && l != r && !(l.Some? && r.Some? && AreDirs(recursive, l.value, r.value))
    && forall k :: 0 <= k < |p| ==> !EndsAt(recursive, left, right, p[..k])
  }

  /** Strictly inside a subtree that only the right side has, its addresses are in the left column. */
  function Columns(left: Addr, right: Addr, p: Path): (Option<Addr>, Option<Addr>) {
    var l, r := Lookup(left, p), Lookup(right, p);
    if p != [] && l.None? && Lookup(left, p[..|p| - 1]).None? then (r, None) else (l, r)
  }

  ghost predicate IsLine(recursive: bool, left: Addr, right: Addr, at: Path, line: Line) {
    && at <= line.path
    && var p := line.path[|at|..];
      IsReported(recursive, left, right, p) && (line.left, line.right) == Columns(left, right, p)
  }

  /** The listing of a subtree that one side lacks. */
  ghost predicate IsMissed(file: Addr, at: Path, line: Line) {
    && at <= line.path && line.path != at
    && line.left == Lookup(file, line.path[|at|..]) && line.left.Some? && line.right.None?
  }

  // ---------------------------------------------------------------- one level at a time

  lemma LookupStep(root: Addr, n: Name, p: Path)
    ensures Lookup(root, [n] + p) == if n in Kids(root) then Lookup(Kids(root)[n], p) else None
  {
    assert ([n] + p)[1..] == p;
  }

  lemma EndsAtStep(recursive: bool, left: Addr, right: Addr, n: Name, p: Path)
    requires n in Kids(left) && n in Kids(right)
    ensures EndsAt(recursive, left, right, [n] + p) <==> EndsAt(recursive, Kids(left)[n], Kids(right)[n], p)
  {
    LookupStep(left, n, p);
    LookupStep(right, n, p);
  }

  lemma ReportedInBoth(recursive: bool, left: Addr, right: Addr, n: Name, p: Path)
    requires AreDirs(recursive, left, right) && n in Kids(left) && n in Kids(right)
    ensures IsReported(recursive, left, right, [n] + p) <==> IsReported(recursive, Kids(left)[n], Kids(right)[n], p)
  {
    LookupStep(left, n, p);
    LookupStep(right, n, p);
    var q := [n] + p;
    assert q[..0] == [];
    forall k | 1 <= k <= |p|
      ensures EndsAt(recursive, left, right, q[..k]) <==> EndsAt(recursive, Kids(left)[n], Kids(right)[n], p[..k - 1])
    {
      assert q[..k] == [n] + p[..k - 1];
      EndsAtStep(recursive, left, right, n, p[..k - 1]);
    }
    if IsReported(recursive, left, right, q) {
      forall k | 0 <= k < |p| ensures !EndsAt(recursive, Kids(left)[n], Kids(right)[n], p[..k]) {
        assert !EndsAt(recursive, left, right, q[..k + 1]);
      }
    }
  }

  lemma ReportedInOne(recursive: bool, left: Addr, right: Addr, n: Name, p: Path)
    requires AreDirs(recursive, left, right) && (n !in Kids(left) || n !in Kids(right))
    ensures IsReported(recursive, left, right, [n] + p) <==>
      (n in Kids(left) && Lookup(Kids(left)[n], p).Some?) || (n in Kids(right) && Lookup(Kids(right)[n], p).Some?)
  {
    LookupStep(left, n, p);
    LookupStep(right, n, p);
    var q := [n] + p;
    forall k | 0 <= k < |q| ensures !EndsAt(recursive, left, right, q[..k]) {
      if k > 0 {
        assert q[..k] == [n] + p[..k - 1];
        LookupStep(left, n, p[..k - 1]);
        LookupStep(right, n, p[..k - 1]);
      }
    }
  }

  /** Equal addresses name equal trees: passing over them misses nothing. */
  lemma NothingBelowEqual(recursive: bool, tree: Addr, p: Path)
    ensures !IsReported(recursive, tree, tree, p)
  {
  }

  /** Without the recursive option only the two addresses themselves are compared. */
  lemma NotRecursive(left: Addr, right: Addr, p: Path)
    ensures IsReported(false, left, right, p) <==> p == [] && left != right
  {
    if p != [] { assert EndsAt(false, left, right, p[..0]); }
  }

  /**
    With it, a path is reported when the sides differ there, not as two directories, and on the way to it there is
    never a file on both sides or a file on one and a directory on the other.
  */
  lemma Recursive(left: Addr, right: Addr, p: Path)
    ensures IsReported(true, left, right, p) <==>
      var l, r := Lookup(left, p), Lookup(right, p);
      && l != r && (l.Some? && r.Some? ==> !IsDir(l.value) || !IsDir(r.value))
      && forall k :: 0 <= k < |p| && Lookup(left, p[..k]).Some? && Lookup(right, p[..k]).Some? ==>
           IsDir(Lookup(left, p[..k]).value) && IsDir(Lookup(right, p[..k]).value)
  {
  }

  lemma OnlyHere(recursive: bool, left: Addr, right: Addr, p: Path)
    requires left != right && !AreDirs(recursive, left, right)
    ensures IsReported(recursive, left, right, p) <==> p == []
  {
    if p != [] { assert EndsAt(recursive, left, right, p[..0]); }
  }

  /** What lines for the subtree below one name should be there. */
  ghost predicate IsLineBelow(recursive: bool, left: Addr, right: Addr, at: Path, n: Name, line: Line) {
    IsLine(recursive, left, right, at, line) && |line.path| > |at| && line.path[|at|] == n
  }

  ghost predicate IsMissedBelow(file: Addr, at: Path, n: Name, line: Line) {
    IsMissed(file, at, line) && line.path[|at|] == n
  }

  lemma SplitPath(at: Path, n: Name, path: Path)
    ensures at + [n] <= path <==> at <= path && |path| > |at| && path[|at|] == n
    ensures at + [n] <= path ==> path[|at|..] == [n] + path[|at| + 1..]
  {
  }

  lemma ColumnsStep(left: Addr, right: Addr, n: Name, p: Path)
    requires n in Kids(left) && n in Kids(right)
    ensures Columns(left, right, [n] + p) == Columns(Kids(left)[n], Kids(right)[n], p)
  {
    LookupStep(left, n, p);
    LookupStep(right, n, p);
    if p != [] {
      LookupStep(left, n, p[..|p| - 1]);
      assert ([n] + p)[..|p|] == [n] + p[..|p| - 1];
    }
  }

  lemma LinesInBoth(recursive: bool, left: Addr, right: Addr, at: Path, n: Name, line: Line)
    requires AreDirs(recursive, left, right) && n in Kids(left) && n in Kids(right)
    ensures IsLineBelow(recursive, left, right, at, n, line)
      <==> IsLine(recursive, Kids(left)[n], Kids(right)[n], at + [n], line)
  {
    SplitPath(at, n, line.path);
    if at + [n] <= line.path {
      var p := line.path[|at| + 1..];
      ReportedInBoth(recursive, left, right, n, p);
      ColumnsStep(left, right, n, p);
    }
  }

  lemma ColumnsInOne(left: Addr, right: Addr, n: Name, p: Path)
    requires (n in Kids(left)) != (n in Kids(right))
    ensures n in Kids(left) ==> Columns(left, right, [n] + p) == (Lookup(Kids(left)[n], p), None)
    ensures n in Kids(right) ==>
      Columns(left, right, [n] + p) == if p == [] then (None, Some(Kids(right)[n])) else (Lookup(Kids(right)[n], p), None)
  {
    LookupStep(left, n, p);
    LookupStep(right, n, p);
    if p != [] {
      LookupStep(left, n, p[..|p| - 1]);
      assert ([n] + p)[..|p|] == [n] + p[..|p| - 1];
      if n in Kids(left) && Lookup(Kids(left)[n], p[..|p| - 1]).None? && Lookup(Kids(left)[n], p).Some? {
        LookupPrefix(Kids(left)[n], p[..|p| - 1], p);
      }
    } else {
      assert ([n] + p)[..0] == [];
    }
  }

  lemma LinesInOne(recursive: bool, left: Addr, right: Addr, at: Path, n: Name, line: Line)
    requires AreDirs(recursive, left, right) && (n in Kids(left)) != (n in Kids(right))
    ensures n in Kids(left) ==> (IsLineBelow(recursive, left, right, at, n, line) <==>
      line == Line(at + [n], Some(Kids(left)[n]), None) || IsMissed(Kids(left)[n], at + [n], line))
    ensures n in Kids(right) ==> (IsLineBelow(recursive, left, right, at, n, line) <==>
      line == Line(at + [n], None, Some(Kids(right)[n])) || IsMissed(Kids(right)[n], at + [n], line))
  {
    SplitPath(at, n, line.path);
    if at + [n] <= line.path {
      var p := line.path[|at| + 1..];
      ReportedInOne(recursive, left, right, n, p);
      ColumnsInOne(left, right, n, p);
      assert line.path == at + [n] + p;
    }
  }

  lemma MissedBelow(file: Addr, at: Path, n: Name, line: Line)
    requires n in Kids(file)
    ensures IsMissedBelow(file, at, n, line) <==>
      line == Line(at + [n], Some(Kids(file)[n]), None) || IsMissed(Kids(file)[n], at + [n], line)
  {
    SplitPath(at, n, line.path);
    if at + [n] <= line.path {
      var p := line.path[|at| + 1..];
      LookupStep(file, n, p);
      assert line.path == at + [n] + p;
    }
  }

  // ---------------------------------------------------------------- the comparison

  /** No path has two lines. */
  ghost predicate OncePerPath(lines: seq<Line>) {
    forall i, j :: 0 <= i < j < |lines| ==> lines[i].path != lines[j].path
  }

  lemma OnceTogether(a: seq<Line>, b: seq<Line>)
    requires OncePerPath(a) && OncePerPath(b)
    requires forall l, m :: l in a && m in b ==> l.path != m.path
    ensures OncePerPath(a + b)
  {
  }

  class Output {
    var lines: seq<Line>
  }

  /** `_miss` */
  method Miss(ghost present: set<Addr>, file: Addr, at: Path, out: Output) returns (ghost added: seq<Line>)
    requires Complete(present, file)
    modifies out
    ensures out.lines == old(out.lines) + added
    ensures forall line :: line in added <==> IsMissed(file, at, line)
    ensures OncePerPath(added)
    decreases file, 1
  {
    added := [];
    var names := Kids(file).Keys;
    while names != {}
      invariant names <= Kids(file).Keys && out.lines == old(out.lines) + added
      invariant forall line :: line in added <==> IsMissed(file, at, line) && line.path[|at|] !in names
      invariant OncePerPath(added)
      decreases |names|
    {
      var n :| n in names;
      ghost var more := MissChild(present, file, at, n, out);
      OnceTogether(added, more);
      added := added + more;
      names := names - {n};
    }
  }

  method MissChild(ghost present: set<Addr>, file: Addr, at: Path, n: Name, out: Output) returns (ghost added: seq<Line>)
    requires Complete(present, file) && n in Kids(file)
    modifies out
    ensures out.lines == old(out.lines) + added
    ensures forall line :: line in added <==> IsMissedBelow(file, at, n, line)
    ensures OncePerPath(added)
    decreases file, 0
  {
    var child := Kids(file)[n];
    KidIsSmaller(file, n);
    out.lines := out.lines + [Line(at + [n], Some(child), None)];
    added := [];
    if child.kind.Dir? {
      added := Miss(present, child, at + [n], out);
    }
    OnceTogether([Line(at + [n], Some(child), None)], added);
    added := [Line(at + [n], Some(child), None)] + added;
    forall line ensures line in added <==> IsMissedBelow(file, at, n, line) {
      MissedBelow(file, at, n, line);
    }
  }

  /** `_diff`: the lines it adds are those of a comparison that prunes nothing. */
  method Compare(ghost present: set<Addr>, left: Addr, right: Addr, at: Path, recursive: bool, out: Output)
    returns (ghost added: seq<Line>)
    requires Complete(present, left) && Complete(present, right)
    modifies out
    ensures out.lines == old(out.lines) + added
    ensures forall line :: line in added <==> IsLine(recursive, left, right, at, line)
    ensures OncePerPath(added)
    decreases left, 2
  {
    added := [];
    if left == right {
      forall line ensures !IsLine(recursive, left, right, at, line) {
        if at <= line.path { NothingBelowEqual(recursive, left, line.path[|at|..]); }
      }
    } else if !(recursive && left.kind.Dir? && right.kind.Dir?) {
      out.lines := out.lines + [Line(at, Some(left), Some(right))];
      added := [Line(at, Some(left), Some(right))];
      forall line ensures line in added <==> IsLine(recursive, left, right, at, line) {
        LineHere(recursive, left, right, at, line);
      }
    } else {
      added := CompareChildren(present, left, right, at, recursive, out);
    }
  }

  lemma LineHere(recursive: bool, left: Addr, right: Addr, at: Path, line: Line)
    requires left != right && !AreDirs(recursive, left, right)
    ensures IsLine(recursive, left, right, at, line) <==> line == Line(at, Some(left), Some(right))
  {
    if at <= line.path {
      OnlyHere(recursive, left, right, line.path[|at|..]);
      assert line.path == at + line.path[|at|..];
    }
  }

  /** Two directories have no line of their own, only for names that one of them has. */
  lemma NamedLine(recursive: bool, left: Addr, right: Addr, at: Path, line: Line)
    requires AreDirs(recursive, left, right) && IsLine(recursive, left, right, at, line)
    ensures |line.path| > |at| && (line.path[|at|] in Kids(left) || line.path[|at|] in Kids(right))
  {
    var p := line.path[|at|..];
    if p != [] {
      LookupStep(left, p[0], p[1..]);
      LookupStep(right, p[0], p[1..]);
      assert p == [p[0]] + p[1..];
    }
  }

  method CompareChildren(ghost present: set<Addr>, left: Addr, right: Addr, at: Path, recursive: bool, out: Output)
    returns (ghost added: seq<Line>)
    requires Complete(present, left) && Complete(present, right) && AreDirs(recursive, left, right)
    modifies out
    ensures out.lines == old(out.lines) + added
    ensures forall line :: line in added <==> IsLine(recursive, left, right, at, line)
    ensures OncePerPath(added)
    decreases left, 1
  {
    added := [];
    var names := Kids(left).Keys + Kids(right).Keys;
    while names != {}
      invariant names <= Kids(left).Keys + Kids(right).Keys && out.lines == old(out.lines) + added
      invariant forall line :: line in added <==>
        IsLine(recursive, left, right, at, line) && |line.path| > |at| && line.path[|at|] !in names
          && (line.path[|at|] in Kids(left) || line.path[|at|] in Kids(right))
      invariant OncePerPath(added)
      decreases |names|
    {
      var n :| n in names;
      ghost var more := CompareChild(present, left, right, at, n, recursive, out);
      OnceTogether(added, more);
      added := added + more;
      names := names - {n};
    }
    forall line | IsLine(recursive, left, right, at, line) ensures line in added {
      NamedLine(recursive, left, right, at, line);
    }
  }

  method CompareChild(ghost present: set<Addr>, left: Addr, right: Addr, at: Path, n: Name, recursive: bool, out: Output)
    returns (ghost added: seq<Line>)
    requires Complete(present, left) && Complete(present, right) && AreDirs(recursive, left, right)
    requires n in Kids(left) || n in Kids(right)
    modifies out
    ensures out.lines == old(out.lines) + added
    ensures forall line :: line in added <==> IsLineBelow(recursive, left, right, at, n, line)
    ensures OncePerPath(added)
    decreases left, 0
  {
    if n in Kids(left) && n in Kids(right) {
      KidIsSmaller(left, n);
      added := Compare(present, Kids(left)[n], Kids(right)[n], at + [n], recursive, out);
      forall line ensures line in added <==> IsLineBelow(recursive, left, right, at, n, line) {
        LinesInBoth(recursive, left, right, at, n, line);
      }
    } else {
      var child := if n in Kids(left) then Kids(left)[n] else Kids(right)[n];
      var first := if n in Kids(left) then Line(at + [n], Some(child), None) else Line(at + [n], None, Some(child));
      out.lines := out.lines + [first];
      added := [];
      if child.kind.Dir? {
        added := Miss(present, child, at + [n], out);
      }
      OnceTogether([first], added);
      added := [first] + added;
      forall line ensures line in added <==> IsLineBelow(recursive, left, right, at, n, line) {
        LinesInOne(recursive, left, right, at, n, line);
      }
    }
  }
}
