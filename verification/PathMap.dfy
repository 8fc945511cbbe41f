/**
  A volume as users see it: a plain map from paths to files and directories.  Linking in the Merkle tree
  (PathTree) is shown to be an update of this map.
*/
module PathMap {
  import opened Wrappers
  import opened Merkle
  import opened PathTree

  /** A file is known by its metadata address; a directory's own address changes with its contents. */
  datatype Entry = FileEntry(addr: Addr) | DirEntry

  type View = imap<Path, Entry>

  ghost function EntryOf(a: Addr): Entry {
    if IsDir(a) then DirEntry else FileEntry(a)
  }

  ghost function ViewOf(root: Addr): View {
    imap q: Path | Lookup(root, q).Some? :: EntryOf(Lookup(root, q).value)
  }

  ghost predicate HasDir(v: View, p: Path) {
    p in v && v[p] == DirEntry
  }

  /** A path can be written when its parent directory is there; the root, when it is itself a directory. */
  ghost predicate CanPut(v: View, p: Path) {
    if p == [] then HasDir(v, []) else HasDir(v, p[..|p| - 1])
  }

  /** Replace everything at and below p by t. */
  ghost function Graft(v: View, p: Path, t: Option<View>): View {
    imap q: Path | (if p <= q then t.Some? && q[|p|..] in t.value else q in v) ::
      if p <= q then t.value[q[|p|..]] else v[q]
  }

  ghost function TargetView(t: Option<Addr>): Option<View> {
    match t case Some(a) => Some(ViewOf(a)) case None => None
  }

  /** Existing paths have existing directories above them. */
  ghost predicate PrefixClosed(v: View) {
    forall p, q :: q in v && p <= q && p != q ==> HasDir(v, p)
  }

  lemma ViewIsPrefixClosed(root: Addr)
    ensures PrefixClosed(ViewOf(root))
  {
    forall p, q | q in ViewOf(root) && p <= q && p != q ensures HasDir(ViewOf(root), p) {
      LookupPrefix(root, p, q);
    }
  }

  /** A link that succeeds is a graft of the target's view. */
  lemma LinkRefinesGraft(present: set<Addr>, path: Path, target: Option<Addr>, root: Addr,
                         clock: (nat, nat) -> string, step: nat)
    requires Normal(path) && IsNode(root)
    requires path == [] ==> target.Some?
    requires Link(present, LinkParts(path), target, root, clock, step).Ok?
    ensures var root' := Link(present, LinkParts(path), target, root, clock, step).value;
      && CanPut(ViewOf(root), path)
      && ViewOf(root') == Graft(ViewOf(root), path, TargetView(target))
  {
    var parts := LinkParts(path);
    var root' := Link(present, parts, target, root, clock, step).value;
    if path == [] {
      forall q: Path ensures q[0..] == q {}
    } else {
      forall q: Path
        ensures var v, v' := Graft(ViewOf(root), path, TargetView(target)), ViewOf(root');
          (q in v <==> q in v') && (q in v ==> v[q] == v'[q])
      {
        LinkMeaning(present, parts, target, root, clock, step, q);
      }
      LinkMeaning(present, parts, target, root, clock, step, path[..|path| - 1]);
    }
  }

  /** With every blob held, the link succeeds exactly when the map allows it. */
  lemma LinkSucceedsExactly(present: set<Addr>, path: Path, target: Option<Addr>, root: Addr,
                            clock: (nat, nat) -> string, step: nat)
    requires Normal(path) && Complete(present, root)
    requires path == [] ==> target.Some?
    requires target.Some? ==> Loadable(present, target.value)
    ensures Link(present, LinkParts(path), target, root, clock, step).Ok? <==> CanPut(ViewOf(root), path)
  {
    if path == [] {
      if "" in Kids(root) { assert Complete(present, Kids(root)[""]); }
    } else {
      LinkFailsExactly(present, LinkParts(path), target, root, clock, step);
      assert LinkParts(path) == path;
      assert HasDir(ViewOf(root), path[..|path| - 1]) <==> ExpectedLinkError(root, path).None?;
    }
  }

  /** In any tree, a link that the map takes can fail only for blobs that are missing or do not parse. */
  lemma LinkRefused(present: set<Addr>, path: Path, target: Option<Addr>, root: Addr,
                    clock: (nat, nat) -> string, step: nat)
    requires Normal(path) && IsNode(root) && (path == [] ==> target.Some?)
    requires Link(present, LinkParts(path), target, root, clock, step).Err?
    ensures var e := Link(present, LinkParts(path), target, root, clock, step).error;
      e == Unavailable || ((e == NotExist || e == NotDir) && !CanPut(ViewOf(root), path))
  {
    var parts := LinkParts(path);
    var i := LinkErrorMeaning(present, parts, target, root, clock, step);
    var e := Link(present, parts, target, root, clock, step).error;
    assert parts[..0] == [];
    if e != Unavailable && CanPut(ViewOf(root), path) {
      if path != [] {
        var d := path[..|path| - 1];
        if i < |d| {
          assert path[..i + 1] <= d && path[..i + 1] == path[..i] + [path[i]];
          LookupPrefix(root, path[..i], d);
          LookupPrefix(root, path[..i + 1], d);
          StepInto(root, path[..i], path[i]);
        }
      }
    }
  }

  /** The last write at a path wins. */
  lemma GraftTwice(v: View, p: Path, t1: Option<View>, t2: Option<View>)
    ensures Graft(Graft(v, p, t1), p, t2) == Graft(v, p, t2)
  {
  }

  /** Writes at unrelated paths commute. */
  lemma GraftsCommute(v: View, p: Path, q: Path, t: Option<View>, u: Option<View>)
    requires !(p <= q) && !(q <= p)
    ensures Graft(Graft(v, p, t), q, u) == Graft(Graft(v, q, u), p, t)
  {
    forall r: Path | AtOrAbove(p, r) && AtOrAbove(q, r) ensures AtOrAbove(p, q) || AtOrAbove(q, p) {
      AncestorsCompare(p, q, r);
    }
    forall r: Path ensures !AtOrAbove(p, r) || !AtOrAbove(q, r) {}
  }
}
