/**
  Content addresses and the Merkle DAG they form (internal/grits/structures.go, namestore.go).

  SHA-256 is taken to be collision free, so an address is represented by the content it is the hash
  of: equal contents are equal addresses, and a directory that occurs at several places in a volume
  is one address.  A term says nothing about whether the bytes are held anywhere; that is the blob
  store's business.
*/
module Merkle {

  type Name = string

  /** `Unknown` is any other type number accepted by `UnmarshalJSON`. */
  datatype Kind = File | Dir | Unknown

  datatype Addr =
    | Bytes(data: string)                                  // content that parses as neither form below
    | Listing(entries: map<Name, Addr>)                    // a directory's content: name to child metadata address
    | Metadata(kind: Kind, content: Addr, stamp: string)   // node metadata; stamp is its size, mode and timestamp

  /** What `FileNode.Children` yields: nothing for a file, the map for a directory, or a parse error. */
  datatype Children = NoChildren | Entries(entries: map<Name, Addr>) | Corrupt

  predicate IsNode(a: Addr) {
    a.Metadata? && !a.kind.Unknown?
  }

  function ChildrenOf(a: Addr): Children
    requires IsNode(a)
  {
    if a.kind.File? then NoChildren
    else if a.content.Listing? then Entries(a.content.entries)
    else Corrupt
  }

  predicate IsDir(a: Addr) {
    a.Metadata? && a.kind.Dir? && a.content.Listing?
  }

  /** The children of a directory; a file, a malformed directory and a plain blob have none. */
  function Kids(a: Addr): map<Name, Addr> {
    if IsDir(a) then a.content.entries else map[]
  }

  /** The metadata address `CreateTreeNode` gives a directory with these entries. */
  function TreeNode(entries: map<Name, Addr>, stamp: string): Addr {
    Metadata(Dir, Listing(entries), stamp)
  }

  lemma KidIsSmaller(a: Addr, n: Name)
    requires n in Kids(a)
    ensures Kids(a)[n] < a
  {
  }

  /** x is a or lies below a. */
  ghost predicate Reaches(a: Addr, x: Addr) {
    x == a || exists n :: n in Kids(a) && Reaches(Kids(a)[n], x)
  }

  /** Following links never leads back to where it started. */
  lemma {:induction false} ReachesIsAcyclic(a: Addr, x: Addr)
    requires Reaches(a, x)
    ensures x == a || x < a
  {
    if x != a {
      var n :| n in Kids(a) && Reaches(Kids(a)[n], x);
      KidIsSmaller(a, n);
      ReachesIsAcyclic(Kids(a)[n], x);
    }
  }

  lemma {:induction false} ReachesTransitive(a: Addr, x: Addr, y: Addr)
    requires Reaches(a, x) && Reaches(x, y)
    ensures Reaches(a, y)
  {
    if x != a {
      var n :| n in Kids(a) && Reaches(Kids(a)[n], x);
      ReachesTransitive(Kids(a)[n], x, y);
    }
  }

  /** What `loadFileNode` needs in order to succeed: well-formed metadata, and both blobs held. */
  predicate Loadable(present: set<Addr>, a: Addr) {
    IsNode(a) && a in present && a.content in present
  }

  /** Everything at or below a can be loaded and parsed. */
  ghost predicate Complete(present: set<Addr>, a: Addr) {
    && Loadable(present, a)
    && !ChildrenOf(a).Corrupt?
    && forall n :: n in Kids(a) ==> Complete(present, Kids(a)[n])
  }

  lemma {:induction false} CompleteBelow(present: set<Addr>, a: Addr, x: Addr)
    requires Complete(present, a) && Reaches(a, x)
    ensures Complete(present, x)
  {
    if x != a {
      var n :| n in Kids(a) && Reaches(Kids(a)[n], x);
      CompleteBelow(present, Kids(a)[n], x);
    }
  }

  lemma {:induction false} CompleteFromBelow(present: set<Addr>, a: Addr)
    requires forall x :: Reaches(a, x) ==> Loadable(present, x) && !ChildrenOf(x).Corrupt?
    ensures Complete(present, a)
  {
    forall n | n in Kids(a) ensures Complete(present, Kids(a)[n]) {
      forall x | Reaches(Kids(a)[n], x) ensures Reaches(a, x) {}
      CompleteFromBelow(present, Kids(a)[n]);
    }
    assert Reaches(a, a);
  }

  lemma {:induction false} CompleteMonotone(present: set<Addr>, more: set<Addr>, a: Addr)
    requires Complete(present, a) && present <= more
    ensures Complete(more, a)
  {
    forall n | n in Kids(a) ensures Complete(more, Kids(a)[n]) {
      CompleteMonotone(present, more, Kids(a)[n]);
    }
  }
}
