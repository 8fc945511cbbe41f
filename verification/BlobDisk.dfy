/**
  The blob store over whole runs, with its files on disk and restarts (internal/grits/blobstore.go). The changes
  to the table in memory are those that `BlobStore.LocalBlobStore` is proved to make.
*/
module BlobDisk {
  import opened Merkle
  import opened BlobStore
  import Base58

  /** A path below the storage directory, as its components. */
  type DiskPath = seq<string>

  /** `blobToPath`: two levels of directories spread the blobs out. */
  function BlobToPath(s: string): DiskPath {
    if |s| < 5 then [s] else [s[0..3], s[3..4], s[4..]]
  }

  /** What a scan makes of a path: its components without the separators. */
  function NameOfPath(path: DiskPath): string {
    if path == [] then "" else path[0] + NameOfPath(path[1..])
  }

  /** Stripping the separators undoes the sharding, so no two blobs share a file. */
  lemma PathRoundTrip(s: string)
    ensures NameOfPath(BlobToPath(s)) == s
  {
    if |s| >= 5 {
      var path := BlobToPath(s);
      assert NameOfPath(path[2..]) == path[2] + NameOfPath([]);
      assert NameOfPath(path[1..]) == path[1] + NameOfPath(path[1..][1..]) && path[1..][1..] == path[2..];
      assert s == s[0..3] + (s[3..4] + s[4..]);
    }
  }

  /** The file of a content identifier is two directories down, named by three characters and by one. */
  lemma ShardWidths(s: string)
    requires |s| >= 5
    ensures var path := BlobToPath(s); |path| == 3 && |path[0]| == 3 && |path[1]| == 1
  {
  }

  lemma PathIsInjective(s: string, t: string)
    requires BlobToPath(s) == BlobToPath(t)
    ensures s == t
  {
    PathRoundTrip(s);
    PathRoundTrip(t);
  }

  /** The check of `NewBlobAddrFromString`. */
  predicate IsBlobFile(path: DiskPath) {
    var name := NameOfPath(path);
    |name| >= 2 && name[..2] == "Qm"
  }

  // ---------------------------------------------------------------- states

  /** Content identifiers, without collisions among the blobs that occur. */
  type Naming = Addr -> string

  ghost predicate IsNaming(name: Naming, blobs: set<Addr>) {
    && (forall a {:trigger HasName(name, a)} :: a in blobs ==> HasName(name, a))
    && (forall a, b {:trigger NamedApart(name, a, b)} :: a in blobs && b in blobs ==> NamedApart(name, a, b))
  }

  ghost predicate HasName(name: Naming, a: Addr) {
    Base58.IsBlobAddress(name(a))
  }

  ghost predicate NamedApart(name: Naming, a: Addr, b: Addr) {
    name(a) == name(b) ==> a == b
  }

  /** A file's content and its modification time, which `Touch` sets to the expiry. */
  datatype Stored = Stored(blob: Addr, mtime: int)

  /** The table in memory, the disk, the references handed out and not yet given back, and the time. */
  datatype State = State(files: Files, disk: map<DiskPath, Stored>, handles: multiset<Addr>, now: int)

  datatype Step = Read(a: Addr) | Add(a: Addr) | Touch(a: Addr, duration: int) | Take(a: Addr) | Release(a: Addr)
    | Evict | Tick(now: int) | Restart

  /** Only what was handed out can be touched, taken again or given back. */
  predicate Enabled(s: State, blobs: set<Addr>, step: Step) {
    match step
    case Read(a) => a in blobs
    case Add(a) => a in blobs
    case Touch(a, _) => a in s.handles && a in s.files
    case Take(a) => a in s.handles && a in s.files
    case Release(a) => a in s.handles && a in s.files
    case Evict => true
    case Tick(now) => s.now <= now
    case Restart => true
  }

  predicate IsFileOf(disk: map<DiskPath, Stored>, path: DiskPath, name: string) {
    path in disk && IsBlobFile(path) && NameOfPath(path) == name
  }

  /** `scanAndLoadExistingFiles`: the blobs whose names the scan puts together, with their stored expiry. */
  ghost function Found(disk: map<DiskPath, Stored>, name: Naming, blobs: set<Addr>): map<Addr, int> {
    map a | a in blobs && exists path :: IsFileOf(disk, path, name(a)) ::
      var path :| IsFileOf(disk, path, name(a)); disk[path].mtime
  }

  ghost function Scanned(disk: map<DiskPath, Stored>, name: Naming, blobs: set<Addr>): Files {
    var found := Found(disk, name, blobs);
    map a | a in found :: CachedFile(0, Expiry.At(found[a]))
  }

  /** Files that are no longer in the table are deleted together with their entry. */
  ghost function Kept(disk: map<DiskPath, Stored>, files: Files): map<DiskPath, Stored> {
    map path | path in disk && disk[path].blob in files :: disk[path]
  }

  /** One more reference on a blob that is there. */
  function HandOut(s: State, a: Addr): State
    requires a in s.files
  {
    s.(files := Retain(s.files, a), handles := s.handles + multiset{a})
  }

  /** The table changes at a, whose file is written. */
  function Stow(s: State, name: Naming, a: Addr, files: Files, mtime: int, handles: multiset<Addr>): State {
    s.(files := files, disk := s.disk[BlobToPath(name(a)) := Stored(a, mtime)], handles := handles)
  }

  /** The table loses blobs, and the disk the same ones. */
  ghost function Shrink(s: State, files: Files, handles: multiset<Addr>): State {
    s.(files := files, disk := Kept(s.disk, files), handles := handles)
  }

  ghost function Apply(s: State, name: Naming, blobs: set<Addr>, step: Step): State
    requires Enabled(s, blobs, step)
  {
    match step
    case Read(a) => if a in s.files then HandOut(s, a) else s
    case Add(a) =>
      if a in s.files then HandOut(s, a) else Stow(s, name, a, Create(s.files, a), s.now, s.handles + multiset{a})
    case Touch(a, duration) =>
      Stow(s, name, a, Touched(s.files, a, s.now, duration), s.now + duration, s.handles)
    case Take(a) => HandOut(s, a)
    case Release(a) => Shrink(s, Drop(s.files, a, s.now), s.handles - multiset{a})
    case Evict => Shrink(s, Surviving(s.files, {}, s.now), s.handles)
    case Tick(now) => s.(now := now)
    case Restart => s.(files := Scanned(s.disk, name, blobs), handles := multiset{})
  }

  // ---------------------------------------------------------------- the invariant

  /** The table and the disk hold the same blobs, each file under its blob's name with that blob as its content. */
  ghost predicate DiskMatches(s: State, name: Naming, blobs: set<Addr>) {
    && (forall a {:trigger HasFile(s, name, blobs, a)} :: a in s.files ==> HasFile(s, name, blobs, a))
    && (forall path {:trigger IsStoredWell(s, name, blobs, path)} ::
          path in s.disk ==> IsStoredWell(s, name, blobs, path))
  }

  ghost predicate HasFile(s: State, name: Naming, blobs: set<Addr>, a: Addr) {
    a in blobs && BlobToPath(name(a)) in s.disk
  }

  ghost predicate IsStoredWell(s: State, name: Naming, blobs: set<Addr>, path: DiskPath)
    requires path in s.disk
  {
    var a := s.disk[path].blob;
    && a in blobs && a in s.files && path == BlobToPath(name(a))
    && match s.files[a].expiresAt { case At(t) => s.disk[path].mtime == t case Never => s.disk[path].mtime <= s.now }
  }

  /** A blob's count is the number of its references that are handed out. */
  ghost predicate CountsMatch(s: State) {
    && (forall a :: a in s.files ==> s.files[a].refCount == s.handles[a])
    && (forall a :: a in s.handles ==> a in s.files)
  }

  ghost predicate Inv(s: State, name: Naming, blobs: set<Addr>) {
    IsNaming(name, blobs) && DiskMatches(s, name, blobs) && CountsMatch(s)
  }

  lemma InitialInv(name: Naming, blobs: set<Addr>, now: int)
    requires IsNaming(name, blobs)
    ensures Inv(State(map[], map[], multiset{}, now), name, blobs)
  {
  }

  lemma PathOfBlob(name: Naming, blobs: set<Addr>, a: Addr, b: Addr)
    requires IsNaming(name, blobs) && a in blobs && b in blobs
    ensures BlobToPath(name(a)) == BlobToPath(name(b)) <==> a == b
  {
    assert NamedApart(name, a, b);
    if BlobToPath(name(a)) == BlobToPath(name(b)) { PathIsInjective(name(a), name(b)); }
  }

  /** A blob of the table is in the file of its name. */
  lemma FileOf(s: State, name: Naming, blobs: set<Addr>, a: Addr)
    requires IsNaming(name, blobs) && DiskMatches(s, name, blobs) && a in s.files
    ensures var path := BlobToPath(name(a));
      a in blobs && path in s.disk && s.disk[path].blob == a && IsStoredWell(s, name, blobs, path)
  {
    assert HasFile(s, name, blobs, a);
    assert IsStoredWell(s, name, blobs, BlobToPath(name(a)));
    PathOfBlob(name, blobs, a, s.disk[BlobToPath(name(a))].blob);
  }

  /** A scan finds just the blobs of the table, with the expiry each had or an earlier time for those without one. */
  lemma ScanFinds(s: State, name: Naming, blobs: set<Addr>, a: Addr)
    requires Inv(s, name, blobs)
    ensures a in Found(s.disk, name, blobs) <==> a in s.files
    ensures a in s.files ==> HasFile(s, name, blobs, a)
    ensures a in s.files ==> Found(s.disk, name, blobs)[a] == s.disk[BlobToPath(name(a))].mtime
  {
    if a in s.files {
      FileOf(s, name, blobs, a);
      PathRoundTrip(name(a));
      assert HasName(name, a);
      assert name(a)[..2] == "Qm";
      assert IsFileOf(s.disk, BlobToPath(name(a)), name(a));
    }
    forall path | a in blobs && IsFileOf(s.disk, path, name(a)) ensures a in s.files && path == BlobToPath(name(a)) {
      assert IsStoredWell(s, name, blobs, path);
      PathRoundTrip(name(s.disk[path].blob));
      assert NamedApart(name, a, s.disk[path].blob);
    }
  }

  // ---------------------------------------------------------------- steps keep the invariant

  lemma ShrinkKeepsDisk(s: State, name: Naming, blobs: set<Addr>, files: Files, handles: multiset<Addr>)
    requires Inv(s, name, blobs)
    requires forall a :: a in files ==> a in s.files && files[a].expiresAt == s.files[a].expiresAt
    ensures DiskMatches(Shrink(s, files, handles), name, blobs)
  {
    var s' := Shrink(s, files, handles);
    forall path | path in s'.disk ensures IsStoredWell(s', name, blobs, path) {
      assert IsStoredWell(s, name, blobs, path);
    }
    forall a | a in files ensures HasFile(s', name, blobs, a) {
      FileOf(s, name, blobs, a);
    }
  }

  /** One blob's entry and file are written. */
  lemma StowKeepsDisk(s: State, s': State, name: Naming, blobs: set<Addr>, a: Addr, f: CachedFile, mtime: int)
    requires Inv(s, name, blobs) && a in blobs && s'.now == s.now
    requires s'.files == s.files[a := f] && s'.disk == s.disk[BlobToPath(name(a)) := Stored(a, mtime)]
    requires match f.expiresAt { case At(t) => mtime == t case Never => mtime <= s.now }
    ensures DiskMatches(s', name, blobs)
  {
    forall path | path in s'.disk ensures IsStoredWell(s', name, blobs, path) {
      if path != BlobToPath(name(a)) {
        assert IsStoredWell(s, name, blobs, path);
      }
    }
    forall b | b in s'.files ensures HasFile(s', name, blobs, b) {
      if b != a { FileOf(s, name, blobs, b); }
    }
  }

  lemma HandOutKeepsDisk(s: State, name: Naming, blobs: set<Addr>, a: Addr)
    requires Inv(s, name, blobs) && a in s.files
    ensures DiskMatches(HandOut(s, a), name, blobs)
  {
    var s' := HandOut(s, a);
    forall path | path in s'.disk ensures IsStoredWell(s', name, blobs, path) {
      assert IsStoredWell(s, name, blobs, path);
    }
    forall b | b in s'.files ensures HasFile(s', name, blobs, b) {
      FileOf(s, name, blobs, b);
    }
  }

  lemma RestartKeepsDisk(s: State, name: Naming, blobs: set<Addr>)
    requires Inv(s, name, blobs)
    ensures DiskMatches(Apply(s, name, blobs, Restart), name, blobs)
  {
    var s' := Apply(s, name, blobs, Restart);
    forall path | path in s'.disk ensures IsStoredWell(s', name, blobs, path) {
      assert IsStoredWell(s, name, blobs, path);
      ScanFinds(s, name, blobs, s.disk[path].blob);
    }
    forall a | a in s'.files ensures HasFile(s', name, blobs, a) {
      ScanFinds(s, name, blobs, a);
      FileOf(s, name, blobs, a);
    }
  }

  lemma TimeKeepsDisk(s: State, name: Naming, blobs: set<Addr>, now: int)
    requires Inv(s, name, blobs) && s.now <= now
    ensures DiskMatches(s.(now := now), name, blobs)
  {
    var s' := s.(now := now);
    forall path | path in s'.disk ensures IsStoredWell(s', name, blobs, path) {
      assert IsStoredWell(s, name, blobs, path);
    }
    forall a | a in s'.files ensures HasFile(s', name, blobs, a) {
      FileOf(s, name, blobs, a);
    }
  }

  lemma GivingKeepsDisk(s: State, name: Naming, blobs: set<Addr>, step: Step)
    requires Inv(s, name, blobs) && Enabled(s, blobs, step) && (step.Read? || step.Take? || step.Add?)
    ensures DiskMatches(Apply(s, name, blobs, step), name, blobs)
  {
    if step.a in s.files {
      HandOutKeepsDisk(s, name, blobs, step.a);
    } else if step.Add? {
      StowKeepsDisk(s, Apply(s, name, blobs, step), name, blobs, step.a, CachedFile(1, Never), s.now);
    }
  }

  lemma TouchingKeepsDisk(s: State, name: Naming, blobs: set<Addr>, a: Addr, duration: int)
    requires Inv(s, name, blobs) && Enabled(s, blobs, Touch(a, duration))
    ensures DiskMatches(Apply(s, name, blobs, Touch(a, duration)), name, blobs)
  {
    var f := CachedFile(s.files[a].refCount, Expiry.At(s.now + duration));
    assert HasFile(s, name, blobs, a);
    StowKeepsDisk(s, Apply(s, name, blobs, Touch(a, duration)), name, blobs, a, f, s.now + duration);
  }

  lemma LosingKeepsDisk(s: State, name: Naming, blobs: set<Addr>, step: Step)
    requires Inv(s, name, blobs) && Enabled(s, blobs, step) && (step.Release? || step.Evict?)
    ensures DiskMatches(Apply(s, name, blobs, step), name, blobs)
  {
    if step.Release? {
      ShrinkKeepsDisk(s, name, blobs, Drop(s.files, step.a, s.now), s.handles - multiset{step.a});
    } else {
      ShrinkKeepsDisk(s, name, blobs, Surviving(s.files, {}, s.now), s.handles);
    }
  }

  lemma StepKeepsDisk(s: State, name: Naming, blobs: set<Addr>, step: Step)
    requires Inv(s, name, blobs) && Enabled(s, blobs, step)
    ensures DiskMatches(Apply(s, name, blobs, step), name, blobs)
  {
    match step
    case Touch(a, duration) => TouchingKeepsDisk(s, name, blobs, a, duration);
    case Tick(now) => TimeKeepsDisk(s, name, blobs, now);
    case Restart => RestartKeepsDisk(s, name, blobs);
    case _ =>
      if step.Release? || step.Evict? {
        LosingKeepsDisk(s, name, blobs, step);
      } else {
        GivingKeepsDisk(s, name, blobs, step);
      }
  }

  lemma ReleaseKeepsCounts(s: State, name: Naming, blobs: set<Addr>, a: Addr)
    requires CountsMatch(s) && Enabled(s, blobs, Release(a))
    ensures CountsMatch(Apply(s, name, blobs, Release(a)))
  {
    var s' := Apply(s, name, blobs, Release(a));
    forall x ensures s'.handles[x] == s.handles[x] - if x == a then 1 else 0 {}
  }

  lemma StepKeepsCounts(s: State, name: Naming, blobs: set<Addr>, step: Step)
    requires CountsMatch(s) && Enabled(s, blobs, step)
    ensures CountsMatch(Apply(s, name, blobs, step))
  {
    if step.Release? { ReleaseKeepsCounts(s, name, blobs, step.a); }
  }

  lemma StepKeepsInv(s: State, name: Naming, blobs: set<Addr>, step: Step)
    requires Inv(s, name, blobs) && Enabled(s, blobs, step)
    ensures Inv(Apply(s, name, blobs, step), name, blobs)
  {
    StepKeepsDisk(s, name, blobs, step);
    StepKeepsCounts(s, name, blobs, step);
  }

  /** Every blob can be read and added, and what was handed out can be touched, taken again and given back. */
  lemma CallersMay(s: State, name: Naming, blobs: set<Addr>, a: Addr, duration: int)
    requires Inv(s, name, blobs)
    ensures a in blobs ==> Enabled(s, blobs, Read(a)) && Enabled(s, blobs, Add(a))
    ensures a in s.handles ==>
      Enabled(s, blobs, Touch(a, duration)) && Enabled(s, blobs, Take(a)) && Enabled(s, blobs, Release(a))
    ensures Enabled(s, blobs, Evict) && Enabled(s, blobs, Restart)
  {
  }

  /** A file whose name does not start like a content identifier is passed over. */
  lemma ForeignFilesIgnored(disk: map<DiskPath, Stored>, name: Naming, blobs: set<Addr>, path: DiskPath, a: Addr)
    requires path in disk && !("Qm" <= NameOfPath(path))
    ensures a in Found(disk, name, blobs) <==> a in Found(disk - {path}, name, blobs)
  {
    var rest := disk - {path};
    forall p ensures IsFileOf(disk, p, name(a)) <==> IsFileOf(rest, p, name(a)) {
      assert p in rest <==> p in disk && p != path;
    }
  }

  /** How many references on a blob callers hold after a step. */
  lemma HandlesAfter(s: State, name: Naming, blobs: set<Addr>, step: Step, b: Addr)
    requires Inv(s, name, blobs) && Enabled(s, blobs, step)
    ensures var s' := Apply(s, name, blobs, step);
      && (step == Add(b) || step == Take(b) || (step == Read(b) && b in s.files) ==> s'.handles[b] == s.handles[b] + 1)
      && (step == Release(b) ==> s'.handles[b] == s.handles[b] - 1)
      && (step.Restart? ==> s'.handles[b] == 0)
      && (!step.Restart? && step !in {Add(b), Take(b), Release(b)} && !(step == Read(b) && b in s.files) ==>
            s'.handles[b] == s.handles[b])
    ensures Apply(s, name, blobs, step).now == if step.Tick? then step.now else s.now
    ensures step == Add(b) ==> b in Apply(s, name, blobs, step).files
    ensures b in Apply(s, name, blobs, step).files && b !in s.files ==> step == Add(b)
  {
    if step.Restart? { ScanFinds(s, name, blobs, b); }
  }

  /** A blob that nobody has touched is gone with its last reference. */
  lemma UntouchedGoes(s: State, name: Naming, blobs: set<Addr>, a: Addr)
    requires Inv(s, name, blobs) && Enabled(s, blobs, Add(a)) && a !in s.files
    ensures var s' := Apply(s, name, blobs, Add(a));
      Enabled(s', blobs, Release(a)) && a !in Apply(s', name, blobs, Release(a)).files
  {
    StepKeepsInv(s, name, blobs, Add(a));
    HandlesAfter(s, name, blobs, Add(a), a);
    LeavesExactlyExpired(Apply(s, name, blobs, Add(a)), name, blobs, Release(a), a);
  }

  // ---------------------------------------------------------------- what holds over runs

  ghost predicate IsRun(states: seq<State>, steps: seq<Step>, name: Naming, blobs: set<Addr>) {
    && |states| == |steps| + 1
    && forall i {:trigger IsStepAt(states, steps, name, blobs, i)} ::
         0 <= i < |steps| ==> IsStepAt(states, steps, name, blobs, i)
  }

  ghost predicate IsStepAt(states: seq<State>, steps: seq<Step>, name: Naming, blobs: set<Addr>, i: nat)
    requires i < |steps| < |states|
  {
    Enabled(states[i], blobs, steps[i]) && states[i + 1] == Apply(states[i], name, blobs, steps[i])
  }

  lemma {:induction false} RunKeepsInv(states: seq<State>, steps: seq<Step>, name: Naming, blobs: set<Addr>, k: nat)
    requires IsRun(states, steps, name, blobs) && Inv(states[0], name, blobs) && k < |states|
    ensures Inv(states[k], name, blobs)
  {
    if k > 0 {
      RunKeepsInv(states, steps, name, blobs, k - 1);
      assert IsStepAt(states, steps, name, blobs, k - 1);
      StepKeepsInv(states[k - 1], name, blobs, steps[k - 1]);
    }
  }

  /**
    Whoever holds a reference finds the blob: at every point of a run it is in the table with a positive count and
    in its file on disk, under its own name.
  */
  lemma HeldIsOnDisk(states: seq<State>, steps: seq<Step>, name: Naming, blobs: set<Addr>, k: nat, a: Addr)
    requires IsRun(states, steps, name, blobs) && Inv(states[0], name, blobs) && k < |states| && a in states[k].handles
    ensures var s := states[k]; var path := BlobToPath(name(a));
      a in s.files && s.files[a].refCount == s.handles[a] > 0 && path in s.disk && s.disk[path].blob == a
  {
    RunKeepsInv(states, steps, name, blobs, k);
    var s := states[k];
    FileOf(s, name, blobs, a);
  }

  /** The release of the last reference, or eviction when there is none. */
  predicate LetsGo(s: State, step: Step, a: Addr) {
    (step == Release(a) && s.handles[a] == 1) || (step.Evict? && s.handles[a] == 0)
  }

  /** A blob leaves the store only by the release of its last reference or by eviction, and exactly if it has expired. */
  lemma LeavesExactlyExpired(s: State, name: Naming, blobs: set<Addr>, step: Step, a: Addr)
    requires Inv(s, name, blobs) && Enabled(s, blobs, step) && a in s.files
    ensures a !in Apply(s, name, blobs, step).files <==> LetsGo(s, step, a) && Expired(s.files[a].expiresAt, s.now)
  {
    if step.Restart? { ScanFinds(s, name, blobs, a); } else { LeavesInMemory(s, name, blobs, step, a); }
  }

  lemma LeavesInMemory(s: State, name: Naming, blobs: set<Addr>, step: Step, a: Addr)
    requires CountsMatch(s) && Enabled(s, blobs, step) && a in s.files && !step.Restart?
    ensures a !in Apply(s, name, blobs, step).files <==> LetsGo(s, step, a) && Expired(s.files[a].expiresAt, s.now)
  {
  }

  /** A restart finds the same blobs again, all without references; what had expired stays expired once time moves on. */
  lemma RestartRecovers(s: State, name: Naming, blobs: set<Addr>)
    requires Inv(s, name, blobs)
    ensures var s' := Apply(s, name, blobs, Restart);
      && s'.files.Keys == s.files.Keys && s'.disk == s.disk
      && (forall a :: a in s.files ==> s'.files[a].refCount == 0)
      && (forall a, t :: a in s.files && t > s.now ==>
            (Expired(s'.files[a].expiresAt, t) <==> Expired(s.files[a].expiresAt, t)))
  {
    var s' := Apply(s, name, blobs, Restart);
    forall a ensures a in s'.files <==> a in s.files { ScanFinds(s, name, blobs, a); }
    forall a, t | a in s.files && t > s.now
      ensures Expired(s'.files[a].expiresAt, t) <==> Expired(s.files[a].expiresAt, t)
    {
      ScanFinds(s, name, blobs, a);
      FileOf(s, name, blobs, a);
    }
  }

  // ---------------------------------------------------------------- what a touch is for

  predicate Expires(s: State, a: Addr, expiry: int) {
    a in s.files && s.files[a].expiresAt == Expiry.At(expiry)
  }

  lemma StepKeepsExpiry(s: State, name: Naming, blobs: set<Addr>, step: Step, a: Addr, expiry: int)
    requires Enabled(s, blobs, step) && Expires(s, a, expiry) && s.now <= expiry
    requires !step.Restart? && !(step.Touch? && step.a == a)
    ensures Expires(Apply(s, name, blobs, step), a, expiry)
  {
  }

  lemma RestartKeepsExpiry(s: State, name: Naming, blobs: set<Addr>, a: Addr, expiry: int)
    requires Inv(s, name, blobs) && Expires(s, a, expiry)
    ensures Expires(Apply(s, name, blobs, Restart), a, expiry)
  {
    ScanFinds(s, name, blobs, a);
    FileOf(s, name, blobs, a);
  }

  lemma TimePasses(states: seq<State>, steps: seq<Step>, name: Naming, blobs: set<Addr>, k: nat)
    requires IsRun(states, steps, name, blobs) && k < |steps|
    ensures states[k].now <= states[k + 1].now
  {
    assert IsStepAt(states, steps, name, blobs, k);
  }

  ghost predicate NotTouched(steps: seq<Step>, i: nat, k: nat, a: Addr) {
    forall j :: i <= j < k && j < |steps| ==> !(steps[j].Touch? && steps[j].a == a)
  }

  lemma {:induction false} ExpiryLasts(states: seq<State>, steps: seq<Step>, name: Naming, blobs: set<Addr>,
                                       i: nat, k: nat, a: Addr, expiry: int)
    requires IsRun(states, steps, name, blobs) && Inv(states[0], name, blobs)
    requires i <= k < |states| && states[k].now <= expiry && Expires(states[i], a, expiry) && NotTouched(steps, i, k, a)
    ensures Expires(states[k], a, expiry)
    decreases k - i
  {
    if i < k {
      TimePasses(states, steps, name, blobs, k - 1);
      ExpiryLasts(states, steps, name, blobs, i, k - 1, a, expiry);
      RunKeepsExpiry(states, steps, name, blobs, k - 1, a, expiry);
    }
  }

  /**
    A touched blob stays, with or without references, through releases, evictions and restarts, until its time is
    over or it is touched again.
  */
  lemma TouchedStays(states: seq<State>, steps: seq<Step>, name: Naming, blobs: set<Addr>,
                     i: nat, k: nat, a: Addr, duration: int)
    requires IsRun(states, steps, name, blobs) && Inv(states[0], name, blobs)
    requires i < k < |states| && steps[i] == Touch(a, duration) && states[k].now <= states[i].now + duration
    requires NotTouched(steps, i + 1, k, a)
    ensures Expires(states[k], a, states[i].now + duration)
  {
    assert IsStepAt(states, steps, name, blobs, i);
    TouchSetsExpiry(states[i], name, blobs, a, duration);
    ExpiryLasts(states, steps, name, blobs, i + 1, k, a, states[i].now + duration);
  }

  lemma RunKeepsExpiry(states: seq<State>, steps: seq<Step>, name: Naming, blobs: set<Addr>, k: nat, a: Addr, expiry: int)
    requires IsRun(states, steps, name, blobs) && Inv(states[0], name, blobs) && k < |steps|
    requires Expires(states[k], a, expiry) && states[k].now <= expiry && !(steps[k].Touch? && steps[k].a == a)
    ensures Expires(states[k + 1], a, expiry)
  {
    RunKeepsInv(states, steps, name, blobs, k);
    assert IsStepAt(states, steps, name, blobs, k);
    ExpiryGoesOn(states[k], name, blobs, steps[k], a, expiry);
  }

  lemma ExpiryGoesOn(s: State, name: Naming, blobs: set<Addr>, step: Step, a: Addr, expiry: int)
    requires Inv(s, name, blobs) && Enabled(s, blobs, step)
    requires Expires(s, a, expiry) && s.now <= expiry && !(step.Touch? && step.a == a)
    ensures Expires(Apply(s, name, blobs, step), a, expiry)
  {
    if step.Restart? {
      RestartKeepsExpiry(s, name, blobs, a, expiry);
    } else {
      StepKeepsExpiry(s, name, blobs, step, a, expiry);
    }
  }

  lemma TouchSetsExpiry(s: State, name: Naming, blobs: set<Addr>, a: Addr, duration: int)
    requires Enabled(s, blobs, Touch(a, duration))
    ensures Expires(Apply(s, name, blobs, Touch(a, duration)), a, s.now + duration)
  {
  }
}
