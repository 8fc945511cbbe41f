# Grits: a verified model of the name store, its permissions and its clients

Grits keeps a volume as an immutable, content-addressed DAG: a directory maps names to the addresses of its
children's metadata, and a change to a path builds a new spine of directories up to a new root. This project
models that core in Dafny and proves what it is meant to guarantee.

* **Volumes** (`Merkle`, `PathTree`, `PathMap`, `Requests`). Trees, the server's walk, links and batches of links,
  and their meaning on a plain map from paths to files and directories.
* **References** (`RefCounts`, `Ownership`, `BlobStore`, `Namespace`). `NameStore` with the dense reference manager,
  on top of the blob store: recursive take and release with shared subtrees, undoing a take that fails half way,
  `MultiLink`, cleanup and eviction. Every public operation keeps one invariant, `NameStore.Valid`, from which it
  follows in every state of every run that nothing the root reaches is freed and that all counts are exact.
* **Permissions** (`Permissions`, `Confinement`). The resolution of permissions along a path, the link callback
  that gates `MultiLink`, and what a principal can bring about over any number of batches.
* **Blobs on disk and in the cache** (`BlobDisk`, `BlobCache`, `SingleFlight`). The blob store with its files and
  restarts, the LRU cache in front of it, and `loadFileNode` with any number of threads.
* **Client and server algorithms** (`Radix`, `Base58`, `Coalescing`, `Addresses`, `DesyncQueue`, `FastWalk`,
  `Diff`, `ModuleOrder`). Content identifiers, the background write queue and what is read while writes are
  pending, the walk through cached blobs, the recursive diff, and the order of the server's modules.

`dafny verify dfyconfig.toml` checks everything.

Modelling conventions: an address is the content it names (`Merkle.Addr`), so hashing is free of collisions and
the DAG is well-founded; `present` is the set of blobs a store holds; time stamps of new directories come from a
function of the request and the level; clocks, callbacks, fetches and parsers are parameters; paths are
sequences of segments, and "normal" ones have no empty, `.` or `..` segment. Go's iteration over maps is an
arbitrary choice. Fatal and panic branches are kept in the code as `assert false`.

What the proofs brought to light:

* Loading a node whose metadata has an unknown type number releases its metadata blob but not its content blob
  (internal/grits/namestore.go:1197-1240). `NameStore.ActuallyLoadFileNode` and
  `SingleFlight.FailureLeavesNothing` state exactly this leak; `NameStore.LoadUnknown` shows it.
* Superseded entries of the write queue can be skipped without changing the outcome only if nothing but a
  directory ever replaces the root: `Coalescing.CoalescingKeepsMeaning` and
  `Coalescing.UnsafeWritesBreakCoalescing` are the two sides.
* A write with a file at or above its parent is answered with "path component is not a directory", and one that a
  callback denies with status 403. The queue takes both for transient errors and retries for ever, with all later
  writes waiting behind (client/lib/grits/GritsClient.js:432-436). `DesyncQueue.ServeMeaning` says exactly which
  writes are refused like this, `Turn` and `RetryRefused` that such a head never leaves the queue, and `StuckQueue`
  and `DeniedQueue` give a queue of each kind; under the link callback the denied writes are exactly those at paths
  that the principal may not link (`DeniedExactly`).
* While a write is pending, a lookup at or below its path answers from the write itself, without waiting for writes
  further down (client/lib/grits/GritsClient.js:967-985). `Addresses.OverrideIsFinal` says when that is the address
  the path ends up with; for a directory with a later write below it, it is not: `DesyncQueue.StaleRead`.
* Where such a lookup has to go on at the server, the reply's entries are searched for a variable that is not
  declared (client/lib/grits/GritsClient.js:1131), so no reply becomes an answer (`DesyncQueue.AfterReply`).
* The comment on permissions says that an insert grant applies at the directory that holds it. At the root it
  never does, because the root's grants always count as inherited ones (internal/gritsd/module_auth.go:1004-1011);
  `Permissions.LoneInsertApplies` says that the root is the only exception. The model follows the code. For the
  same reason, write permission at the root extends to the root's `.grits`.
* Who may insert into a `.grits` directory that has no access file may supply it, and with it new permissions
  (internal/gritsd/module_auth.go:1133-1172): `Confinement.GritsInserterEscalates` shows such a client. The condition
  that a client is confined under excludes this case and nothing more: `Confinement.InsertOnlyIsExact`.
* The cached walk takes a name such as `constructor` for an entry of every directory
  (client/lib/grits/GritsClient.js:1175-1187). The result is a partial one without an address.
  `FastWalk.AllCached` says exactly when this happens, and `FastWalk.ConstructorIsMisread` gives a case.
* Cleanup can run between the load and the take of `GetFileNode` (internal/grits/namestore.go:391-399); its
  contract says exactly when the reference then comes too late, and `NameStore.GetTooLate` shows it.
* `_miss` prints the addresses of a subtree that only the right side has in the left column
  (client/lib/diff/main.js:85-91); `Diff.Columns` says where.

## Model

| member | source | states |
|---|---|---|
| Merkle.ReachesIsAcyclic | internal/grits/namestore.go:1304-1373 | a directory's address is made from its children's, so a node reaches nothing that reaches it back |
| Merkle.CompleteBelow | internal/grits/namestore.go:1175-1241 | when everything at and below a node can be loaded, so can everything at and below whatever it reaches |
| PathTree.LookupConcat | internal/grits/namestore.go:492-568 | looking up p/q is looking up q from the node at p |
| PathTree.WalkMeaning | internal/grits/namestore.go:492-568 | every entry of the walk's answer is the node the path names, not_dir right below a file, or not_found |
| PathTree.ResolveMeaning | internal/grits/namestore.go:443-572 | the answer has one entry for the root and for each segment, each with its exact outcome |
| PathTree.ResolveIn | internal/grits/namestore.go:492-568 | in any tree, loadable or not, each prefix is reported found if all on the way to it can be loaded, and otherwise as what stops the walk: missing, below a file, or an internal error |
| PathTree.EmptySegmentsSkipped | internal/grits/namestore.go:492-568 | empty segments of a path are passed over |
| PathTree.LinkMeaning | internal/grits/namestore.go:891-978 | after a link the target resolves to the linked address, or not at all; every path neither above nor below it keeps its address, and above it directories stay directories |
| PathTree.LinkKeepsComplete | internal/grits/namestore.go:891-978 | linking a loadable tree into a loadable tree gives a loadable tree, with the blobs that were written |
| PathTree.LinkFailsExactly | internal/grits/namestore.go:907-947 | in a held tree a link fails exactly when the parent is missing or not a directory, with the error that says which, or else when the target cannot be loaded, as unavailable |
| PathTree.LinkErrorMeaning | internal/grits/namestore.go:907-947 | in any tree, a link that fails was stopped at a segment by just what its error says |
| PathTree.ObstacleStops | internal/grits/namestore.go:907-947 | whatever is in the way of a link stops it, with its own error |
| PathTree.LinkStamps | internal/grits/namestore.go:972-976 | every directory on the way is new, with a time stamp of this link |
| PathMap.LinkRefinesGraft | internal/grits/namestore.go:891-978 | on the map from paths to entries, a link replaces everything at and below the target |
| PathMap.LinkSucceedsExactly | internal/grits/namestore.go:907-934 | with all blobs held, a link goes through if and only if the map has a directory to put it in |
| PathMap.LinkRefused | internal/grits/namestore.go:907-947 | whatever is held, a link is refused as missing or no directory only if the map does not take it; else it fails for blobs alone |
| PathMap.GraftTwice | internal/grits/namestore.go:961-970 | the last write at a path wins |
| PathMap.GraftsCommute | internal/grits/namestore.go:961-970 | writes at unrelated paths commute |
| Requests.BatchRefinesMap | internal/grits/namestore.go:717-730 | the links of a batch are, in order, the updates of the map |
| Requests.BatchSucceedsExactly | internal/grits/namestore.go:717-730 | a batch succeeds exactly when the map takes each update in turn |
| Requests.AssertionMeaning | internal/grits/namestore.go:623-701 | the verdict on a request, from the path map alone: bit 1 asks for the address, bit 2 for a file, bit 4 for a directory, bit 8 for anything; a flag not met fails the assertion, a missing parent is not found, and the root is not unlinked |
| Requests.FirstFailureMeaning | internal/grits/namestore.go:623-702 | the error of the assertion phase is that of the first request that fails |
| Requests.DotIsTheRoot | internal/grits/namestore.go:623-724 | linking at "." is linking at the root, which cannot be unlinked by that name either |
| Requests.AbsoluteIsRefused | internal/grits/namestore.go:717-722 | a path that starts with a separator is refused |
| Requests.MultiLinkMeaning | internal/grits/namestore.go:612-739 | a batch goes through exactly when all assertions hold of the old tree, the map takes each update and the callbacks agree; its result is the in-order application to the map |
| Requests.BatchStopsAt | internal/grits/namestore.go:717-730 | a batch fails with the error of its first link that fails, in the tree that the links before it made |
| Requests.BatchRefused | internal/grits/namestore.go:717-730 | whatever is held, a batch that the map takes is never refused as missing or no directory |
| Requests.MultiLinkError | internal/grits/namestore.go:612-798 | the error of a batch, whether or not its targets are held: of the first request that fails, else of the first link that fails, else the denial, else unavailable |
| RefCounts.TakeNew | internal/grits/namestore.go:2454-2488 | counting a node whose children have just been held turns those holds into links, and the counts stay exact |
| RefCounts.ReleaseLast | internal/grits/namestore.go:2531-2548 | removing a node's entry turns its links into holds still to be released, and the counts stay exact |
| RefCounts.CountedIffReachable | internal/grits/namestore.go:2433-2549 | exact counts have an entry for exactly the nodes that some held root reaches |
| RefCounts.ExactIsUnique | internal/grits/namestore.go:2433-2549 | the holds determine the whole table |
| RefCounts.HeldIsCounted | internal/grits/namestore.go:2508-2530 | half way through a recursive release everything still held has a positive count and is not on the path being released |
| RefCounts.DoomedGone | internal/grits/namestore.go:2531-2548 | when a released directory's children are done, its own entry goes and the rest is exact |
| Ownership.NodeOwnsItsBlobs | internal/grits/namestore.go:1190-1195 | a cached node has a counted reference on its metadata blob and on its content blob |
| Ownership.NodeRemoved | internal/grits/namestore.go:2575-2594 | dropping a node from the cache frees exactly one reference on each of its two blobs |
| Ownership.OwnedCounts | internal/grits/namestore.go:2559-2598 | the references of cached nodes on a blob are one as metadata and one for each node with that content |
| BlobStore.LocalBlobStore.ReadFile | internal/grits/blobstore.go:192-223 | a blob that is there gains one reference; nothing else changes |
| BlobStore.LocalBlobStore.AddDataBlock | internal/grits/blobstore.go:326-364 | one reference more on the blob, which is created with none expiring if new |
| BlobStore.LocalBlobStore.Touch | internal/grits/blobstore.go:367-380 | the blob counts as expired from the end of the duration on and not before, whatever it was; counts and other blobs stay |
| BlobStore.LocalBlobStore.Release | internal/grits/blobstore.go:394-431 | one reference less; at zero the blob is removed exactly if it has expired; the fatal branch is dead for callers that hold a reference |
| BlobStore.LocalBlobStore.EvictOldFiles | internal/grits/blobstore.go:509-540 | exactly the unreferenced, expired blobs go |
| BlobStore.LocalBlobStore.Scan | internal/grits/blobstore.go:132-190 | every blob found is loaded without references and with its stored expiry |
| Namespace.TookOne | internal/grits/namestore.go:2440-2452 | the counts are those from before the take plus the occurrences in the list of taken addresses |
| Namespace.UndidOne | internal/grits/namestore.go:2491-2506 | undoing one entry of that list keeps this so |
| Namespace.AllUndone | internal/grits/namestore.go:2491-2506 | with the list used up the counts are those from before |
| Namespace.NameStore.LoadFileNode | internal/grits/namestore.go:1125-1171 | the node is cached if its two blobs are there and its type is known; otherwise nothing is cached, and only an unknown type leaks |
| Namespace.NameStore.ActuallyLoadFileNode | internal/grits/namestore.go:1175-1241 | one reference on each blob on success, none on failure but the content blob of an unknown type |
| Namespace.NameStore.LoadUnknown | internal/grits/namestore.go:1197-1240 | in any state, two uploaded blobs that make a node of unknown type are left with one reference on the content that nobody holds |
| Namespace.NameStore.CreateTreeNode | internal/grits/namestore.go:1304-1372 | the directory's blobs are in the store and its node is cached once, whether or not it was before |
| Namespace.NameStore.ReleaseTaken | internal/grits/namestore.go:2491-2506 | the counts and node references from before the failed take are back |
| Namespace.NameStore.RecursiveTake | internal/grits/namestore.go:2440-2488 | counts stay exact with one hold more; it succeeds exactly if all below can be loaded, and a failure at any depth restores the counts from before |
| Namespace.NameStore.RecursiveRelease | internal/grits/namestore.go:2508-2549 | counts stay exact with one hold less; the fatal branches are dead |
| Namespace.NameStore.TakeNode | internal/grits/namestore.go:1897-1918 | one caller's reference more on a cached node |
| Namespace.NameStore.ReleaseNode | internal/grits/namestore.go:1920-1945 | one caller's reference less; it cannot fall below zero |
| Namespace.NameStore.ResolveFromLocal | internal/grits/namestore.go:443-572 | the walk over loaded nodes is the function `PathTree.Resolve` |
| Namespace.NameStore.RecursiveLink | internal/grits/namestore.go:891-978 | the recursion over loaded nodes is the function `PathTree.Link`, and writes just the new spine |
| Namespace.NameStore.CheckRequests | internal/grits/namestore.go:623-702 | every assertion is judged against the tree before the batch; the first failure is returned |
| Namespace.NameStore.BuildTree | internal/grits/namestore.go:711-730 | the links in order are the function `Requests.LinkAll` |
| Namespace.NameStore.Commit | internal/grits/namestore.go:795-817 | take, release, swap: counts exact, one serial number further; the branch for a failing release is dead; a failing take changes nothing |
| Namespace.NameStore.BuildResponse | internal/grits/namestore.go:744-780 | the response that is built over loaded nodes is the function `Requests.Response` of the new tree |
| Requests.ResponseMeaning | internal/grits/namestore.go:744-780 | the response has the requested paths and, where something is there, all on the way to them, no others and none twice; each entry is what the new tree has there, and what is gone is reported without an error |
| Namespace.NameStore.RespondAndCommit | internal/grits/namestore.go:741-817 | a tree that can be loaded is committed or, if a lookup callback objects, denied; one that cannot be loaded is unavailable unless a callback objects first; without a commit no count changes |
| Namespace.NameStore.MultiLink | internal/grits/namestore.go:612-820 | all or nothing, with or without results: a proposal that fails gives its own error; one that holds becomes the root, with its response and the next serial number, unless a lookup callback objects or blobs are missing, and each of these has its error and leaves root, serial number, holds and counts as before |
| Namespace.NameStore.Initialize | internal/grits/namestore.go:980-1014 | an empty root at serial number zero, held once |
| Namespace.NameStore.DeserializeNameStore | internal/grits/namestore.go:1023-1060 | the given root is held besides the initial empty one; fails exactly if part of it cannot be loaded |
| Namespace.NameStore.GetFileNode | internal/grits/namestore.go:384-400 | missing exactly if it cannot be loaded; too late exactly if cleanup runs before the take and nobody else counts or pins the node; otherwise one pin more on a cached node |
| Namespace.NameStore.GetTooLate | internal/grits/namestore.go:391-399 | in any state, a file just uploaded and not referred to is gone when cleanup runs before the take |
| Namespace.NameStore.Cleanup | internal/grits/namestore.go:2559-2598 | exactly the nodes that are neither pinned nor counted leave the cache and give back their blobs; the panic is dead |
| Namespace.NameStore.Evict | internal/grits/blobstore.go:509-540 | eviction by the store's worker takes exactly the unreferenced, expired blobs, none of a cached node, and keeps the whole invariant |
| Namespace.NameStore.ReachableIsKept | internal/grits/namestore.go:2559-2595 | whatever the root reaches is cached, counted, and has both blobs in the store with a positive count |
| Namespace.NameStore.CountedIsComplete | internal/grits/namestore.go:2440-2488 | everything below a counted node can be loaded |
| Namespace.NameStore.CountsMeaning | internal/grits/namestore.go:2433-2549 | an address is in the table exactly if a held root reaches it; its count is its holds plus its live links; a node's own count is its pins plus one if counted |
| Namespace.NameStore.BlobCountsMeaning | internal/grits/namestore.go:1190-1195 | a blob's count is what others hold plus one for its node and one for each node with that content |
| Permissions.SameCapabilities | internal/gritsd/module_auth.go:680-694 | a permission is the set of its capabilities |
| Permissions.MergeIsLeastUpperBound | internal/gritsd/module_auth.go:697-717 | merging is the least upper bound in the order of capabilities |
| Permissions.LevelMeaning | internal/gritsd/module_auth.go:1024-1063 | one directory's grants give a capability exactly if a matching one is worth it there |
| Permissions.EffectiveMeaning | internal/gritsd/module_auth.go:953-1063 | a path has a capability exactly if some matching grant above or at it is worth that to it |
| Permissions.OthersGrantsDoNothing | internal/gritsd/module_auth.go:895-936 | grants that name another user or origin, ask for a login the client lacks, have no origin or leave everything open make no difference to a client, wherever they stand |
| Permissions.LoneGrantGives | internal/gritsd/module_auth.go:895-1063 | a lone grant that is not for others gives, at its own directory and at every one below, just what the rules of inheritance say its permission is worth there |
| Permissions.WaysToName | internal/gritsd/module_auth.go:895-936 | a user, a login, everybody or a named origin: each way of naming a client gives it the permission, and direct navigation passes any origin |
| Permissions.ResolvePermissionAtRoot | internal/gritsd/module_auth.go:953-1063 | the three-bucket loops compute the one-pass recursion down the path |
| Permissions.MoreGrantsNeverHurt | internal/gritsd/module_auth.go:1024-1063 | adding grants anywhere never lowers a permission |
| Permissions.OrderIsIrrelevant | internal/gritsd/module_auth.go:1024-1063 | neither the order nor the repetition of grants matters |
| Permissions.OnlyPrefixesMatter | internal/gritsd/module_auth.go:980-1022 | only access files at and above a path matter to it |
| Permissions.ReadReachesDown | internal/gritsd/module_auth.go:1024-1045 | reading a directory extends to every descendant |
| Permissions.WriteOwnsChildren | internal/gritsd/module_auth.go:1024-1045 | writing a directory makes one the owner of every child, save a child named .grits below a directory other than the root |
| Permissions.OwnerReachesDown | internal/gritsd/module_auth.go:1024-1063 | owning a directory extends to everything below it, .grits directories included |
| Permissions.GritsIsOwnersOnly | internal/gritsd/module_auth.go:1004-1063 | at a directory named .grits only an owner can write |
| Permissions.LoneWriterReadsGrits | internal/gritsd/module_auth.go:1004-1063 | below a directory other than the root, a lone read+write grant gives only read on its .grits |
| Permissions.InsertIsLocal | internal/gritsd/module_auth.go:1024-1063 | inserting without writing takes a matching grant in the directory's own access file |
| Permissions.LoneInsertApplies | internal/gritsd/module_auth.go:1004-1063 | a lone matching insert grant lets one insert at the directory that holds it if and only if that is not the root |
| Confinement.LinkCallback | internal/gritsd/module_auth.go:1133-1172 | no denial exactly if every request has write permission, or inserts where the old tree has nothing; else the path denied is that of the first request that has neither |
| Confinement.BackendIsTrusted | internal/gritsd/module_auth.go:1066-1080 | the backend is the owner of everything |
| Confinement.AccessFileGrants | internal/gritsd/module_auth.go:833-895 | the file .grits/access.json of a directory gives a client the permission of its grant there, if the grant is not for others |
| Confinement.NothingByDefault | internal/gritsd/module_auth.go:953-1022 | where no access file is, no client may do anything |
| Confinement.MultiLinkIsStep | internal/grits/namestore.go:732-739 | under the callback a batch leaves the root alone or is an approved one |
| Confinement.UnrelatedUnchanged | internal/grits/namestore.go:717-730 | paths that no request is at, above or below keep their address |
| Confinement.ChangesAreConfined | internal/gritsd/module_auth.go:1133-1172 | over any run, an address can change only at, above or below a path that the tree of that moment let the principal write or newly insert |
| Confinement.AccessPreserved | internal/gritsd/module_auth.go:833-895 | while what is protected stays, every existing directory keeps its grants |
| Confinement.ProtectedIsDenied | internal/gritsd/module_auth.go:1133-1172 | a client that could at first neither write nor supply an access file is denied at every protected path, however the tree has grown |
| Confinement.InsertersNeverEscalate | internal/gritsd/module_auth.go:1133-1172 | over any run, a client that may at first write nowhere and insert into no .grits without an access file never changes or removes what existed, nor anyone's permissions there; directories at most gain names |
| Confinement.InsertOnlyIsExact | internal/gritsd/module_auth.go:1133-1172 | that condition is met if and only if no link of a new file that the client may make changes what is protected |
| Confinement.GritsInserterEscalates | internal/gritsd/module_auth.go:1133-1172 | granted no more than to insert into d/.grits, where no access file is, a client may link d's access file |
| BlobDisk.PathRoundTrip | internal/grits/blobstore.go:104-115 | stripping the separators undoes the sharding |
| BlobDisk.PathIsInjective | internal/grits/blobstore.go:104-115 | no two blobs share a file |
| BlobDisk.ShardWidths | internal/grits/blobstore.go:104-115 | the file of an identifier is below a directory named by its first three characters and one named by the fourth |
| BlobDisk.ScanFinds | internal/grits/blobstore.go:132-190 | a scan finds exactly the blobs of the table |
| BlobDisk.ForeignFilesIgnored | internal/grits/blobstore.go:132-150 | files whose names do not start with Qm are passed over |
| BlobDisk.StepKeepsInv | internal/grits/blobstore.go:192-431 | every operation keeps table and disk equal, content under its own name, and counts equal to the references handed out |
| BlobDisk.HandlesAfter | internal/grits/blobstore.go:192-431 | every step hands out or takes back exactly the references that it should, a blob comes in by adding it alone |
| BlobDisk.CallersMay | internal/grits/blobstore.go:192-431 | every blob can be read and added, and what a caller holds can be touched, taken again and given back |
| BlobDisk.UntouchedGoes | internal/grits/blobstore.go:326-431 | a blob that nobody has touched is gone with its last reference |
| BlobDisk.HeldIsOnDisk | internal/grits/blobstore.go:394-431 | at every point of every run, a blob somebody holds is in the table with a positive count and on disk |
| BlobDisk.LeavesExactlyExpired | internal/grits/blobstore.go:408-540 | a blob leaves exactly when its last reference is released, or it is evicted without one, and it has expired |
| BlobDisk.TouchedStays | internal/grits/blobstore.go:367-380 | on every run a touched blob stays in the table and on disk, through releases, evictions and restarts, until its time is over or it is touched again |
| BlobDisk.RestartRecovers | internal/grits/blobstore.go:132-190 | a restart recovers the same blobs without references, and what had expired stays expired |
| BlobCache.BlobCache.Get | internal/grits/blobcache.go:59-172 | the caller gets one reference and the cache owns one for each of its blobs; the tracked size grows only for fetched blobs |
| BlobCache.BlobCache.TakeOut | internal/grits/blobcache.go:211-236 | the entries that go are the shortest run, oldest first, that brings the tracked size to the target, or all |
| BlobCache.BlobCache.PerformCleanup | internal/grits/blobcache.go:189-249 | that run leaves the cache, each of its blobs is given back once, and callers' references are untouched |
| BlobCache.ByAge | internal/grits/blobcache.go:192-208 | all entries once, least recently used first |
| BlobCache.DroppedFrom | internal/grits/blobcache.go:239-241 | releasing an owned blob takes just the cache's reference away |
| SingleFlight.StepKeepsInv | internal/grits/namestore.go:1125-1241 | every step of every thread, and cleanup, keeps the protocol's invariant |
| SingleFlight.OneLoadPerAddress | internal/grits/namestore.go:1140-1149 | at most one load of an address is in flight |
| SingleFlight.SleeperHasLoader | internal/grits/namestore.go:1155-1169 | a sleeping waiter always has a running load that is still to broadcast |
| SingleFlight.NodeOwnsItsBlobs | internal/grits/namestore.go:1175-1241 | a cached node owns exactly one reference on each of its blobs |
| SingleFlight.QuietOwnership | internal/grits/namestore.go:1175-1241 | with no load under way, every reference belongs to a cached node or was leaked by an unknown type |
| SingleFlight.FailureLeavesNothing | internal/grits/namestore.go:1152-1158 | a failed load leaves no entry and, but for an unknown type, no reference |
| SingleFlight.SameNodeForAll | internal/grits/namestore.go:1134-1171 | all successful calls between two evictions of an address return the same node |
| SingleFlight.CallResult | internal/grits/namestore.go:1125-1241 | on every run, a call returns nothing only after a failed read, or an unknown type, in a load of its own since the call; otherwise it returns a node for its address that is cached as it returns |
| SingleFlight.CallSucceeds | internal/grits/namestore.go:1125-1241 | where no read for a node goes wrong, every call for it that returns gets it |
| SingleFlight.LoadWorks | internal/grits/namestore.go:1140-1241 | a thread that is idle can call for a node that is not cached, and when the two reads succeed it is cached and returned |
| SingleFlight.EvictionFrees | internal/grits/namestore.go:2575-2594 | an evicted node leaves the cache with its own two references and no others |
| SingleFlight.StepsRunOut | internal/grits/namestore.go:1134-1171 | every step of a call brings the end of all pending calls nearer |
| SingleFlight.NeverStuck | internal/grits/namestore.go:1134-1171 | while a call is pending some thread can move |
| Radix.NumeralIsUnique | client/lib/grits/GritsClient.js:147-168 | a digit sequence without leading zeros is the only one of its value |
| Radix.ConvertBack | client/lib/grits/GritsClient.js:147-168 | changing the base with leading zeros kept, and changing it back, gives every digit sequence again |
| Base58.ReservedSuffices | client/lib/grits/GritsClient.js:150 | the reserved digits hold every value of n bytes: 256^n < 58^(floor(138n/100)+1) |
| Base58.CarryStep | client/lib/grits/GritsClient.js:155-160 | one turn of the carry loop leaves the number it works on the same |
| Base58.AddByte | client/lib/grits/GritsClient.js:153-162 | in place, the digits become 256 times themselves plus the byte; the last carry is zero |
| Base58.FillDigits | client/lib/grits/GritsClient.js:150-162 | the array's base-58 value is the buffer's base-256 value |
| Base58.Encode | client/lib/grits/GritsClient.js:147-168 | exactly the base-58 numeral with a '1' for each leading zero byte; decoding undoes it |
| Base58.DecodeThenEncode | client/lib/grits/HashVerifier.js:14-35 | only one text decodes to given bytes |
| Base58.ComputeCid | client/lib/grits/GritsClient.js:170-176 | every identifier of a 32-byte digest has 46 characters, starts with Qm, matches the server's address pattern and decodes to its digest |
| Base58.Verify | client/lib/grits/HashVerifier.js:60-78 | content is accepted exactly for the identifier that decodes to its digest |
| Coalescing.PutOnBoth | client/lib/grits/GritsClient.js:373-441 | two volumes that agree but for pending paths still do after both take the next entry |
| Coalescing.CoalescingKeepsMeaning | client/lib/grits/GritsClient.js:373-384 | skipping any superseded entries leaves the same volume as applying all in order, if only directories replace the root |
| Coalescing.UnsafeWritesBreakCoalescing | client/lib/grits/GritsClient.js:373-384 | every other write has a queue in which skipping changes the outcome |
| Coalescing.NewestDecides | client/lib/grits/GritsClient.js:298-311 | the newest entry at or above a path, once taken, decides whether a file, a directory or nothing is there |
| Coalescing.UntouchedEntry | client/lib/grits/GritsClient.js:298-311 | entries not at or above a path leave the file, the directory or the absence there |
| Addresses.KnownMeaning | client/lib/grits/GritsClient.js:298-311 | a known address decides the path map there and below |
| Addresses.TakeInStep | client/lib/grits/GritsClient.js:388-396 | a tree that agrees with the writes in order, on the map and in addresses but for what pending writes decide, still does when the server deals with the next |
| Addresses.TakeAgainInStep | client/lib/grits/GritsClient.js:432-436 | so it does when the server deals with a write again whose answer got lost |
| Addresses.SkipInStep | client/lib/grits/GritsClient.js:378-384 | so it does when a superseded write is skipped |
| Addresses.OverrideIsFinal | client/lib/grits/GritsClient.js:967-973 | the address that the newest write at or above a path gives it is the one after all writes, unless a later write is taken below the path, and then no address is determined |
| DesyncQueue.ServeMeaning | client/lib/grits/GritsClient.js:614-667 | the server links an entry exactly if the path map takes it and no callback objects, reports a missing parent exactly if the map does not and no file is in the way, and refuses it exactly if a file is in the way or a callback objects; then the volume stays as it is |
| DesyncQueue.DeniedExactly | internal/gritsd/module_auth.go:1133-1172 | under the link callback, the writes denied are exactly those that the map takes at a path the principal may not link |
| DesyncQueue.ServeTakes | client/lib/grits/GritsClient.js:614-667 | a write dealt with replaces what is at and below its path, addresses included, and leaves every address not above, at or below |
| DesyncQueue.HeadInNewest | client/lib/grits/GritsClient.js:378-384 | the head's override is current exactly if nothing newer is queued for its path |
| DesyncQueue.DesyncQueue.Enqueue | client/lib/grits/GritsClient.js:338-346 | the entry gets the next sequence number, is queued last and becomes its path's override |
| DesyncQueue.DesyncQueue.FlushNext | client/lib/grits/GritsClient.js:373-384 | the head is dropped exactly if a later entry has its path, and its waiters are told |
| DesyncQueue.DesyncQueue.ServerHandles | client/lib/grits/GritsClient.js:388-396 | the server does with the item in flight what `MultiLink` does, whether or not it has before; addresses not above, at or below its path stay |
| DesyncQueue.DesyncQueue.FlushDone | client/lib/grits/GritsClient.js:397-437 | an answered item leaves the queue, with its override only if still current; after any other reply it stays, even if the server has applied it |
| DesyncQueue.DesyncQueue.Turn | client/lib/grits/GritsClient.js:373-437 | whatever the callbacks, with the answer getting through the head leaves the queue exactly if it is superseded, or neither blocked nor denied; a head that stays leaves the server as it was |
| DesyncQueue.DesyncQueue.RetryRefused | client/lib/grits/GritsClient.js:432-436 | after any number of turns a head that goes on being refused and that nothing supersedes is still the head, and queue and server are the same |
| DesyncQueue.FileBlocksBelow | client/lib/grits/GritsClient.js:614-667 | where a file is, writes below it are blocked |
| DesyncQueue.StuckQueue | client/lib/grits/GritsClient.js:338-437 | in any volume, a file linked at p and then anything at p/n leave a blocked head that nothing supersedes |
| DesyncQueue.DeniedQueue | client/lib/grits/GritsClient.js:432-436 | in any volume, a link at a path that the client may not link is still queued after any number of turns |
| DesyncQueue.DesyncQueue.FindAncestorOverride | client/lib/grits/GritsClient.js:298-311 | the newest of all entries ever enqueued at or above the path, if one is pending |
| DesyncQueue.DesyncQueue.LookupOverride | client/lib/grits/GritsClient.js:967-974 | the answer from a pending write is right when it is an address, and when it is absent unless the server failed; with the target cached it is an address exactly if the write has one there |
| DesyncQueue.DesyncQueue.FindDescendantSeq | client/lib/grits/GritsClient.js:314-325 | the highest sequence number pending at or below the path, or -1 if there is none |
| DesyncQueue.DesyncQueue.WaitForDescendants | client/lib/grits/GritsClient.js:840-847 | the number waited for is the highest pending at or below the directory, and is still queued |
| DesyncQueue.DesyncQueue.Drained | client/lib/grits/GritsClient.js:438-440 | a drained queue has no overrides and no waiters, and the server has what applying every entry in order gives |
| DesyncQueue.DesyncQueue.ServerIsCurrent | client/lib/grits/GritsClient.js:967-989 | where nothing is pending at or above a path, the server has there already the file, the directory or the absence that it will have in the end |
| DesyncQueue.DesyncQueue.AddressIsSettled | client/lib/grits/GritsClient.js:967-989 | where nothing is pending at, above or below a path, the server has there the very address it will have in the end, so far as that is determined |
| DesyncQueue.DesyncQueue.ReadWasRight | client/lib/grits/GritsClient.js:967-974 | the answer from a pending write is what the drained server has, if the write was taken and no later one was taken below the path |
| DesyncQueue.DesyncQueue.ReadWasWrong | client/lib/grits/GritsClient.js:967-974 | an answer is not what the drained server has if anything below the path came out differently |
| DesyncQueue.StaleRead | client/lib/grits/GritsClient.js:1059-1069 | in any volume, a directory linked at p, read, and then a file linked in it: the read answers an address that p does not have in the end |
| FastWalk.FastWalk | client/lib/grits/GritsClient.js:1142-1207 | the walk ends where the path does, the cache gives out or a segment is no entry, and its result is the hit, the point reached with the rest of the path, the error, or astray, according to what is there |
| FastWalk.WalkIsDetermined | client/lib/grits/GritsClient.js:1142-1207 | cache, start and path determine the result |
| FastWalk.HitsExactly | client/lib/grits/GritsClient.js:1142-1207 | the walk hits exactly where the node and all that is read on the way to it are cached |
| FastWalk.AgreesWithServer | client/lib/grits/GritsClient.js:1142-1207 | a hit is what the server's walk finds from the same root; an error, a path where it finds nothing |
| FastWalk.PartialAgreesWithServer | client/lib/grits/GritsClient.js:1157-1187 | from the point reached, the server finds for the rest what it finds for the whole path |
| FastWalk.AllCached | client/lib/grits/GritsClient.js:1155-1190 | with all cached the walk is never partial, hits exactly what exists, and goes astray exactly if the first name that is missing is an inherited one, looked up in a directory |
| FastWalk.ConstructorIsMisread | client/lib/grits/GritsClient.js:1175-1187 | in any cached directory without an entry constructor, looking it up goes astray instead of failing |
| FastWalk.MiniRoots.Ingest | client/lib/grits/GritsClient.js:1279-1294 | the mini-roots form an antichain, cover every successful path, and have the addresses of the response |
| FastWalk.MiniRoots.Find | client/lib/grits/GritsClient.js:945-957 | a usable root at or above the path if there is one; it is the only match |
| FastWalk.MiniRootWalk | client/lib/grits/GritsClient.js:1142-1153 | a walk from a mini-root says about the whole path what it says about the rest |
| FastWalk.WalkFromMiniRoot | client/lib/grits/GritsClient.js:991-1018 | with mini-roots that are in a tree, the walk from the one found is right about the whole path in that tree |
| FastWalk.LookupAfterResponse | client/lib/grits/GritsClient.js:1279-1294 | after a true response about a tree, a hit is what the server finds in it for the whole path and an error a path where it finds nothing; a path found in the response has a mini-root exactly until it times out |
| Diff.ReportedInBoth | client/lib/diff/main.js:67-82 | what is to be reported below a common name is what is to be reported for the two children |
| Diff.ReportedInOne | client/lib/diff/main.js:76-79 | below a name of one side, every existing path is to be reported |
| Diff.Recursive | client/lib/diff/main.js:67-82 | with the recursive option a path is reported when the sides differ there, not as two directories, and every pair of nodes on the way is one of directories |
| Diff.NotRecursive | client/lib/diff/main.js:67-73 | without it, only the two addresses are compared |
| Diff.LinesInOne | client/lib/diff/main.js:77-91 | the lines for a one-sided subtree are its root and its full listing |
| Diff.Miss | client/lib/diff/main.js:85-91 | every path strictly inside the subtree once, with its address in the left column |
| Diff.Compare | client/lib/diff/main.js:67-83 | the lines added are exactly those of a comparison that prunes nothing, each path once |
| ModuleOrder.DependencySort.Visit | internal/gritsd/modules.go:358-378 | the depth-first search keeps the order on any graph, with every module of its stack leading to the one visited |
| ModuleOrder.DependencySort.VisitedIsSorted | internal/gritsd/modules.go:366-378 | what is visited but not placed leads back to the module at hand |
| ModuleOrder.SortModulesByDependency | internal/gritsd/modules.go:343-385 | a permutation in which every dependency that does not lead back to its module comes first; a list already in order stays as it is |
| ModuleOrder.CompleteFor | internal/gritsd/modules.go:286-336 | a module's dependencies are met, or the first that cannot be is named |
| ModuleOrder.ResolveModuleDependencies | internal/gritsd/modules.go:273-340 | it ends although the list grows, adds only what is needed, and succeeds exactly if every required or auto-created dependency exists |

## Left out

- Namespace.NameStore.MultiLink: link callbacks are one function `approve` and lookup callbacks one function `respond`; a response's size and content hash are not modelled.
- Namespace.NameStore.Valid: the dense reference manager's table is a field of the name store, and its list of taken addresses is a value passed in and out, not a shared pointer.
- Namespace.NameStore.LoadFileNode: errors on reading a blob, on parsing it and on an unknown type are one error, `Unavailable`; disk calls succeed. Its interleaving with other threads is in `SingleFlight`.
- Namespace.NameStore.RecursiveLink: a directory listing that does not parse is an error on every visit; in the source a listing with a bad child address is one on the first visit only, and is read in part on later ones (internal/grits/namestore.go:2025-2032). Such a tree cannot be committed.
- Namespace.NameStore.GetFileNode: between the load and the take only a cleanup can run, not other calls.
- Requests.MultiLinkMeaning: claimed for normal paths; the path `.`, which `MultiLink` takes for the root and the callback for a name, and raw paths of slashes are outside it.
- Confinement.LinkCallback: assumes that the old tree can be loaded in full, as `NameStore.Valid` guarantees.
- Permissions.ResolvePermissionAtRoot: access files are parsed and origins resolved by a parameter.
- SingleFlight.SameNodeForAll: does not model `CreateTreeNode` replacing the entry of a load in flight (internal/grits/namestore.go:1347-1366).
- BlobCache.BlobCache.Get: one call at a time, so requests in flight are not modelled; the target size is nine tenths rounded down, without floating-point rounding; sorting is a selection of the oldest entry.
- BlobCache.BlobCache.PerformCleanup: the tracked size is not claimed to be the sum of the sizes, since a blob found in the store is added without it.
- BlobDisk.RestartRecovers: the validation of blobs at start-up and empty shard directories are not modelled.
- Coalescing.NewestDecides: says what the path map has, in which a directory has no address; for addresses see `Addresses.OverrideIsFinal`.
- Coalescing.UntouchedEntry: likewise; for addresses see `Addresses.UnrelatedAddress`.
- DesyncQueue.DesyncQueue.ServerIsCurrent: likewise; for addresses see `AddressIsSettled`.
- DesyncQueue.DesyncQueue.LookupOverride: the wait for writes below the path is `WaitForDescendants`; other writes may be enqueued meanwhile.
- DesyncQueue.DesyncQueue.Turn: says what a turn does when the answer gets through; that a connection comes back at all is not modelled.
- DesyncQueue.DesyncQueue.FlushDone: writes are unconditional and from one writer; console output, the pause before a retry, local assertion checks and failing assertions are not modelled, and the server is assumed to hold what it is asked to link.
- FastWalk.FastWalk: a directory whose listing is the metadata of a node sends its keys astray, also the few whose value is empty or leads on to a blob; no tree built by the server holds one. An aborted walk, the race with the slow lookup and prefetching are not modelled; caches differ only in which blobs they hold.
- Diff.Compare: the order of the lines (by name) and the text form of a path are not modelled, and both trees can be loaded.
- ModuleOrder.ResolveModuleDependencies: a missing configuration generator, one that fails and a module that cannot be created are one failure of `create`; hooks and the table of volumes are not modelled.
- The sparse reference manager, fetchers and remote volumes: their takes and releases do nothing, and the rest is I/O.
- Watchers, debug dumps, statistics, logging and rate limiting.
- JSON and SHA-256: encoding is taken as invertible and hashing as collision-free; Base58 itself is modelled.
- `ValidateContentExists`: it has no effect in a dense store.
- HTTP handlers, FUSE, TLS, DNS, the command socket and all user interface code.
