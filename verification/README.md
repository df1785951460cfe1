# A verified model of LunarFS

LunarFS keeps files as blobs in a content-addressed store, directories as tree objects in the
same store, and builds per-agent overlays, merging and synchronisation on top. This project
models the logic of those parts in Dafny and proves what they promise.

| module | models |
|---|---|
| `Base`, `Text`, `Utf8`, `Hex` | bytes and text as Rust strings are, searching and replacing, decimal integers, UTF-8 and its lossy conversion, hexadecimal |
| `TreeCodec` | the byte format of tree objects |
| `Merkle`, `Cas` | blob stores and the trees they hold, unfolded |
| `Index`, `Diff`, `Sync` | the three walks over Merkle trees: path index, pruned diff, push and pull |
| `PatchText`, `OverlayPatch`, `RenderPatch` | the unified-diff printer, with a reader of its output, and its two callers |
| `ConflictName`, `Merge`, `RefStore`, `Reconcile`, `PutRef` | three-way merge, the compare-and-swap retry loop run by many writers, the server's ref protocol |
| `Ids` | the NFS file-id table (file ids as section 2.5 of RFC 1813 asks for them) |
| `Overlay`, `Listing` | copy-on-write reads and writes, directory listing and stat |
| `Presign`, `AutoSync`, `LiveSync` | the stub URL, the auto-sync engine, live and polling reconciliation |

Code that changes state step by step is a method with its loops, or a class with its fields,
proved against a function of the inputs or of the old state; the promises are then lemmas about
that function, about every reachable state, or about every run. Concurrent code is also a
state machine whose actions are its atomic steps, interleaved without restriction.

How the outside is represented: the digest is any function from bytes to 32 bytes, and where a
result needs two blobs under one hash to be the same blob it says so of the blobs at hand. The
keyed signature is any function. Clocks, watchers, remote answers, hash-map orders and the
order in which transfers finish are parameters or free choices, so results hold for all of
them. A hash unfolds to at most one finite tree; what a walk finds is compared with that tree
for stores that hold all of it, and what it went through is accounted for over any store.

Where the code does not keep a promise for every input, the exact condition is proved, often with an
input that fails: see `PruningIsExactIff`, `OrderIrrelevantIff`, `NothingIsLostIff`,
`SubtreeMovesIff`, `VisibleMoveIff`, `SafeIff`, `RefusedRootsStayIff`, `ViewKindsAgreeIff`,
`ResolvesBelowBaseIff`, `PatchReadsBackIff`, `TextsSurviveIff` and `PollingFallback.Tick`.

Where the code and its own comments differ, the code is followed. The comment at
src/serve.rs:496 calls a request without expected root a create-if-absent, but src/serve.rs:738-748
writes unconditionally. `intern` at src/nfs/ids.rs:139-163 takes a kind with every path but keeps
the kind of the first time.

Verify with `dafny verify dfyconfig.toml`.

## Model

| member | source | states |
|---|---|---|
| `TreeCodec.DeserializeTree` | src/tree.rs:33-74 | The decoding loop returns what the record-by-record decoder of the whole object returns, errors (truncated header or body, bad UTF-8, a 65537th entry) included. |
| `TreeCodec.DecodeSucceedsExactlyOn` | src/tree.rs:33-74 | Decoding succeeds with entries `es` if and only if the bytes are the concatenation of those records, each name is UTF-8 and there are at most 65536. |
| `TreeCodec.DecodingStopsAt` | src/tree.rs:33-74 | After any good records, the error is fixed by what follows: fewer than 8 bytes, fewer than the record announces, a name that is not UTF-8, or a 65537th record. |
| `TreeCodec.RecordLayout` | src/tree.rs:15-31 | A record is mode and name length as little-endian 32-bit numbers, the name, and 32 bytes of hash. |
| `TreeCodec.SerializeTree` | src/tree.rs:17-31 | The writing loop emits the records of the sorted entries: the same entries as given, each name a prefix of every later one or smaller at the first byte where the two differ. |
| `TreeCodec.SortSpec` | src/tree.rs:18-19 | The sort is a stable permutation into byte order of names: under each name the same entries in the same order. |
| `TreeCodec.NameLeMeans` | src/tree.rs:19-19 | The order on names is byte order: a prefix first, else the smaller byte at the first difference. |
| `TreeCodec.SerializeRoundTrip` | src/tree.rs:17-74 | Decoding an encoded tree gives its entries sorted by name, if and only if every name fits the 32-bit length field and is UTF-8 and there are at most 65536 entries. |
| `TreeCodec.ReencodeRoundTrip` | src/tree.rs:17-74 | Re-encoding a decoded object gives back the same bytes if and only if its records stood in name order. |
| `TreeCodec.EncodingIgnoresOrder` | src/tree.rs:17-31 | Two listings of the same distinct-named entries have the same encoding. |
| `Hex.BytesToHex` | src/presign.rs:100-106 | The loop writes two lower-case digits per byte. |
| `Hex.EncodeText` | src/presign.rs:100-106 | The two digits of a byte are its quotient and remainder by 16, in `0123456789abcdef`. |
| `Hex.HexToBytes` | src/presign.rs:108-119 | The loop reads back pairs of digits of either case; odd lengths and other characters fail. |
| `Hex.DecodeMeans` | src/presign.rs:108-119 | Exactly the texts of whole pairs of digits of either case are read, each pair as the number it writes. |
| `Hex.HexToHashLoop` | src/cas.rs:20-34 | Exactly the 64-character texts of readable pairs give a hash. |
| `Hex.HashIsRead` | src/cas.rs:20-34 | Exactly the texts of 32 such pairs are read, where a plus sign may stand for a leading zero, as `u8::from_str_radix` has it. |
| `Hex.HashRoundTrip` | src/cas.rs:12-34 | Every hash written as hex reads back as itself. |
| `Hex.HexCanonicalIff` | src/cas.rs:12-34 | A readable text is what its hash is written as if and only if it is lower-case digits only: upper case and pairs such as `+f` are read too. |
| `Utf8.LossyFixesOnlyIllFormed` | src/patch.rs:58-61 | The lossy conversion leaves a text as it is if and only if it is well-formed UTF-8 (section 4 of RFC 3629). |
| `Utf8.LossyAtAscii` | src/patch.rs:58-61 | Converting line by line is converting the whole: the conversion splits at every ASCII byte. |
| `Utf8.ValidIff` | src/patch.rs:58-61 | The byte table accepts exactly the concatenations of encodings of Unicode scalar values. |
| `Utf8.LossyMeans` | src/patch.rs:58-61 | The lossy conversion keeps each encoded scalar value and puts U+FFFD for each ill-formed piece. |
| `Utf8.BadPieceIsMaximal` | src/patch.rs:58-61 | Such a piece is one byte, or the longest beginning of some scalar value's encoding. |
| `Cas.MemStore.Put` | src/cas.rs:125-130 | A blob is stored under its digest, an existing one is kept, and every stored blob still hashes to its key. |
| `Cas.HydratingStore.Get` | src/cas.rs:197-224 | A blob handed out was local or hashes to what was asked for and is kept; a wrong remote answer is an error and leaves the local store unchanged. |
| `Merkle.UnfoldsUnique` | src/tree.rs:33-74 | A hash stands for one tree only: two unfoldings of one hash of one kind from one store are equal. |
| `Index.Build` | src/index.rs:12-61 | On a complete tree of proper names the stack walk fails exactly when the unfolded tree has more than 65536 directories; otherwise it binds exactly the file paths, each with its blob hash and true byte length, and no directory. Over any store a result accounts for exactly the entries of the directories met, and a failure is the 65537th directory or what is wrong with the one at hand. |
| `Index.RenderInjective` | src/index.rs:36-56 | Different paths of non-empty, slash-free names are different index keys. |
| `Index.RenderIsSlashed` | src/index.rs:36-56 | A key is the path's names with one slash between each two. |
| `Diff.DiffTrees` | src/patch.rs:315-547 | On two complete trees the worklist fails only beyond 262144 unfolded directories; else it names each path at most once and lists exactly the changes (kind, sizes, blobs) outside subtrees both sides share by hash. Equal roots load nothing, and every load is at a path where the two sides differ, as they do at every path above it. Over any store a result accounts for exactly the names of the directories met, its blobs are stored and its sizes are their lengths, and a failure is the 262145th turn or a tree or blob the turn at hand cannot read. |
| `Diff.CompareDirs` | src/patch.rs:343-496 | One pair of directories: names of both sides, then only of the old, then only of the new; coverage is kept and the unfolded work left never grows. |
| `Diff.CompareShared` | src/patch.rs:376-453 | The names both sides list are settled, and exactly the names of one side only are left. |
| `Diff.AddEntries` | src/patch.rs:498-519 | A directory only the new side has is added file by file, subdirectories go on the stack. |
| `Diff.DeleteEntries` | src/patch.rs:521-542 | The same for a directory only the old side has. |
| `Diff.DoItem` | src/patch.rs:334-545 | One turn of the worklist keeps what is covered by stack and changes together and the bound on the work left, and accounts for its item; it fails only for a tree or blob of that item, never on complete trees. |
| `Diff.PruningIsExactIff` | src/patch.rs:393-395 | Not descending at equal hashes loses no change if and only if no path is a file on one side and a directory on the other under one hash. |
| `Diff.SeenListIsExactIff` | src/patch.rs:393-395 | So the reported list is the whole difference of the two flattened trees if and only if kinds are consistent. |
| `Diff.ReportedChangeMeans` | src/patch.rs:393-496 | A reported path is Added, Deleted or Modified as the two flattened maps have it, with their hashes and the stored blobs' byte lengths. |
| `Diff.DifferenceIsReported` | src/patch.rs:315-547 | A path that is in either map and not below or at a hash both sides share is reported exactly once. |
| `Diff.ApplyingGivesNewTree` | src/patch.rs:315-547 | Applying an exact change list to the old path-to-hash map gives the new one. |
| `Diff.ApplyingSeenIff` | src/patch.rs:315-547 | Applying what the walk reports gives the new map if and only if kinds are consistent. |
| `Diff.EmptyFileToEmptyDirIsLost` | src/patch.rs:393-395 | The exception is real: replacing an empty file by an empty directory of the same name is not reported. |
| `Sync.CollectAllHashes` | src/sync.rs:206-247 | The walk returns reachable hashes only, each once, and all of them when no hash is reached both as a file and as a non-empty directory; it fails only for more than 65536 reachable hashes or for a reachable directory that is absent or does not decode, naming it, and under the same condition a success has read every one. |
| `Sync.FileFirstHidesSubtree` | src/sync.rs:214-217 | Why that condition is there: an object reached first as a file and then as a directory hides everything below it. |
| `Sync.SweepDone` | src/sync.rs:206-247 | A finished walk has visited only reachable hashes, and under the same condition every one of them. |
| `Sync.EverythingReads` | src/sync.rs:229-241 | In a complete tree every reachable blob is stored and every reachable directory decodes. |
| `Sync.UploadMissing` | src/sync.rs:123-144 | In whatever order the uploads finish, on success every listed blob is on the server, the count is the number of blobs new there, and nothing there was replaced; a failure names an absent or corrupt local blob. |
| `Sync.PushCas` | src/sync.rs:113-152 | After the call every reachable blob is on the server, where the root flattens to the same files as locally; only then the ref moves, or, when it holds another root than expected, stays while the pushed root is kept under a conflict ref and nothing else changes. From an intact tree the call fails only if more than 65536 hashes are reachable. |
| `Sync.VisitItem` | src/sync.rs:280-316 | One item of the download walk: a directory is fetched and checked against its hash unless local, a missing file is queued. |
| `Sync.WalkTree` | src/sync.rs:262-317 | The first phase visits what is reachable; afterwards each visited hash is local or queued, and a failure names a reachable directory that is absent, corrupt or undecodable. |
| `Sync.FetchFiles` | src/sync.rs:319-337 | The queued blobs arrive in any order; what was added is the server's and hashes to its name. |
| `Sync.FetchTreeBlobs` | src/sync.rs:255-340 | Whatever part was local before, on success everything reachable from the root is local with the server's bytes; for an intact tree it fails only for its size. |
| `Sync.Pull` | src/sync.rs:192-198 | A pulled workspace flattens to the same files locally as on the server; it fails only for a missing ref, a tree that is not intact, or its size. |
| `Sync.ArrivedTreeIsSame` | src/sync.rs:255-340 | A tree all of whose blobs arrived unfolds to the same tree. |
| `Sync.SameReach` | src/sync.rs:206-247 | Two stores that agree and both hold a complete tree reach the same hashes from its root. |
| `Sync.Server.PutBlob` | src/serve.rs:512-547 | A body is stored only under its own digest and never replaces a stored blob. |
| `Sync.Server.PutRef` | src/serve.rs:693-883 | One request at a time: the ref is set exactly when nothing else was expected; a refused root goes to its conflict ref and the workspace's ref keeps what it had. |
| `ConflictName.CopyNameInvertible` | src/merge.rs:45-59 | The original path can be computed from the copy's name, for every path and every suffix. |
| `ConflictName.CopyNameInjective` | src/merge.rs:45-59 | So two conflicting paths never share a copy name, whatever the suffix and with or without directory, extension or leading dot. |
| `ConflictName.CopyIsElsewhere` | src/merge.rs:45-59 | A copy never has its original's name, whatever the suffix. |
| `ConflictName.CopyNameIs` | src/merge.rs:39-59 | The copy's name is directory, stem, ` (conflicted copy `, suffix, `)`, extension, for every path; a leading dot starts no extension. |
| `ConflictName.CopyTellsSuffix` | src/merge.rs:58-58 | Different suffixes give different copies. |
| `Merge.ApplyConflict` | src/merge.rs:147-195 | Convergence and a local deletion take the winner; a differing local content goes to the conflict copy, and the path is recorded. |
| `Merge.MergeSnapshots` | src/merge.rs:74-144 | The loop over a hash set is the per-path rule folded over some order of all paths, with its outcomes and conflicts in that order. |
| `Merge.OutcomesMean` | src/merge.rs:106-143 | The action recorded for a path, from its three contents. |
| `Merge.ConflictsMean` | src/merge.rs:147-195 | The conflict list is the paths of the recorded copies, in their order. |
| `Merge.MergedContents` | src/merge.rs:106-195 | With fresh copy names the whole result: a path has the winner's content if the winner changed it and the local one otherwise, a conflict's copy has the local content, and nothing else is there. |
| `Merge.OrderIrrelevantIff` | src/merge.rs:106-135 | The merged snapshot is the same for every visiting order if and only if no two paths write different content to one place. |
| `Merge.FreshCopiesDoNotClobber` | src/merge.rs:178-188 | Copy names that are not paths already, which a caller can check beforehand, are enough for that. |
| `Merge.NothingIsLostIff` | src/merge.rs:106-195 | For every visiting order: each content either side newly wrote is in the result, the winner's at its own path, the local one there or at its copy, and what neither touched stays, if and only if no two paths write different content to one place. |
| `Merge.NothingIsInvented` | src/merge.rs:106-195 | Every entry of the result is what one side has at that path or a conflict copy, and deletions both sides agree on are honoured. |
| `Merge.EveryWriteSurvivesIff` | src/merge.rs:106-195 | The same of every write the per-path rule makes. |
| `Merge.MergeUnchangedSide` | src/merge.rs:74-144 | Merging with an unchanged side gives the other side, and merging a snapshot with itself gives it back, up to explicit deletions. |
| `Merge.OccupiedCopyNameLosesContent` | src/merge.rs:178-188 | One family where it fails: when a winner's file already has the copy's name, one of the two contents is lost whatever the order. |
| `RefStore.MemRefStore.Advance` | src/ref_advance.rs:60-99 | The atomic compare-and-swap: it installs the value exactly when the expectation (absent, or this value) holds, and otherwise changes nothing and reports the current value, or the empty string for a missing ref. |
| `RefStore.MemRefStore.Read` | src/ref_advance.rs:101-109 | The current value, if any. |
| `Reconcile.SnapIdInjective` | src/reconcile.rs:71-76 | Snapshot identifiers of different commits differ. |
| `Reconcile.SnapIdIs` | src/reconcile.rs:71-76 | An identifier is `snap-` and 16 lower-case hexadecimal digits that write the counter, for every 64-bit counter. |
| `Reconcile.MemSnapshotStore.Commit` | src/reconcile.rs:71-83 | A commit gets an identifier never used before, and changes nothing else. |
| `Reconcile.MergeOnce` | src/reconcile.rs:160-170 | The middle of the loop: the committed snapshot is a merge of base, winner and local. |
| `Reconcile.ReconcileLoop` | src/reconcile.rs:138-186 | With other clients acting before every access, success means the ref held the merged winner right up to the moment the merge replaced it; it fails only if the base or the ref was missing at the start, or other clients attempted at least as many advances of the ref as there are retries. |
| `Reconcile.StepKeepsInv` | src/reconcile.rs:138-186 | Every atomic step of any writer or outside client keeps the invariant. |
| `Reconcile.WriterSteps` | src/reconcile.rs:138-186 | What each step of a writer does; an advance succeeds exactly when the ref holds the winner that was merged. |
| `Reconcile.AloneFinishes` | src/reconcile.rs:138-186 | A writer with nobody in the way is done after four steps, with the ref naming its merge. |
| `Reconcile.RunKeepsInv` | src/reconcile.rs:138-186 | In every interleaving of any number of writers the ref always names a stored snapshot and stored snapshots never change. |
| `Reconcile.AdvancesReplaceTheirWinner` | src/reconcile.rs:171-183 | Every successful advance of every run replaced exactly the root its merge was computed from, which is what the advance before it installed, and installed a merge of base, that root's snapshot and the writer's own edits. |
| `Reconcile.NoBadFetch` | src/reconcile.rs:156-185 | The empty string a refused caller may be told is never fetched, and a writer runs out of retries only if at least that many other advances of its ref happened meanwhile. |
| `Reconcile.NoFinishedEditIsLost` | src/reconcile.rs:138-186 | End to end: when writers of one base advance a ref in any interleaving with fresh copy names, the last installed snapshot holds every content a finished writer newly wrote, at its path or its conflict copy. |
| `Ids.IdTable.Build` | src/nfs/ids.rs:38-96 | Ids 1 to n go to the root and every file and ancestor directory in path order. |
| `Ids.AncestorMeans` | src/nfs/ids.rs:52-66 | The directories numbered for a file are what stands in front of each of its slashes. |
| `Ids.SortedListsAgree` | src/nfs/ids.rs:75-84 | That order, and so every base id, is determined by the set of nodes: two mounts of one snapshot number it alike. |
| `Ids.IdTable.GetPath` | src/nfs/ids.rs:104-123 | The lookup by id is that of the table: dynamic, then base, nothing when hidden. |
| `Ids.IdTable.GetId` | src/nfs/ids.rs:126-137 | The lookup by path, nothing when hidden. |
| `Ids.LookupsAreInverse` | src/nfs/ids.rs:104-137 | On visible paths the two lookups are mutual inverses. |
| `Ids.OwnersDiffer` | src/nfs/ids.rs:139-163 | No two ids are ever given to one path. |
| `Ids.IdTable.InternPath` | src/nfs/ids.rs:139-163 | Interning makes the path visible under its old id or the next new one, and moves no other path. |
| `Ids.IdTable.ForgetPath` | src/nfs/ids.rs:167-171 | Forgetting hides one path. |
| `Ids.IdTable.RenameFile` | src/nfs/ids.rs:180-189 | One path hidden, one shown. |
| `Ids.KindIsTheFirstOne` | src/nfs/ids.rs:139-163 | Interning reports the asked-for kind if and only if the path had no id yet or had that kind: a path that was a file stays a file. |
| `Ids.KeptIdsKeepTheirMeaning` | src/nfs/ids.rs:290-305 | An id that was given out means that path for good. |
| `Ids.RunKeeps` | src/nfs/ids.rs:139-250 | Over every run of the four operations base and dynamic ids stay apart, lookups stay inverse, no id comes to mean another path, new ids are above all old ones, and the root keeps 1. |
| `Ids.RunIsGapless` | src/nfs/ids.rs:86-163 | Over every run ids have no gaps: the snapshot's, then one more for each new path. |
| `Ids.IdTable.Collect` | src/nfs/ids.rs:205-241 | The collected renames are exactly those of the paths that ever had an id, at or below the prefix, whose image has at most 4096 bytes, each once. |
| `Ids.IdTable.RenameSubtree` | src/nfs/ids.rs:194-249 | The subtree rename applies the collected renames in some order. |
| `Ids.CollectsMeans` | src/nfs/ids.rs:199-241 | Exactly the paths that ever had an id and are the old prefix, or have it and a slash in front, are taken along, each to the new prefix with the same rest. |
| `Ids.SubtreeMovesIff` | src/nfs/ids.rs:194-249 | It hides every collected path, shows every image and leaves all other paths alone if and only if no image is itself collected. |
| `Ids.UnrelatedPrefixesAreDisjoint` | src/nfs/ids.rs:194-249 | Which is so whenever neither prefix equals or lies under the other. |
| `Ids.VisibleMoveIff` | src/nfs/ids.rs:205-241 | The visible paths move as a rename should move them if and only if no hidden path is collected, or its image was visible anyway: forgotten files under the old prefix come back under the new one. |
| `Ids.RenameBelowItselfFails` | src/nfs/ids.rs:194-249 | A table and a rename to a path below itself that move nothing properly, in any order. |
| `Ids.RenameRevivesForgotten` | src/nfs/ids.rs:205-241 | A table with a forgotten file that a rename of its directory shows again. |
| `PutRef.RunKeepsInv` | src/serve.rs:719-856 | In every interleaving of requests on existing refs over a version-checking backend, each accepted write that named an expected root replaced exactly that root. |
| `PutRef.SafeIff` | src/serve.rs:756-825 | Over all servers of a kind, that promise holds if and only if the backend checks versions and the refs of conditional requests exist already. |
| `PutRef.SafeHereIff` | src/serve.rs:756-825 | Over the runs of one given server with version checks, it holds if and only if those refs exist at the start. |
| `PutRef.SecondWriterReplacesFirst` | src/serve.rs:784-825 | The failing family: on a first push, or without versions, the second of two writers replaces the first one's root though it expected another. |
| `PutRef.RefusedRootsStay` | src/serve.rs:861-883 | Over every run, a root refused to its writer is under the conflict ref the writer was told of, from the answer on, unless another request can write that ref with another root. |
| `PutRef.RefusedRootsStayIff` | src/serve.rs:861-883 | For given requests that is exact: it holds for every initial store and schedule if and only if no other request's workspace is that name and no other refusable request has the same workspace and first 8 bytes of another root. |
| `PutRef.OverwriterLosesRoot` | src/serve.rs:861-883 | The failing family: for any such pair of requests a store and a schedule after which the refused root is gone. |
| `PutRef.RefusedRootIsSaved` | src/serve.rs:768-856 | At the answer itself the root is stored, and the root reported as current is not the expected one unless a race was lost. |
| `PutRef.RefusalWritesElsewhere` | src/serve.rs:861-883 | A step that accepts nothing leaves the workspace's ref alone. |
| `PutRef.HandlePutRef` | src/serve.rs:719-883 | The handler with other requests writing between its store operations: for every root, when it accepts, refuses, rejects an empty root or stops on a short one, which root it reports, and that it writes one ref only. With the expected root in place it refuses only if the ref was written in between. |
| `PutRef.ConditionalStep` | src/serve.rs:756-856 | What each store operation of a conditional request does: the expected root is replaced while its version is the one read, any other is refused under `<workspace>@conflict-<8 bytes>`. |
| `PutRef.UnconditionalStep` | src/serve.rs:733-748 | Empty roots are rejected; without an expected root the ref is written whatever it holds. |
| `PutRef.UncontendedIsAccepted` | src/serve.rs:793-841 | A request whose expected root stands is accepted when nobody writes that ref in between, whatever happens elsewhere. |
| `Listing.ReadDir` | src/fuse/translate.rs:178-248 | The loop lists one entry per child in order of first appearance; files are not directories, missing directories are errors. |
| `Listing.ChildMeaning` | src/fuse/translate.rs:204-240 | A name is a child of a directory exactly when a file is at it or under it. |
| `Listing.ListingSpec` | src/fuse/translate.rs:204-240 | Each child is listed once, with the kind of the first file that shows it. |
| `Listing.ListedIffExists` | src/fuse/translate.rs:86-248 | In every readable directory a proper name is listed, once, if and only if its stat succeeds. |
| `Listing.ListedKindIsStat` | src/fuse/translate.rs:86-248 | With the kind stat gives, when no file lies under another. |
| `Listing.KindsAgreeIff` | src/fuse/translate.rs:178-248 | Kinds agree for every order of the files if and only if no file lies under another. |
| `Listing.ReadSlice` | src/fuse/translate.rs:141-172 | A read returns the requested window of the hydrated content, an empty one past its end. |
| `Listing.WindowIs` | src/fuse/translate.rs:163-171 | A window's bytes, one by one. |
| `Listing.StatMeans` | src/fuse/translate.rs:86-123 | A file's own attributes; size 0 for the root and for any path with a file under it; else not found. |
| `Listing.ViewFilePaths` | src/nfs/overlay_view.rs:64-77 | The overlay view lists a path, once, if and only if looking it up succeeds. |
| `Listing.IndexIsPrefixFree` | src/index.rs:12-61 | In the index of a tree of proper names no file lies under another. |
| `Listing.ViewIsPrefixFreeIff` | src/nfs/overlay_view.rs:38-78 | A view over such an index is prefix-free if and only if no path the agent wrote has a base path it left in place, above or below it, or another of its writes above it. |
| `Listing.ViewKindsAgreeIff` | src/nfs/overlay_view.rs:38-78 | So in the view of a tree's index every listing agrees with stat, for every order of the hash maps, if and only if the agent keeps files and directories apart in that way. |
| `Listing.ViewSeam` | src/nfs/overlay_view.rs:38-78 | The view as the translation layer uses it: no duplicates, files only, each with what looking it up gives, and prefix-free under that condition. |
| `Overlay.OverlayStore.Fork` | src/overlay.rs:141-151 | A new agent id, never used before; no blob and no row is touched. |
| `Overlay.OverlayStore.CaptureWrite` | src/overlay.rs:174-196 | One row is set, the others stay. |
| `Overlay.OverlayStore.CaptureDelete` | src/overlay.rs:199-212 | One row becomes a tombstone. |
| `Overlay.OverlayStore.EntriesForAgent` | src/overlay.rs:218-246 | Exactly the agent's rows, in strict path order. |
| `Overlay.OverlayStore.CreateWorkspaceRoot` | src/overlay.rs:95-105 | A root is registered once. |
| `Overlay.RouteRead` | src/fuse.rs:22-60 | A read is the clamped window of the resolved content, or the right error. |
| `Overlay.ContentMeans` | src/fuse.rs:22-60 | What there is to read, or which error, from the agent's row and the index. |
| `Overlay.RouteWrite` | src/fuse.rs:69-86 | The blob is stored first, then its hash recorded. |
| `Overlay.RouteDelete` | src/fuse.rs:91-103 | One tombstone. |
| `Overlay.ReadsAreOwnLastWord` | src/fuse.rs:22-103 | Over any history of forks, writes and deletes by any agents an agent reads its own last write, nothing after its own delete, and the base otherwise. |
| `Overlay.OthersDoNotMatter` | src/overlay.rs:156-212 | Erasing every other agent's operations from the history changes nothing an agent reads, though store and overlay differ. |
| `Overlay.RowIsLastWord` | src/overlay.rs:156-212 | The row of an agent and path is the agent's last word on it. |
| `Overlay.BlobsAreKept` | src/fuse.rs:69-86 | Every written blob stays stored under its digest and nothing stored before changes. |
| `Overlay.SizeIsContentLength` | src/fuse/resolve.rs:115-234 | Whenever a read succeeds, it is a window of the full content and the resolved size is that content's length; a content of at most 128 MiB is what one read of that size gives. |
| `Overlay.AnswersMean` | src/fuse/resolve.rs:115-234 | Every answer of read and size from the agent's row and the index: denied, not found, unreadable, or the window and the length. |
| `Overlay.SizesStayTrue` | src/index.rs:12-61 | A built index has true sizes and no history of writes makes them wrong. |
| `PatchText.RejoinIff` | src/patch.rs:48-63 | Splitting into lines and rejoining is the identity if and only if the text is UTF-8; the number of lines is that of its newlines plus an unfinished last line. |
| `PatchText.AppendFileDiff` | src/patch.rs:69-168 | The printer appends exactly the section's lines: header, mode, index, names, hunk header, and both sides with their marks and missing-newline notes. |
| `PatchText.AppendSide` | src/patch.rs:150-166 | The loop over one side's lines, with the note after an unfinished last one. |
| `PatchText.HeadLinesAre` | src/patch.rs:84-103 | The header, mode and index lines of a new, a deleted and a changed file, written out. |
| `PatchText.BodyLinesAre` | src/patch.rs:105-141 | The binary notice or the two name lines, with `/dev/null` for the missing side. |
| `PatchText.HunkLinesAre` | src/patch.rs:143-166 | The hunk header written out, then all old lines behind `-` and all new ones behind `+`. |
| `PatchText.SideLinesAre` | src/patch.rs:150-166 | One side line by line, with the note once, after an unfinished last line. |
| `PatchText.PathIs` | src/patch.rs:26-35 | A path is quoted exactly if it has a blank, tab, quote or backslash. |
| `PatchText.EscapesAre` | src/patch.rs:31-31 | Inside quotes a backslash or quote gets one backslash in front. |
| `PatchText.HunkHeaderReadsBack` | src/patch.rs:38-44 | The hunk header, with counts left out when one, reads back to its four numbers. |
| `PatchText.PathReadsBack` | src/patch.rs:26-35 | Quoting loses nothing: every path is recovered from its quoted form. |
| `PatchText.SectionReadsBack` | src/patch.rs:69-168 | Read line by line, a printed section gives back path, kind, abbreviated hashes, both texts and counts equal to the lines printed. |
| `PatchText.PatchReadsBackIff` | src/patch.rs:69-168 | A whole patch reads back as its sections, in order, if and only if no path has a newline in it. |
| `PatchText.TextsSurviveIff` | src/patch.rs:105-123 | Both texts come back byte for byte if and only if neither holds a zero byte and both are UTF-8. |
| `OverlayPatch.ExtractPatch` | src/patch.rs:174-234 | The rows in path order, deletions of unknown paths skipped, each printed against the base; the first unreadable hash ends the extraction. |
| `OverlayPatch.ChangesMean` | src/patch.rs:187-231 | It fails exactly at the first row whose hash does not parse; otherwise each row but no-op removals is printed with the base's file and its own, absent blobs as empty. |
| `OverlayPatch.PatchSaysWhatTheAgentDid` | src/patch.rs:174-234 | After any history the patch of one agent reads back as exactly one section for each path it last wrote, or removed from the base, with the base's text and that write, if and only if no such path has a newline. |
| `RenderPatch.RenderPatch` | src/patch.rs:563-600 | The printed changes, one section each, in the order given. |
| `RenderPatch.RenderedDiffReadsBackIff` | src/patch.rs:563-600 | An exact tree diff, rendered and read back, gives one section for each path whose file differs, with both trees' contents, if and only if no such path has a newline. |
| `Text.I64RoundTrip` | src/presign.rs:148-155 | Every 64-bit expiry survives printing and parsing and prints without a slash. |
| `Presign.PctRoundTrip` | src/presign.rs:121-130 | Every text survives percent-encoding and comes out without a slash. |
| `Presign.PartsOfUrl` | src/presign.rs:137-155 | The five-way split of a built URL finds the five fields, each readable. |
| `Presign.BuiltUrlIs` | src/presign.rs:137-155 | The text of a built URL. |
| `Presign.EscapesAre` | src/presign.rs:121-126 | `%25` for a percent sign and `%2F` for a slash, nothing else changed. |
| `Presign.MessageInjective` | src/presign.rs:132-135 | The signed message determines operation, path and expiry, so signing the message is signing the three. |
| `Presign.BuiltUrlResolves` | src/presign.rs:137-271 | A built URL resolves to the operation, expiry and joined path it was built from until it expires, and to Expired afterwards, for every directory, operation, object path and 64-bit expiry. |
| `Presign.FieldsResolve` | src/presign.rs:210-271 | What any URL of five fields resolves to: malformed, wrong signature, expired in that order, or the fields and the joined path. |
| `Presign.OtherUrlsAreMalformed` | src/presign.rs:210-236 | Any other URL is malformed. |
| `Presign.OnlySignedUrlsResolve` | src/presign.rs:250-263 | Of any URL: one that resolves, or is told to have expired, carries this signer's signature of its own operation, path and expiry. |
| `Presign.ResolvesBelowBaseIff` | src/presign.rs:265-270 | The resolved path is the object below the given directory if and only if the directory is UTF-8 and the object path is not absolute (or the directory is empty). |
| `Presign.UrlsAgreeIff` | src/presign.rs:137-155 | Two built URLs are equal if and only if operation, object path, expiry and the lossy form of the directory are. |
| `AutoSync.DebounceGate.CheckSettle` | src/autosync.rs:268-281 | The gate fires exactly when armed, not yet settled and `now - last` is at least the period. |
| `AutoSync.AutoSyncEngine.PipelineInner` | src/autosync.rs:437-480 | At most three snapshot-and-push rounds; a conflict re-bases, a landing ends; the known root follows. |
| `AutoSync.AutoSyncEngine.Tick` | src/autosync.rs:362-392 | One tick: events noted, gate asked, pipeline run, gate and pending paths cleared only on success; disabled and agent engines do nothing. |
| `AutoSync.AutoSyncEngine.RunOnce` | src/autosync.rs:426-435 | One sync on demand that leaves gate and pending paths alone. |
| `AutoSync.SettleFiresIff` | src/autosync.rs:260-287 | In any run the pipeline starts at a tick if and only if that is the first one at least a debounce period after the last tick with events: never in mid-burst, once per burst, and after a failure only on new events. |
| `AutoSync.AtMostThreePushes` | src/autosync.rs:437-480 | No call pushes more than three times, and a tick that does not settle pushes nothing. |
| `AutoSync.EveryPushExpectsTheLatestRoot` | src/autosync.rs:437-480 | In any run every push is conditioned on the root of the latest landing, re-base or seed. |
| `AutoSync.SuccessReportsDistinctPaths` | src/autosync.rs:369-383 | A successful settle reports exactly the number of distinct paths with events since the last successful one. |
| `AutoSync.SuccessLanded` | src/autosync.rs:450-463 | A success returns the root of its own last push, which landed and is the known root now. |
| `AutoSync.PipelineLandsIff` | src/autosync.rs:437-480 | The pipeline succeeds exactly if some round lands after conflicts that could all be re-based, with one push a round. |
| `AutoSync.CallReports` | src/autosync.rs:362-480 | What one call reports: nothing when off; otherwise, if and only if one of three rounds lands, its root, count and elapsed time. |
| `LiveSync.ClientReconciler.Reconcile` | src/live_sync.rs:341-421 | It succeeds exactly when the snapshot is mounted already or exists with all blobs obtainable; it then mounts it whole and fetches exactly the blobs missing from the cache; a failure changes nothing. |
| `LiveSync.ClientReconciler.Partition` | src/live_sync.rs:380-395 | The loop splits the hashes into missing and cached, in order. |
| `LiveSync.PollingFallback.Tick` | src/live_sync.rs:489-520 | After a poll the mount is the ref's snapshot if and only if it was already, or the ref is not the one seen last and its snapshot can be had; a failed poll changes nothing and is retried. |
| `LiveSync.StepKeepsInv` | src/live_sync.rs:341-520 | Every atomic step (check, load, partition, fetch, commit, note) of any call, and every server change, keeps the invariant. |
| `LiveSync.RunKeepsInv` | src/live_sync.rs:341-520 | In any interleaving of live and polling calls the mount is empty or one complete snapshot the server held, every blob it names is cached, and each call commits at most once and only if it succeeds. |
| `LiveSync.AloneReconciles` | src/live_sync.rs:341-421 | A call of the step machine with nobody in the way does what the method does: the whole snapshot mounted, or a truthful failure and no change. |
| `LiveSync.OtherSteps` | src/live_sync.rs:341-520 | The remaining steps: the early return, the poll that has nothing new, and the noting. |
| `LiveSync.FailedCallsChangedNothing` | src/live_sync.rs:341-421 | In any run a failed call is behind no change of the mount, and a report names just the blobs of a snapshot that was mounted. |
| `LiveSync.LateCallGoesUnnoticed` | src/live_sync.rs:404-520 | A call for an older snapshot that commits last takes the mount back, and no number of polls repairs it while the ref stays. |
| `LiveSync.PollingSeesNothing` | src/live_sync.rs:489-520 | A poller that has seen the ref as it is leaves the mount alone in every run without a ref move or a new event. |

## Left out

- CollectAllHashes: that the walk finds everything is proved from a condition that is sufficient but not necessary, because what it finds depends on the order in which it meets the two kinds of one hash; `FileFirstHidesSubtree` shows the condition cannot be dropped.
- FetchTreeBlobs: the same condition, for the same reason.
- PatchReadsBackIff: a text that is not UTF-8 reads back as its lossy form; `TextsSurviveIff` says when it is the text itself.
- RenderPatch: the path text is the slash-joined names; `PathBuf::join` differs from that for names that are absolute or empty.
- DiffTrees: file modes are not compared (the code compares hashes only), and of two records with one name in a directory the later one counts.
- ReconcileLoop: a retry limit of zero is an assertion failure in the code and excluded here.
- HandlePutRef: a conflicting root whose eighth byte is inside a multi-byte character also stops the code with a slicing error; the model goes by bytes.
- HexToBytes: non-ASCII text, on which the code stops with a slicing error, is read as malformed.
- OnlySignedUrlsResolve: that a signature cannot be guessed is not claimed: the signer is an arbitrary function of the signed fields.
- SafeHereIff: an exact condition is given for backends that check versions; for the others, whether a run goes wrong depends on which expected roots some request can bring about first.
- IdTable.InternPath: paths over 4096 bytes and tables over the node limit, which are assertion failures in the code, are not modelled.
- RouteRead: the sum of offset and size is unbounded; the code's `usize` addition can overflow for offsets near 2^64.
- LiveSync: one workspace and one client; blobs are only ever added on the server.
- The disk store, SQLite, HTTP, object-store transport, presigned upload and download, and BLAKE3 itself.
- Mounts, FUSE and NFS operations other than the file-id table and the translation layer, and all platform code.
- Authentication, access lists beyond a Boolean answer, billing, workspace records and their lifecycle.
- Command line, configuration, name resolution and the TypeScript client.
- `SyncDaemon` polling, `dynamic_dir_children_of`, status lines and event filtering: they would add only easy members.
- Fixed caps other than those named in the table (node tables, entry counts, drains).
