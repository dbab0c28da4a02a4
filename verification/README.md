# CuttleDB: verified models of the replicator, the in-memory file system and the wire code

CuttleDB's server is a closed binary, but five parts of the system around it are visible and
carry real state. This project models them in Dafny and proves what they promise.

- **Replication** (`ReplicationProtocol`, `ReplicationRuns`, `ReplicationDelivery`, `Replicator`).
  The protocol is a state machine whose steps are single remote calls, client writes, checkpoint
  writes and crashes in any order. The `Replicator` class carries a ghost run of that machine, so
  every theorem about runs holds of its loops. The server is the documented environment: row id
  equals slot, a delete swaps the last row in, LOG answers from a ring of 1024 entries.
- **The loader's file system** (`DirTree`, `HashChains`, `FileStore`, `PathWalk`, `Rooted`,
  `PlainPaths`, `PathEffects`, `CallErrors`, `RenameGuard`, `RenameConnects`, `InheritedNames`,
  `MemFile`, with `Errno` for its error numbers).
  `FileStore` keeps the array of chain heads, the `nameNext` links and each directory's object, updated
  in place; `DirTree` is a snapshot of them. The class invariant says that the index is in order and every
  indexed node hangs in a directory under its own name; every method keeps it in every state, whatever
  throws. `Tree.Agrees` adds that the directories' own objects name the same children, and every operation
  states exactly when it keeps that.
- **Path text** (`Paths`) and **UTF-8** (`Utf8`), as the loader computes them.
- **Streams**: `LineCutting`, the JavaScript transport (`Transport`), the Python client
  (`PythonClient`).
- **Wire text** (`WireCodec`) and the **shard hash** (`ShardHash`).

Code that changes things step by step is a class or a method with loops, held to a function of its
inputs or of the old state; what that function means is proved in lemmas beside it.

## Where the code does less than it seems to

- Replicas do not always converge on the primary. `RacedPassLosesRow` gives a concrete run
  (insert, insert, delete of slot 0, then one pass) that leaves the replica empty at a cursor where
  the primary holds a row. `TracksIffFaithful` gives the exact condition for every run, crashes
  anywhere included, readable before each step: a log window (cut short by the ring) and a restart
  (from a stale checkpoint) take the log up at a position where the primary held the rows the
  replicas hold, a GET answers, and a replica call hands over what its log entry did and succeeds.
  `GetFaithfulIff` says when a GET's answer is right to hand over: when the slot its insert event
  names still holds the row that event put there; `TracksIffSlots` is the exact condition in those
  terms. `ConvergesIffFaithful` is the same observed at event boundaries only, for runs in which a crash
  inside an event falls before its first replica call; after such a call a crash can hide a fault again
  by replaying the event.
- The first write to an empty file at position 0 takes `buffer.slice`, which is clamped; asking for
  more bytes than the buffer holds leaves `usedBytes` past the end of the contents. `Write` states
  this condition (`Overruns`) as exactly when the file's invariant is lost.
- `rename` guards against moving a directory below itself by comparing path texts, and looks for a
  leading "." in a relative path. A hidden name also has one, and a text that goes through a symlink
  says nothing about where it leads. `RenameKeepsConnectedIff` gives the exact condition for every
  pair of paths, `RenameDetachesIff` the same in terms of the plain paths that `lookupPath` answers;
  `HiddenNameDetaches` (rename "/a" to "/a/.h/x") and `SymlinkDetaches` (rename "/a" to "/l/x" with
  "/l" a link to "/a") are two renames that succeed and cut "/a" off from the root. Where no link is
  involved, the hidden name is the only case (`GuardedMoveDetachesIff`).
- A directory's contents are an object literal, so creating the name "__proto__" sets its prototype
  and deleting it deletes nothing: `readdir` does not list the entry, and the directory can never be
  removed or replaced again (`LooksEmptyIff`, `RmdirSucceedsIff`, `StaleProtoBlocksRmdir`).
- From then on that object inherits the accessors of the class `FSNode`, and index and directories can
  part. Creating or renaming to "isFolder" or "isDevice" there throws a TypeError half-way: a creation
  leaves a node in the index that no directory lists, a rename deletes its source from the old
  directory's object and re-indexes it there. Creating or renaming to "read" or "write" succeeds and
  stores a number under "mode" instead. A call that passes its checks keeps index and objects in
  agreement if and only if the directory's prototype is unset, or the name is none of these four, or
  the object has its own entry of that name, which a rename then replaces (`AddAgreesIff`,
  `MoveAgreesIff`; in the methods, `Mknod` to `RenamePath`). There is one exception: a rename that throws
  loses nothing when its source was named "__proto__" (`AbortAgreesIff`). The calls that fail
  are in `InheritedNames`. Lookups go by the index alone and keep working, and the class invariant
  holds on. A rename that threw can leave its source's old directory looking empty, and then `rmdir`
  removes that directory while the source stays in the index below it (`ThrowThenRmdir`).
- A symlink made by `mknod` has no target, and following it throws a TypeError instead of a file
  system error. The walker's outcome says so (`TYPE_ERROR`); `NamedLinksNeverThrow` and
  `LinksStayNamed` say how to stay clear of it.
- The root is indexed under itself as "/", so `lookupNode(root, "/")` finds the root although its
  contents do not list it. `Tree.Entry` follows the code.
- `lengthBytesUTF8` takes any surrogate for the first half of a pair. After a lone one it counts too few
  octets, so `stringToUTF8OnStack`, which makes room by that count, cuts the text (`LoneSurrogateCount`).
- An empty `sendBatch` in JavaScript never settles and still writes a newline (`RequestSettles`,
  `SendBatch`). The Python `send_batch` documents that it returns all responses in order, but it
  stops at the first error and leaves the rest unread (`Client.SendBatch`).
- `poll_events` documents timeout 0, its default, as returning what is already buffered. The socket then
  does not block, and on an idle connection `recv` raises BlockingIOError, which `except socket.timeout`
  does not catch, so the call raises instead of returning no events (`PollEvents`). Nothing is lost.
- `poll_events` strips every trailing CR of a line where `_readline` strips one. `StripsAlike` says
  on which lines they agree. Polling and sending conserve events and replies on every stream up to
  such CRs, and exactly where no line ends in two (`PollEvents`, `Session`).
- A row list with the single row of one empty string prints like an empty list; every other list of
  non-empty rows survives (`RowlistRoundTrip`).

## Model

| member | source | states |
|---|---|---|
| ReplicationProtocol.StepWellFormed | adapters/python/cuttledb/replicate.py:118-171 | every action, in every state, keeps cursors and checkpointed cursors within the logs and the window being replayed equal to its stretch of the log, while clients keep writing |
| ReplicationProtocol.TableStep | PROTOCOL.md:307-311 | inserts append at the slot they log; a delete logs its slot, and leaves every row in its slot but the last, which moves into the one freed; log and history only grow |
| ReplicationProtocol.ReplicaStep | adapters/python/cuttledb/replicate.py:160-170 | what a replica holds after a call: the row added at the end, or the last row moved into the slot of the one deleted |
| ReplicationProtocol.WindowSays | PROTOCOL.md:375-386 | LOG answers exactly the entries from the cursor on that are among the last 1024, in order, and the length of the log |
| ReplicationProtocol.ReloadSays | adapters/python/cuttledb/replicate.py:118-126 | a restart takes the saved cursors, and 0 for a table that has none or where none can be read |
| ReplicationRuns.AnyActionMayFollow | adapters/python/cuttledb/replicate.py:136-182 | no run gets stuck: after any run any action may come next |
| ReplicationRuns.StepKeepsSync | adapters/python/cuttledb/replicate.py:136-171 | one faithful step, of clients or worker, keeps each replica equal to the primary's history at the position replayed so far |
| ReplicationRuns.ReplicasFollowHistory | adapters/python/cuttledb/replicate.py:136-171 | in every run of faithful steps, however far ahead the clients write, all replicas equal the primary's history at the replayed position after every step |
| ReplicationRuns.CommittedPassesConverge | adapters/python/cuttledb/replicate.py:151 | in such a run, crashes anywhere included, after each committed pass every replica's rows are the primary's rows as they were at the stored cursor |
| ReplicationRuns.NoDeleteIsFaithful | adapters/python/cuttledb/replicate.py:155-159 | if no delete was logged since an insert event, the GET for it finds the inserted row |
| ReplicationRuns.GetFaithfulIff | adapters/python/cuttledb/replicate.py:155-162 | what a GET answered is right to hand to the replicas if and only if the slot still held the row the insert event put there |
| ReplicationRuns.SlotRunsConverge | adapters/python/cuttledb/replicate.py:136-171 | replicas converge in every run whose GETs find their slot as the insert left it, deletes elsewhere notwithstanding, whose calls succeed and whose windows and restarts take the log up in step |
| ReplicationRuns.CallFaithfulIffSlot | adapters/python/cuttledb/replicate.py:154-170 | in every run, a replica call hands over what its log entry did if and only if it is a delete or the GET it stems from found its slot unchanged |
| ReplicationRuns.QuietRunsConverge | adapters/python/cuttledb/replicate.py:136-171 | in particular when windows fit the ring, calls succeed, restarts resume where the worker was, and no delete lands between an insert event and the GET that re-reads it |
| ReplicationRuns.TracksIffFaithful | adapters/python/cuttledb/replicate.py:118-171 | for every run, crashes and failures anywhere: each replica holds the history at every moment if and only if every window, restart, GET and replica call was faithful |
| ReplicationRuns.TracksIffSlots | adapters/python/cuttledb/replicate.py:118-171 | the same with each replica call judged by the slot its GET found, for runs that start between passes |
| ReplicationRuns.ConvergesIffFaithful | adapters/python/cuttledb/replicate.py:118-171 | the same seen at event boundaries only, for runs stopped at one in which a crash inside an event falls before its first replica call |
| ReplicationDelivery.ReplicasAgree | adapters/python/cuttledb/replicate.py:160-170 | replicas that start equal hold identical rows at every event boundary, however the primary races ahead, as long as replica calls succeed and no crash falls between two replica calls of one event |
| ReplicationDelivery.AtLeastOnce | adapters/python/cuttledb/replicate.py:118-152 | with crashes, torn and stale checkpoints anywhere, every log index below a cursor was handled or had left the ring, and no cursor passes its log |
| ReplicationDelivery.HandledMeansReplayed | adapters/python/cuttledb/replicate.py:148-170 | an index counts as handled exactly when, at some step, that very log entry ended its event: all replicas were called, or the GET did not answer |
| ReplicationDelivery.NothingDropped | PROTOCOL.md:375-386 | while windows fit the ring of 1024 entries, no log entry is ever skipped |
| ReplicationDelivery.OtherTablesUntouched | adapters/python/cuttledb/replicate.py:141-151 | while the worker is busy with other tables, a table's cursor, replicated rows and handled indices stay as they were |
| ReplicationDelivery.RacedPassLosesRow | adapters/python/cuttledb/replicate.py:154-170 | a run whose windows fit and whose calls all succeed that ends with an empty replica where the primary holds a row |
| Replicator.Replicator.constructor | adapters/python/cuttledb/replicate.py:76-102 | built and connected, the object starts an empty run at the checkpointed cursors, 0 where there is none |
| Replicator.Replicator.Log | adapters/python/cuttledb/replicate.py:143-147 | LOG answers the ring's window from the cursor on, after whatever clients wrote meanwhile; a failure changes nothing else |
| Replicator.Replicator.Get | adapters/python/cuttledb/replicate.py:155-159 | GET answers the row now in the slot, or the event is given up |
| Replicator.Replicator.CallReplica | adapters/python/cuttledb/replicate.py:160-170 | one replica call is one protocol step, failed or not |
| Replicator.Replicator.ReplayEvent | adapters/python/cuttledb/replicate.py:154-171 | one event is replayed to its end, once, on every replica, as a valid continuation of the run |
| Replicator.Replicator.Turn | adapters/python/cuttledb/replicate.py:142-151 | one table's turn: LOG, every event of the window replayed to its end and handled, and the cursor at the length the log had then; or a failed LOG and nothing else; other cursors stay |
| Replicator.Replicator.ReplayOnce | adapters/python/cuttledb/replicate.py:136-152 | one pass is a valid continuation of the run made of one turn per table, in order; it returns the number of events ended, and with no failing calls and no client writes every cursor ends at its log's length |
| Replicator.Replicator.CommittedReplicas | adapters/python/cuttledb/replicate.py:136-152 | the object's replicas equal the primary's history at the object's cursors after any faithful run |
| Replicator.Replicator.LoadCheckpoint | adapters/python/cuttledb/replicate.py:118-126 | a restart resumes at the saved cursors, or at 0 where none is readable |
| Replicator.Replicator.SaveCheckpoint | adapters/python/cuttledb/replicate.py:128-132 | the checkpoint is the current cursors, or stays as it was when writing fails |
| DirTree.EntryIsIndexed | wasm/cuttledb-engine.js:1 | a directory's name denotes a node exactly when the index holds that node, and no other, under that parent and name |
| DirTree.AddKeepsTree | wasm/cuttledb-engine.js:1 | adding an absent name keeps the index a tree: every indexed node hangs under its own name in a directory, and what any directory lists is indexed under it |
| DirTree.RemoveKeepsTree | wasm/cuttledb-engine.js:1 | removing any entry keeps it one, with or without children of its own |
| DirTree.MoveKeepsTree | wasm/cuttledb-engine.js:1 | so does moving an entry, replacing any target or renaming within one directory included |
| DirTree.AbortKeepsTree | wasm/cuttledb-engine.js:1 | so does a move that throws on entering the target directory, with the source back in the index |
| DirTree.AddedEntry | wasm/cuttledb-engine.js:1 | after adding, the name denotes the new node, with its target, and every other name what it did |
| DirTree.RemovedEntry | wasm/cuttledb-engine.js:1 | after removing, the name denotes nothing and every other name what it did |
| DirTree.MovedEntry | wasm/cuttledb-engine.js:1 | after a move, the new name denotes the node, its old name nothing, and every other name what it did |
| DirTree.SetSays | wasm/cuttledb-engine.js:1 | which names a directory's object does not store like a dictionary, and what an assignment to each does |
| DirTree.AddAgreesIff | wasm/cuttledb-engine.js:1 | adding keeps the directories' own objects and the index in agreement if and only if the object's prototype is unset or the name is none of the four accessors of `FSNode` (`PlainObject.Trapped`) |
| DirTree.RemoveAgrees | wasm/cuttledb-engine.js:1 | removing an entry keeps them in agreement |
| DirTree.MoveAgreesIff | wasm/cuttledb-engine.js:1 | moving keeps them in agreement under exactly the same condition on the target directory's object and the new name |
| DirTree.AbortAgreesIff | wasm/cuttledb-engine.js:1 | a move that throws half-way keeps them in agreement if and only if its source was named "__proto__" |
| DirTree.ReadsAsIndexed | wasm/cuttledb-engine.js:1 | while they agree, a directory's object has a property of its own under a name if and only if the index holds a node there and the name is not "__proto__", and it is that node |
| DirTree.LooksEmptyIff | wasm/cuttledb-engine.js:1 | while they agree, a directory enumerates nothing if and only if it has no children and "__proto__" was never set in it |
| DirTree.RemoveUndoesAdd | wasm/cuttledb-engine.js:1 | removing what was just created restores every older node exactly, and the index, if and only if the name is not "__proto__" (or that was set to this node before) and no inherited setter took it |
| DirTree.MoveBackRestoresIff | wasm/cuttledb-engine.js:1 | after a move to a free name the old place is free, and moving back restores the tree exactly if and only if the new name left no trace (not "__proto__", no inherited setter) and the old one meets no inherited accessor on the way back |
| HashChains.ToInt32 | wasm/cuttledb-engine.js:1 | JavaScript's signed 32-bit truncation: in range, and congruent modulo 2^32 |
| HashChains.HashName | wasm/cuttledb-engine.js:1 | the bucket is always inside the table |
| HashChains.HashIsPolynomial | wasm/cuttledb-engine.js:1 | the shifts and subtractions in signed 32-bit steps compute the polynomial in 31 over the code units, modulo 2^32 |
| HashChains.PushKeepsIndex | wasm/cuttledb-engine.js:1 | pushing a node onto the chain its parent and name hash to keeps every indexed node in exactly one non-repeating chain |
| HashChains.RedirectSplices | wasm/cuttledb-engine.js:1 | redirecting one head or one link takes exactly that node out of its chain and disturbs no other chain |
| HashChains.SpliceKeepsIndex | wasm/cuttledb-engine.js:1 | after taking a node out, the index is valid for the remaining nodes |
| FileStore.FileStore.constructor | wasm/cuttledb-engine.js:1 | a fresh file system holds only the root, indexed under itself as "/" |
| FileStore.FileStore.Hash | wasm/cuttledb-engine.js:1 | the loop over code units computes the specified hash |
| FileStore.FileStore.HashAddNode | wasm/cuttledb-engine.js:1 | in-place insertion at the chain's head keeps the index and adds just that node |
| FileStore.FileStore.HashRemoveNode | wasm/cuttledb-engine.js:1 | in-place removal keeps the index and removes just that node |
| FileStore.FileStore.FindIndexed | wasm/cuttledb-engine.js:1 | the chain walk ends, and finds the indexed node with that parent and name exactly when there is one |
| FileStore.FileStore.LookupNode | wasm/cuttledb-engine.js:1 | `lookupNode` answers the directory's own entry, or ENOENT, or ENOTDIR |
| FileStore.FileStore.WalkParts | wasm/cuttledb-engine.js:1 | one pass over the parts of a path either answers as the reference does or replaces the text by one that means the same, with one link more followed or fewer parts left |
| FileStore.FileStore.TakeName | wasm/cuttledb-engine.js:1 | a name is an error, a link whose text means the rest of the walk, or one node further, as the reference says |
| FileStore.FileStore.LookupPath | wasm/cuttledb-engine.js:1 | the walker ends on every path in every tree, cyclic links included, and answers what the reference walk says, relative paths from the working directory and ELOOP at the fortieth link among it; the path it returns leads to the node it returns |
| FileStore.FileStore.GetPath | wasm/cuttledb-engine.js:1 | climbing parents spells the path that leads to the node |
| FileStore.FileStore.MknodPath | wasm/cuttledb-engine.js:1 | the exact error and an unchanged tree, or a new node at the path, or a TypeError with the node indexed and not listed; index and objects still agree exactly if no inherited accessor took the name |
| FileStore.FileStore.SymlinkPath | wasm/cuttledb-engine.js:1 | the same for a link: with its target when it succeeds, without one when the TypeError stopped it |
| FileStore.FileStore.UnlinkPath | wasm/cuttledb-engine.js:1 | the entry is removed, or the exact error - a directory gives EISDIR - and an unchanged tree; agreement is kept |
| FileStore.FileStore.RmdirPath | wasm/cuttledb-engine.js:1 | from every valid state to a valid one: the directory is removed, or the exact error - the root, the working directory, a directory that enumerates something - and an unchanged tree; agreement is kept |
| FileStore.RmdirSucceedsIff | wasm/cuttledb-engine.js:1 | while index and objects agree, removing succeeds if and only if the entry is a directory, neither the root nor the working directory, without children and without a "__proto__" ever set |
| FileStore.StaleProtoBlocksRmdir | wasm/cuttledb-engine.js:1 | creating and unlinking "__proto__" in an empty directory makes its removal fail for good |
| CallErrors.UnlinkErrors | wasm/cuttledb-engine.js:1 | unlinking succeeds if and only if the name denotes something that is no directory, and which condition gives EISDIR, ENOENT and ENOTDIR |
| CallErrors.RmdirErrors | wasm/cuttledb-engine.js:1 | removing a directory: which condition gives success and each of the four errors |
| CallErrors.MknodErrors | wasm/cuttledb-engine.js:1 | making a node: exactly the free names other than "", "." and ".." that no getter takes, and which condition gives each error |
| CallErrors.SymlinkErrors | wasm/cuttledb-engine.js:1 | making a link: the same for every path and target, the dots allowed |
| CallErrors.RenameSucceedsIff | wasm/cuttledb-engine.js:1 | renaming succeeds if and only if source, guards and target allow it; a directory replaces only an empty-looking directory, and anything else only what is no directory |
| CallErrors.RenameErrors | wasm/cuttledb-engine.js:1 | renaming: which condition gives EINVAL, EBUSY, EISDIR, ENOTDIR and ENOTEMPTY |
| CallErrors.RenameGuards | wasm/cuttledb-engine.js:1 | for plain paths: renaming into itself or below gives EINVAL, onto what lies above the source ENOTEMPTY, except where the next name on the way down starts with a dot |
| CallErrors.UnlinkPathErrors | wasm/cuttledb-engine.js:1 | for every plain path: unlinking succeeds if and only if a lookup finds something that is no directory, fails with EISDIR on a directory, and as the lookup does where that fails |
| CallErrors.BusyIffCwd | wasm/cuttledb-engine.js:1 | an entry counts as the working directory if and only if the working directory's path leads to it |
| CallErrors.RmdirOfCwd | wasm/cuttledb-engine.js:1 | removing the working directory always fails with EBUSY |
| FileStore.FileStore.MoveEntry | wasm/cuttledb-engine.js:1 | the inner rename, with the node out of the index: it throws on a full target directory and changes nothing, throws on entering the target directory with the entry already deleted from the old one, or makes exactly the move |
| FileStore.FileStore.Rename | wasm/cuttledb-engine.js:1 | from every valid state to a valid one, with the exact resulting tree for success, for a failed check and for a throw in the middle; index and directories' objects agree afterwards if and only if it failed a check, moved nothing, moved to a name no inherited accessor took, or threw with "__proto__" as its source |
| FileStore.FileStore.RenamePath | wasm/cuttledb-engine.js:1 | the same for two paths: error numbers, guard texts, the resulting tree and whether index and objects still agree, each given by the paths' meaning |
| FileStore.MayMove | wasm/cuttledb-engine.js:1 | past its checks, a rename makes the move of the node that the old path names, or the aborted one |
| FileStore.MovedAgrees | wasm/cuttledb-engine.js:1 | whichever way it ends the tree is valid, and the exact condition for index and objects to agree |
| RenameConnects.RenamePathBack | wasm/cuttledb-engine.js:1 | a rename onto a free name can be undone by the exchanged call, its path checks passing again; it fails only for a directory that has become the working directory or for an old name that meets an inherited getter, and restores the tree exactly when neither directory's prototype gets in the way |
| RenameConnects.RenameKeepsConnectedIff | wasm/cuttledb-engine.js:1 | for every two paths: a rename that succeeds keeps all nodes connected to the root if and only if the target's directory is not the moved node or below it |
| RenameConnects.RenameDetachesIff | wasm/cuttledb-engine.js:1 | both parents have a plain path, and a rename that succeeds cuts nodes off if and only if the target directory's begins with the source's |
| RenameConnects.HiddenNameDetaches | wasm/cuttledb-engine.js:1 | on a concrete tree, rename "/a" to "/a/.h/x" returns no error and leaves nodes cut off |
| RenameConnects.SymlinkDetaches | wasm/cuttledb-engine.js:1 | on a concrete tree with "/l" linked to "/a", rename "/a" to "/l/x" returns no error and leaves nodes cut off |
| RenameConnects.DenotesLeads | wasm/cuttledb-engine.js:1 | whatever text a walk followed to a node, that node is indexed and a plain path leads there |
| InheritedNames.ThrowSplitsCreate | wasm/cuttledb-engine.js:1 | a creation that ends in a TypeError, in any agreeing tree, leaves a node that the index finds and its directory does not list |
| InheritedNames.SetterSplitsCreate | wasm/cuttledb-engine.js:1 | a creation under an inherited setter's name succeeds, stores nothing under that name and a number under "mode" |
| InheritedNames.ThrowSplitsRename | wasm/cuttledb-engine.js:1 | a rename that ends in a TypeError leaves its source indexed in its old place and deleted from the object there |
| InheritedNames.ThrowThenRmdir | wasm/cuttledb-engine.js:1 | where such a rename took the only entry of a directory, `rmdir` then removes that directory, and the source stays in the index below it |
| InheritedNames.GetterThrowsOnCreate | wasm/cuttledb-engine.js:1 | from an empty file system: after "/d/__proto__" was created, creating "/d/isFolder" or "/d/isDevice" throws with the node in the index and not in "/d" |
| InheritedNames.SetterTakesCreate | wasm/cuttledb-engine.js:1 | ... and creating "/d/read" or "/d/write" succeeds and leaves "/d" listing "mode" alone |
| InheritedNames.GetterThrowsOnRename | wasm/cuttledb-engine.js:1 | ... and renaming "/x" to "/d/isDevice" throws with "/x" indexed and listed nowhere |
| PathWalk.Follow | wasm/cuttledb-engine.js:1 | the reference walk ends on every tree, from every directory, and answers a node, an allowed absence, or a proper error |
| PlainPaths.RelativeFromCwd | wasm/cuttledb-engine.js:1 | a relative path is walked from the node the working directory leads to |
| PlainPaths.StrollIsNormal | wasm/cuttledb-engine.js:1 | where no link is met, "." stays, ".." goes up, and the walk leads where the normal form of its parts leads |
| PlainPaths.LookupIsResolve | wasm/cuttledb-engine.js:1 | where no link is met, looking up a path text finds exactly what the path `resolve` makes of it names |
| PlainPaths.MissingName | wasm/cuttledb-engine.js:1 | a missing name is ENOENT, ENOTDIR, an allowed absence or no matter, by what is asked for |
| PlainPaths.PresentName | wasm/cuttledb-engine.js:1 | a last name is what it denotes, link or not, unless links are followed; any other link is replaced by its target, from the root or its own directory |
| PlainPaths.FortiethLink | wasm/cuttledb-engine.js:1 | thirty-nine links are followed and the fortieth ends in ELOOP |
| PathEffects.CreatedIsFound | wasm/cuttledb-engine.js:1 | what was created is found under its path |
| PathEffects.RemovedIsGone | wasm/cuttledb-engine.js:1 | what was removed is found no more |
| PathEffects.MovedIsFound | wasm/cuttledb-engine.js:1 | what was moved is found under its new path and no more under its old one |
| PathWalk.WalkUp | wasm/cuttledb-engine.js:1 | ".." goes to the parent and shortens the path text by one name; at the root the walk restarts with the parts that are left |
| PathWalk.WalkName | wasm/cuttledb-engine.js:1 | a name is an error, an absence, a link whose target text continues the same walk, or one step further |
| PathWalk.RestartAtLink | wasm/cuttledb-engine.js:1 | restarting at the root with a link's text spliced in means the same as following the link where it sits |
| PathWalk.LeadsUnique | wasm/cuttledb-engine.js:1 | a node is reached by one plain path only |
| PathWalk.LinksStayNamed | wasm/cuttledb-engine.js:1 | which operations keep every symlink targeted: all but creating one without, or one whose creation throws |
| PathWalk.NamedLinksNeverThrow | wasm/cuttledb-engine.js:1 | while every symlink has a target, no walk ends in a TypeError |
| Rooted.AddKeepsConnected | wasm/cuttledb-engine.js:1 | creating keeps every indexed node connected to the root by its parent links |
| Rooted.RemoveKeepsConnected | wasm/cuttledb-engine.js:1 | so does removing |
| Rooted.AbortKeepsConnected | wasm/cuttledb-engine.js:1 | so does a move that throws half-way |
| Rooted.MoveKeepsConnectedIff | wasm/cuttledb-engine.js:1 | a move keeps every node connected to the root if and only if the target directory is not at or below the moved node |
| RenameGuard.SaysInsideIff | wasm/cuttledb-engine.js:1 | what the textual guard tests: at or below, except where the next name starts with a dot |
| RenameGuard.BelowIffPrefix | wasm/cuttledb-engine.js:1 | on plain paths, lying below a node in the tree is having its path as a prefix |
| RenameGuard.GuardedMoveDetachesIff | wasm/cuttledb-engine.js:1 | where the texts are the plain paths themselves, a move that passed the guard detaches nodes if and only if it goes below the moved node past a hidden name |
| MemFile.MemFile.ExpandFileStorage | wasm/cuttledb-engine.js:1 | growing keeps the bytes and the zero padding, reaches the wanted capacity, and copies just the bytes in use |
| MemFile.MemFile.ResizeFileStorage | wasm/cuttledb-engine.js:1 | truncation cuts the bytes or extends them with zeros |
| MemFile.MemFile.Write | wasm/cuttledb-engine.js:1 | a write acts on the abstract bytes, holes filled with zeros, and keeps the padding zero exactly unless a first write overruns its buffer |
| MemFile.MemFile.Read | wasm/cuttledb-engine.js:1 | a read copies exactly the abstract slice, or throws when it does not fit and copies nothing |
| MemFile.ReadBack | wasm/cuttledb-engine.js:1 | what was written is read back; the rest is unchanged and holes are zero |
| MemFile.WrittenBytes | wasm/cuttledb-engine.js:1 | after a write every byte of the file is the one at its place in the caller's buffer, the old one, or zero |
| MemFile.WrittenThenRead | wasm/cuttledb-engine.js:1 | reading what was written gives the caller's own bytes back |
| MemFile.TruncatedBytes | wasm/cuttledb-engine.js:1 | truncation keeps the front and fills with zeros |
| MemFile.WriteAmortised | wasm/cuttledb-engine.js:1 | one write keeps the amortised bounds, on both sides of the 1 MiB switch |
| MemFile.RunAmortised | wasm/cuttledb-engine.js:1 | over any run of writes below the 32-bit limit: bytes copied stay within the capacity up to 1 MiB and nine times that beyond; capacity stays within max(256, twice the bytes used), and past 2 MiB within nine eighths of them |
| Paths.NormalizeArray | wasm/cuttledb-engine.js:1 | the right-to-left in-place scan computes what the left-to-right stack machine computes, with and without climbing above the root |
| Paths.ScanIsWalk | wasm/cuttledb-engine.js:1 | both directions agree from any stack |
| Paths.NormalizePath | wasm/cuttledb-engine.js:1 | the code computes the normal form |
| Paths.NormalizeParts | wasm/cuttledb-engine.js:1 | a normalised path has the normal parts of the original and is absolute exactly when it was |
| Paths.NormalizeIdempotent | wasm/cuttledb-engine.js:1 | normalising twice is normalising once |
| Paths.NormalIsFixed | wasm/cuttledb-engine.js:1 | a list of leading ".." and then names is left alone |
| Paths.WalkSkips | wasm/cuttledb-engine.js:1 | "." and a name followed by ".." mean nothing anywhere in a path, nor does ".." at the root of an absolute one |
| Paths.ResolvePath | wasm/cuttledb-engine.js:1 | `resolve` gathers arguments from the right up to the last absolute one, gives up on an empty one, and normalises |
| Paths.ResolveAppend | wasm/cuttledb-engine.js:1 | one argument more: an empty one empties the answer, an absolute one forgets the others, a relative one is walked from where they lead |
| Paths.RelativePath | wasm/cuttledb-engine.js:1 | `relative` climbs from what the paths share and goes down to the target |
| Paths.RelativeLeadsTo | wasm/cuttledb-engine.js:1 | following `relative(from, to)` from `from` resolves to `to`, for all non-empty paths |
| Paths.DirnameCanon | wasm/cuttledb-engine.js:1 | `dirname` takes the last name off a canonical path and leaves the root |
| Paths.LastName | wasm/cuttledb-engine.js:1 | `basename` and `dirname` of any directory text, a slash and a name, with or without a slash at the end |
| Paths.JoinCanon | wasm/cuttledb-engine.js:1 | joining a name to a canonical path appends it |
| Utf8.LengthBytesUTF8 | wasm/cuttledb-engine.js:1 | the loop counts four octets for any surrogate and the unit after it; on well-formed strings that is the number of octets of the encoding |
| Utf8.LoneSurrogateCount | wasm/cuttledb-engine.js:1 | after a lone surrogate the count is short of the encoding for every unit past ASCII |
| Utf8.PointSays | wasm/cuttledb-engine.js:1 | a high and a low surrogate are one code point by place values, every other unit is itself (section 2.2 of RFC 2781) |
| Utf8.StringToUTF8Array | wasm/cuttledb-engine.js:1 | for any capacity the writer stays within it, writes as many whole points as fit and a NUL, and touches nothing else |
| Utf8.TruncatesAtBoundary | wasm/cuttledb-engine.js:1 | what fits is the encoding of the longest prefix cut between code points, all of it when there is room |
| Utf8.FindStringEnd | wasm/cuttledb-engine.js:1 | where reading stops: the first NUL, the heap's end or the limit, whichever comes first |
| Utf8.UTF8ArrayToString | wasm/cuttledb-engine.js:1 | the slow path decodes the octets up to exactly that end, which is unique |
| Utf8.PointIsRfc3629 | wasm/cuttledb-engine.js:1 | the octets written for a code point are the ones section 3 of RFC 3629 assigns it, by ranges and place values |
| Utf8.DecodeEncode | wasm/cuttledb-engine.js:1 | decoding inverts encoding for every string, lone surrogates included |
| Utf8.EncodeHasNoNul | wasm/cuttledb-engine.js:1 | only a NUL encodes to a NUL octet |
| Utf8.WrittenReadsBack | wasm/cuttledb-engine.js:1 | a string without NUL, written with any room at all and read to its NUL, returns as the longest prefix that ends between code points and fits - the whole string when it all does |
| LineCutting.LinesConcat | adapters/cuttledb.js:54-69 | more input only appends lines: cutting does not depend on how the stream was split |
| LineCutting.LineFirst | adapters/cuttledb.js:54-69 | a text without newline that a newline ends is a line, less one CR at its end |
| LineCutting.LinesSorted | adapters/cuttledb.js:61-67 | every line goes to one side, the ones that begin with ">EVT " to the events, the others to the replies |
| Transport.TcpTransport.OnData | adapters/cuttledb.js:54-69 | one chunk delivers exactly the lines it completes, events to the listeners and replies to the waiters in order |
| Transport.TcpTransport.RejectWaiters | adapters/cuttledb.js:71-74 | every queued waiter is rejected, and settled requests stay settled |
| Transport.TcpTransport.Send | adapters/cuttledb.js:76-82 | one waiter and one line written, or a rejected request when not connected |
| Transport.TcpTransport.SendBatch | adapters/cuttledb.js:84-99 | as many waiters as commands in one write of the commands in order, the bare newline of an empty batch included |
| Transport.TcpTransport.Close | adapters/cuttledb.js:103-108 | closing refuses every later request and settles none in flight |
| Transport.ChunksMerge | adapters/cuttledb.js:54-69 | two chunks act as their concatenation, in every state |
| Transport.RunIsExpected | adapters/cuttledb.js:54-99 | for every interleaving of requests and chunks in which no reply precedes its request, events, replies, waiters and remaining buffer depend on the request sizes and the concatenated bytes alone |
| Transport.RequestSettles | adapters/cuttledb.js:84-99 | a request settles exactly when its last reply is in, with its own replies in order, errors among them; an empty batch never does |
| Transport.TcpTransport.Session | adapters/cuttledb.js:54-99 | any run of requests, chunks and breaks on the object is the run of the state machine, and what it writes is the text of the requests in order |
| Transport.LinesWritten | adapters/cuttledb.js:76-99 | over a whole run, the lines written are the commands asked for, in order, each once |
| Transport.AnswersMeetCommands | adapters/cuttledb.js:54-99 | in every causal run a settled request's j-th result is the reply at the place in the reply stream where its j-th command stands among the lines written |
| Transport.FailBalanced | adapters/cuttledb.js:71-74 | a broken connection leaves no request waiting, but for empty batches |
| Transport.RunBalanced | adapters/cuttledb.js:54-99 | in every run replies received and waiters queued add up to each request until it settles one way, once |
| PythonClient.Client.ReadLine | adapters/python/cuttledb/__init__.py:407-421 | one line is taken off the stream, or the stream is as it was; it fails only while no whole line has come |
| PythonClient.Client.ReadResponse | adapters/python/cuttledb/__init__.py:423-430 | the next reply of the stream; events met on the way are queued, none lost or reordered; a clean stream stays clean |
| PythonClient.Client.Send | adapters/python/cuttledb/__init__.py:432-438 | an error reply is consumed like any other and raised; events are conserved; a clean stream stays clean |
| PythonClient.Client.SendBatch | adapters/python/cuttledb/__init__.py:448-455 | the replies read are the first of the stream, in order, up to and including the first error; the rest stay unread; a clean stream stays clean |
| PythonClient.Client.PollEvents | adapters/python/cuttledb/__init__.py:1424-1459 | on every stream, events returned and events left are the events before, once each and in order, and the replies to come are unchanged, up to trailing CRs; on a clean stream exactly; with timeout 0 an idle connection makes it raise, with nothing taken |
| PythonClient.Client.Session | adapters/python/cuttledb/__init__.py:432-455 | over any interleaving of sends, batches and polls, events returned and left are the events before and replies read and left the replies before, in order, once each |
| PythonClient.Client.ReadMatrix | adapters/python/cuttledb/__init__.py:1200-1227 | a header line that announces the wanted dimensions is followed by exactly rows x cols x 4 payload bytes; any other header is refused and only itself consumed |
| PythonClient.HeaderWords | adapters/python/cuttledb/__init__.py:1205-1212 | the two numbers of a header are what any white space sets apart |
| PythonClient.Client.ReadPayload | adapters/python/cuttledb/__init__.py:1213-1226 | buffered bytes first, then chunks, exactly as many as needed |
| PythonClient.StripsAlike | adapters/python/cuttledb/__init__.py:419-420 | stripping one CR and stripping all agree exactly on lines that do not end in two |
| PythonClient.StashedLine | adapters/python/cuttledb/__init__.py:1450-1454 | a reply line put back with a bare newline is read as the same line |
| WireCodec.EncodersEscape | adapters/cuttledb.js:673-684 | the four whole-string replacements equal one per-character escape, for row values and for EXEC arguments |
| WireCodec.EscapeTable | PROTOCOL.md:92-112 | the escape of each special character and of none other, for row values and EXEC arguments, and what undoes it |
| WireCodec.EscapeHasNoLineBreak | PROTOCOL.md:92-112 | what is escaped has no CR and no LF |
| WireCodec.SplitWireRow | adapters/cuttledb.js:699-719 | the character walk computes the fields |
| WireCodec.SplitWireRows | adapters/cuttledb.js:724-741 | the character walk computes the rows, escapes kept |
| WireCodec.SplitLaws | adapters/cuttledb.js:699-741 | what each walk makes of every next character: "," and ";", a backslash with one after it, a last backslash, any other |
| WireCodec.RowRoundTrip | adapters/cuttledb.js:699-719 | splitting a printed row gives back its fields, their number included |
| WireCodec.InsertRoundTrip | adapters/cuttledb.js:369-372 | the values of an INSERT are one line that splits into exactly those values |
| WireCodec.CopyRoundTrip | adapters/python/cuttledb/replicate.py:155-162 | a row read with GET, decoded and encoded again arrives as it was stored |
| WireCodec.RowlistRoundTrip | adapters/cuttledb.js:743-750 | printing and parsing a list of non-empty rows returns it, if and only if it is not the one row of one empty string |
| WireCodec.BadBodyIff | adapters/cuttledb.js:743-750 | a row list is refused if and only if it is not in brackets |
| WireCodec.FastPath | adapters/python/cuttledb/__init__.py:1555-1561 | without a backslash, native splitting equals the escape-aware walk |
| WireCodec.ParseRowlistFast | adapters/python/cuttledb/__init__.py:1540-1561 | the parser with the fast path computes what the one without it does, errors included |
| WireCodec.DecodeExec | adapters/python/cuttledb/__init__.py:245-263 | the decoding loop computes the decoding |
| WireCodec.DecodeLaws | adapters/python/cuttledb/__init__.py:245-263 | what the decoding makes of a backslash and of every other character |
| WireCodec.ExecRoundTrip | adapters/python/cuttledb/__init__.py:233-263 | decoding inverts encoding of EXEC arguments |
| WireCodec.ExecArgsSplit | adapters/python/cuttledb/__init__.py:233-242 | two encoded arguments are split at the bare ";" between them and nowhere else |
| ShardHash.Fnv1a | adapters/cluster.js:166-173 | the loop computes the fold of its step |
| ShardHash.StepMultiplies | adapters/cluster.js:169-170 | xor, five signed shifts and the cut to 32 bits multiply by 16777619 modulo 2^32; the sum before the cut is an exact double |
| ShardHash.XorDiffers | adapters/cluster.js:169 | a bit of the exclusive or is set if and only if the operands differ there |
| ShardHash.KnownHashes | adapters/cluster.js:166-173 | the empty text hashes to 0x811c9dc5 and "a" to 0xe40c292c |
| ShardHash.FoldIsFnv1a | adapters/cluster.js:164-173 | on code units below 256 the hash is FNV-1a, section 2 of draft-eastlake-fnv |
| ShardHash.ShardIndex | adapters/cluster.js:123-127 | the default shard index is in range, and the hash modulo the number of nodes |

## Left out

Weaker than the code, or narrower:

- ReadMatrix: takes Python's `int` on a word of the header as a parameter.
- PollEvents: conserves lines only up to CRs at their ends where a line ends in two, since the code strips them.
- GuardedMoveDetachesIff: is about texts that are plain paths; `RenameKeepsConnectedIff` covers all texts.
- RenamePathBack: asks that both texts still lead to the same directories after the rename, since a text that went through the moved node no longer does; starts from trees in which index and objects agree.
- RunIsExpected: covers streams in which no reply precedes its request; a reply nobody waits for is dropped by `OnData` and covered by `RunBalanced`.
- AnswersMeetCommands: covers batches that are not empty, of commands without a newline or a CR at the end; any other text is not one line to the server.
- LookupIsResolve: covers paths on which no link is met; `RestartAtLink` and `PresentName` say what a link does.
- RemoveUndoesAdd: starts from trees in which index and objects agree.
- MoveBackRestoresIff: the same, and from moves that do not throw.
- ConvergesIffFaithful: leaves out runs with a crash after the first replica call of an event; `TracksIffFaithful` and `AtLeastOnce` cover them.
- ReplicasAgree: leaves out runs with a crash between two replica calls of one event, and with failing replica calls.
- Fnv1a: for code units of 256 and more it is the code's own fold; FNV-1a is defined on octets only.

Not modelled:

- Replication: update events and transactions, the timing of `run`, opening and closing connections.
- The server itself, except for the documented contract of its log, deletes, slots and escapes.
- The file system's permissions, timestamps, devices, `/proc`, further mounts, `mmap`, lazy files, `readdir`, writes with `canOwn`, stream positions, and `mknod` of block devices and pipes.
- The loader's `TextDecoder` branch, and strings in paths are sequences of UTF-16 units without interpretation.
- `adapters/wasm/cuttledb-engine.js`, a second copy of the same loader.
- Parsing of event lines: an event is the line it came on, and a malformed one that makes the Python client raise is not covered.
- The commands the clients write, number and vector values, the GROUPBY and KNN result parsers.
- Sockets, TLS, WebSocket and HTTP clients, field encryption, the command line, demos and benchmarks.
- Custom shard functions, round-robin reads and writing to all nodes.
