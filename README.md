# A verified model of the copy thread of `should`

`should` replicates a file tree from a server to a client. On the client, the
copy thread (`src/copy_thread.c`) does the following:

- It reads a batch of change events from the server.
- It optimises the batch. Events that a later delete, rename or repeat makes
  pointless are dropped, and renames are moved to the front.
- It applies each remaining event to the local tree (`cp`). A regular file is
  copied block by block, and a block the local file already holds is reused
  when the checksums match.
- It keeps a queue of directory synchronisations ("dirsyncs"). A dirsync
  merges a server listing with a local one.
- It records how far it got in a checkpoint file.

This project models the sequential logic under the socket and filesystem
calls, and proves what that logic guarantees.

## Layout

| file | module | models |
|---|---|---|
| `types.dfy` | `Types` | file and event kinds, `REPLSIZE`, `MAX_POS`, the listing type codes |
| `scan.dfy` | `Scan` | `printf`'s and `sscanf`'s `%d`, white space, hexadecimal digits |
| `events.dfy` | `Events` | the event record; `find_event`; how `get_next_event` classifies a reply, budgets the arena and interns names |
| `optimise.dfy` | `Optimise` | `delete_events`, `rename_events`, `remove_duplicate_events`, `optimise_events` on the two arrays |
| `dirsync.dfy` | `Dirsync` | `copy_dirsync` and the pop of `do_dirsync`, as a class over a `seq<string>` |
| `reconcile.dfy` | `Reconcile` | `compare_dir`; row validation in `get_server_dir`; the merge and the subdirectory scheduling of `do_dirsync` |
| `transfer.dfy` | `Transfer` | `getfrom`, the `getdata` size checks, `mkparent`, the block loop of `copy_file_data` and its return codes |
| `apply.dfy` | `Apply` | `cp`: name translation, filters, the skip test, the metadata repair, the rename fall-back and the dirsync requests |
| `checkpoint.dfy` | `Checkpoint` | `read_copy_state`, and the checkpoint lines the batch loop of `copy_thread` writes |

### How the model represents the source

- **Names.** Names are handles (`nat`, where 0 means no name) into a table of strings.
  - `find_event` makes a new name point at an identical earlier one. The optimiser can then compare names by handle, as the source compares the addresses of names.
  - `Events.Interned` states when such a comparison agrees with comparing the strings.
- **The imperative parts stay imperative.**
  - The optimiser works on two `array`s (`evlist[]` and `valid[]`).
  - The arena of `get_next_event` is a class (`Events.EventReader`).
  - The dirsync queue is a class (`Dirsync.DirsyncQueue`).
  - The checkpoint file is a class (`Checkpoint.CheckpointLog`).
  - The block loop, the digest loops, the merge loop, the listing loop and the queue walk are `while` loops.
  - Each loop is proved against a recursive function that follows it step by step. Lemmas about those functions state what the source promises.
- **The outside world is data.**
  - Server replies, lstat results, the results of filesystem calls, checksums of local data and the clock are all parameters (oracles).
  - What the code does to the filesystem or sends to the server is returned as a list of actions.
- **`DATA_BLOCKSIZE`.** Its value is defined in a header that is not part of this model, so it is a parameter (`blockSize > 0`).

### Observations

These were found while writing contracts. Each is a behaviour of the code as written, and the model follows it. The bugs under "## Findings" are different: the model records the code as written in a member of its own, and `cp` and `do_dirsync` run on the corrected definition ("## Left out" names the members this affects).

- **The arena is reserved before names are interned** (`src/copy_thread.c:1233-1249`). `get_next_event` reserves room for both names before it calls `find_event`, so a name that is found costs arena space all the same. `Events.EventReader.AcceptEvent` states this.
- **The rename fall-back repairs the wrong name.** After a rename falls back to copying the target, a `copy_file_data` result of 2 sends `cp` to `adjust_meta`. There it runs `lstat` on `fname`, the source that is known to be gone. So the repair reports an error and nothing is counted. `Apply.CpRenameRepairsSource` states this.
- **The external copy program is given the server name minus `|to_prefix|` characters**, not minus the from prefix (`src/copy_thread.c:458-466`). `Transfer.ExternalRequestStrips` states this.
- **The root job covers no other job.** Both subsumption tests of `copy_dirsync` require a '/' right after the shorter path. So the root job `""` neither absorbs nor is absorbed by `"a"`. `Dirsync.RootMatchesOnlyRoot` states this.
- **A queued job with a reason goes to the tail; one without goes to the head** (`src/copy_thread.c:2146-2152`).
- **A regular file copied into place returns 2, and a failed copy returns 1.** `cp` then repairs metadata after code 2 and counts a change after code 1. The model follows the code.
- **The length in a CHECKSUM reply is trusted** (`src/copy_thread.c:649-652`, `674-682`). The local copy writes as many bytes as the server names, without bounding them by the block or by the local file. `Transfer.LocalCopyMayOvershoot` exhibits a one-byte file whose loop ends at offset 5.
- **A regular file whose OPEN fails leaks its temporary file** (`src/copy_thread.c:512-513`). That path returns at once; it neither unlinks nor closes. `Transfer.RegularTempCleanup` states this.
- **The temporary file of a file whose name holds no '/' is made in a directory of that name** (`src/copy_thread.c:487-504`). `mkpath` is applied to the name itself. `Transfer.TempDir` states this.
- **After a rename is moved to the front, the event that was just before it is never revisited** (`src/copy_thread.c:1429-1441`). `Optimise.SkipAfterRenameExample` gives an instance.
- **A rename of a name onto itself keeps two handles for one string** (`src/copy_thread.c:1264-1273`). `Events.SelfRenameKeepsOwnToHandle` shows it.

## Model

| member | source | states |
|---|---|---|
| Types.FileTypeOfCode | src/copy_thread.c:1590-1599 | a listing type code maps to a file type exactly when it is 0..7, and the map is inverted by the listing code of the type |
| Types.FileTypeCodeRoundTrip | src/copy_thread.c:1590-1599 | every file type has a listing code that decodes back to it |
| Scan.ScanFormatInts | src/copy_thread.c:1223-1225 | integers written as blank-separated `%d` fields are read back, all of them, by as many `%d` conversions, whatever non-digit text follows |
| Scan.ScanFormatInt | src/copy_thread.c:649 | one `%d` conversion after white space reads back the integer `%d` wrote and ends just after it |
| Events.FindEvent | src/copy_thread.c:1169-1188 | found exactly when some earlier event has a from or to name of the same length and bytes; the handle is then that of the first such slot (lowest index, from before to), else the given handle is returned unchanged |
| Events.FirstMatchExists | src/copy_thread.c:1173-1187 | a first match exists if and only if some slot of the batch holds the name |
| Events.FirstMatchSound | src/copy_thread.c:1174-1184 | the handle of the first match denotes the searched string |
| Events.FirstMatchAppend | src/copy_thread.c:1173-1186 | a match among the earlier events hides any match among later ones |
| Events.SameFromNameSameHandle | src/copy_thread.c:1251-1260 | in an interned batch two from names with the same text hold the same handle, so comparing handles is comparing names |
| Events.SameToNameSameHandle | src/copy_thread.c:1264-1273 | the same for a to name and any later name, unless the event's own from name already equals its to name |
| Events.SelfRenameKeepsOwnToHandle | src/copy_thread.c:1264-1273 | that exception happens: after a rename "a" to "a", a later "a" is matched to the from handle, not the to handle |
| Events.ClassifyReply | src/copy_thread.c:1213-1229 | an event header holds exactly eight fields, a malformed one fewer than eight |
| Events.EventReplyRoundTrip | src/copy_thread.c:1213-1229 | an "EV" header as the server writes it is classified as an event with its eight fields |
| Events.ShortRepliesClassified | src/copy_thread.c:1213-1218 | "NO" after the status and any white space is a timeout, "BI" is too big |
| Events.NameSpace | src/copy_thread.c:1233-1236 | the bytes an event's names need are never negative, and zero exactly when neither name is present |
| Events.EventReader.Reserve | src/copy_thread.c:1237-1249 | too big (arena untouched) when the names do not fit and no overflow buffer is allowed; an overflow buffer, or a malloc failure, when one is; otherwise the bytes are taken at the old start and the start advances by what the free space loses |
| Events.EventReader.InternName | src/copy_thread.c:1251-1273 | a name found in the batch reuses the first matching handle and leaves the table alone; any other name is appended and gets the new handle; either way the handle denotes the bytes received |
| Events.EventReader.ReceiveNames | src/copy_thread.c:1250-1276 | succeeds exactly when every announced name arrives; the from handle then denotes the first from_length bytes received for the from name, the to handle those of the to name, and an absent name has handle 0; the table grows by at most two names and the batch stays interned |
| Events.BuildEvent | src/copy_thread.c:1230-1338 | an event exists exactly when the stat and mtime lines its header announces arrive; its fields are those of the header and of the lines |
| Events.EventReader.TakeEvent | src/copy_thread.c:1250-1340 | an accepted event is the one built from the header and its names, its from and to handles denote the name bytes received (NameReceived), the batch with it stays interned, and the event count grows by one exactly on success |
| Events.EventReader.AcceptEvent | src/copy_thread.c:1230-1340 | the file number and position are those of the header; too big exactly when the names do not fit and no overflow is allowed; the arena start moves by exactly the bytes reserved; an accepted event has the header's fields and lines, and names that denote the bytes received |
| Events.EventReader.HandleReply | src/copy_thread.c:1213-1340 | timeouts, too-big and malformed replies change nothing; a short event header still sets the fields it scanned; an event header gives the accepted event, with the header's fields and names that denote the bytes received |
| Events.EventReader.GetNextEvent | src/copy_thread.c:1194-1341 | a failed or interrupted transport returns a system error or a signal and changes nothing; otherwise as HandleReply on the classified reply, so an accepted event carries the header's fields and names that denote the bytes received |
| Optimise.DeleteFrom | src/copy_thread.c:1346-1371 | delete_events only clears flags, and only below its start index; its three cases are stated by DeleteWithoutRenames, DeleteStopsAtRenameFrom and DeleteThroughRenameTo |
| Optimise.DeleteEvents | src/copy_thread.c:1346-1371 | the loop leaves `valid[]` as DeleteFrom says and does not write `evlist[]` |
| Optimise.DeleteWithoutRenames | src/copy_thread.c:1366-1369 | with no valid rename of the name below the start, exactly the valid non-rename events on that name are cleared |
| Optimise.DeleteStopsAtRenameFrom | src/copy_thread.c:1362-1364 | the scan stops at the first valid rename away from the name: that rename and everything before it are left untouched |
| Optimise.DeleteThroughRenameTo | src/copy_thread.c:1357-1361 | a valid rename from another name onto the name is cleared; below it, the rename's source is deleted first and then the name; above it, exactly the valid non-rename events on the name are cleared |
| Optimise.ClearDuplicates | src/copy_thread.c:1410-1421 | exactly the earlier valid events with the same kind and from name are cleared, and nothing at or above the start |
| Optimise.RemoveDuplicateEvents | src/copy_thread.c:1410-1421 | the loop leaves `valid[]` as ClearDuplicates says |
| Optimise.RenameRoundShape | src/copy_thread.c:1381-1401 | one round moves slot e-1 into slot e with its flag and touches nothing above e |
| Optimise.RenameStep | src/copy_thread.c:1381-1401 | one round of the loop on the arrays is RenameRound |
| Optimise.RenameAt | src/copy_thread.c:1377-1406 | the arrays after rename_events for the rename at index n: the loop's rounds from n down to 1, then the rename in slot 0; RenameWithoutChain, RenameWithChain and RenameFromShifts state what that is |
| Optimise.RenameFrom | src/copy_thread.c:1380-1405 | the rounds from slot e down with the rename being moved, which ends valid in slot 0; its arrays keep their lengths |
| Optimise.RenameRound | src/copy_thread.c:1381-1401 | one round at slot e: slot e-1 moves up; a valid rename onto the source (A -> B before B -> C) becomes A -> C, B is deleted below it, and the moving rename now starts at A; an earlier non-rename about the source names the destination; RenameRoundShape states its effect |
| Optimise.RenameEvents | src/copy_thread.c:1377-1406 | rename_events leaves the arrays as RenameAt says |
| Optimise.RenameWithoutChain | src/copy_thread.c:1377-1406 | with no earlier rename onto the rename's source: the rename is at slot 0 and valid; old slots 0..n-1 move with their flags to 1..n, with earlier valid events on the source renamed to the target; slots above n are untouched |
| Optimise.RenameFromShifts | src/copy_thread.c:1380-1405 | whatever the chain: slot 0 holds a valid rename to the same target; slots 1..n keep the kinds of the old 0..n-1 and gain no flag; slots above n are untouched |
| Optimise.RenameChainExample | src/copy_thread.c:1386-1394 | renames A to B then B to C leave A to C at slot 0 and at slot 1 |
| Optimise.RenameWithChain | src/copy_thread.c:1377-1406 | for any rename B -> C whose latest earlier valid rename onto B is X -> B at slot j (and with none onto X below that): slot 0 holds X -> C, valid; slot j+1 holds X -> C, valid; the events between j and n move up one as without a chain; the events below j move up one with the flags of deleting B below j, and those about X now name C; slots above n are untouched |
| Optimise.OptimiseStep | src/copy_thread.c:1430-1455 | the step for the event at n: delete_events for a delete, rename_events for a rename, remove_duplicate_events for a create or a data or metadata change, nothing for a marker; the array lengths are kept |
| Optimise.OptimiseFrom | src/copy_thread.c:1429-1456 | optimise_events from evnum down to 1, each valid event's step on the arrays as they are when it is reached; OptimiseKeepsCount, MarkerSkipped and the examples state what it does |
| Optimise.OptimiseEvents | src/copy_thread.c:1425-1457 | the loop leaves the arrays as OptimiseFrom says, starting at evcount-1 |
| Optimise.OptimiseKeepsCount | src/copy_thread.c:1425-1457 | the optimiser never increases the number of valid events |
| Optimise.MarkersUntouched | src/copy_thread.c:1429-1454 | overflow, no-space and add-tree events change nothing, and slot 0 is never visited |
| Optimise.MarkerSkipped | src/copy_thread.c:1450-1454 | in any batch, a valid marker at slot n is passed over: the optimiser goes on at n-1 with the arrays unchanged |
| Optimise.CreateRenameDeleteExample | src/copy_thread.c:1429-1449 | a create, a rename and a delete of the renamed file leave only the delete |
| Optimise.SkipAfterRenameExample | src/copy_thread.c:1429-1441 | a delete clears a create before it, but not when a later rename has first pushed the delete up one slot |
| Optimise.ScanAsWrittenReadsMinusOne | src/copy_thread.c:1349-1351 | the loop as written reads evcount+1 slots, the last being index -1 |
| Optimise.ScanVisitsBatch | src/copy_thread.c:1414-1416 | the intended loop visits exactly evcount-1 down to 0 |
| Dirsync.Normalise | src/copy_thread.c:2093-2096 | a stored path has no '/' at either end |
| Dirsync.NormaliseShape | src/copy_thread.c:2093-2096 | the stored path is the argument with its leading and trailing '/' removed (a missing path is "") |
| Dirsync.NormaliseIdempotent | src/copy_thread.c:2093-2096 | normalising a stored path again changes nothing |
| Dirsync.NormalisePath | src/copy_thread.c:2093-2101 | the two stripping loops compute Normalise |
| Dirsync.CoversTransitive | src/copy_thread.c:2116-2118 | a job that covers a job that covers p covers p |
| Dirsync.RootMatchesOnlyRoot | src/copy_thread.c:2116-2125 | the root job covers only the root job, and no job lies inside the root job |
| Dirsync.KeptMembers | src/copy_thread.c:2123-2140 | a job survives the new path exactly when it does not lie strictly inside it |
| Dirsync.ScanQueue | src/copy_thread.c:2111-2141 | the walk keeps exactly the jobs not inside the path, in order, accepts the path exactly when no job covers it, and counts the removed jobs |
| Dirsync.ScheduledAntichain | src/copy_thread.c:2108-2157 | scheduling keeps the queue free of jobs that cover one another, and every job stored |
| Dirsync.ScheduledCovers | src/copy_thread.c:2108-2157 | afterwards the new path and every old job are covered by some queued job |
| Dirsync.ScheduledOrder | src/copy_thread.c:2142-2153 | an accepted job with a reason goes after the kept jobs, one without before them |
| Dirsync.MinDeadlineIsMin | src/copy_thread.c:2143-2145 | the deadline kept is the least positive deadline accepted, and 0 when there is none |
| Dirsync.ScheduleKeepsInv | src/copy_thread.c:2142-2157 | copy_dirsync keeps the queue invariant: the count is the length, the jobs are stored paths none of which covers another, and the deadline is the earliest positive deadline accepted since the queue last emptied |
| Dirsync.DirsyncQueue.Schedule | src/copy_thread.c:2090-2172 | keeps the queue invariant; the jobs inside the stored path leave the queue, and the path joins it unless a job covers it, at the tail with a reason and at the head without; an accepted positive deadline earlier than the current one, or any when there is none, becomes the deadline |
| Dirsync.DirsyncQueue.Pop | src/copy_thread.c:1753-1762 | an empty queue gives nothing and a zero count; otherwise the head is returned and removed, and the deadline is reset when the queue empties |
| Dirsync.PopKeepsInv | src/copy_thread.c:1753-1762 | popping the head keeps the queue invariant |
| Dirsync.WaitingTooLongAsWrittenInverted | src/copy_thread.c:1959-1961 | the test as written fires while the deadline is ahead and not once it has passed |
| Dirsync.WaitingTooLongMeansOverdue | src/copy_thread.c:1959-1961 | the intended test fires exactly when jobs wait and one of their deadlines has passed |
| Reconcile.Compare | src/copy_thread.c:1459-1462 | the sign of strcmp, zero exactly on equal names |
| Reconcile.CompareFlip | src/copy_thread.c:1459-1462 | swapping the names flips the sign |
| Reconcile.CompareTrans | src/copy_thread.c:1459-1462 | the order is transitive |
| Reconcile.Insert | src/copy_thread.c:1621 | one insertion step of the sort in place of qsort: the result is the list with the entry added (multiset equality) |
| Reconcile.Sort | src/copy_thread.c:1621 | the qsort of the listing with compare_dir, as an insertion sort: a permutation of its input |
| Reconcile.SortSorted | src/copy_thread.c:1621 | sorting with compare_dir gives a sorted permutation |
| Reconcile.Decode | src/copy_thread.c:1567-1604 | a stored entry carries the row's name, the file type of its code, and a target exactly when the row announces one |
| Reconcile.Walk | src/copy_thread.c:1493-1608 | the rows as get_server_dir reads them: None at a lost connection or an unusable row, the decoded rows up to the "." terminator otherwise; WalkComplete states it |
| Reconcile.ServerListing | src/copy_thread.c:1493-1622 | the listing get_server_dir returns: the walked rows, sorted; ServerListingSorted states it |
| Reconcile.WalkComplete | src/copy_thread.c:1493-1608 | the rows give a listing exactly when the "." terminator comes after only valid, fully read rows; the listing is those rows, decoded |
| Reconcile.BadRowLosesListing | src/copy_thread.c:1539-1556 | one bad row before the terminator loses the whole listing |
| Reconcile.ServerListingSorted | src/copy_thread.c:1609-1622 | a returned listing is sorted and holds exactly the entries of the rows |
| Reconcile.GetServerDir | src/copy_thread.c:1493-1631 | the reading loop returns ServerListing: nothing after a bad row or a lost connection, else the rows up to the terminator, sorted |
| Reconcile.Merge | src/copy_thread.c:1789-1834 | the steps of the two-cursor merge of the sorted listings, at most one per entry; MergeCopiesServer and MergeDeletesLocalOnly state them |
| Reconcile.StepActions | src/copy_thread.c:1799-1833 | a copy step is one cp of the server entry; a delete step removes the local tree or file when deletion is enabled, at the corrected target of DeleteTarget |
| Reconcile.MergeStep | src/copy_thread.c:1789-1834 | one round advances a cursor, emits the step the merge prescribes, and performs that step's actions (a delete at the corrected target) |
| Reconcile.MergeListings | src/copy_thread.c:1789-1834 | the loop performs the actions of the merge (deletes at the corrected target), counts its deletions, and ends within \|server\|+\|local\| rounds |
| Reconcile.MergeCopiesServer | src/copy_thread.c:1812-1833 | every server entry goes to cp exactly once, in listing order, including names on both sides |
| Reconcile.MergeDeletesLocalOnly | src/copy_thread.c:1799-1811 | the deletions are exactly the local names the server does not list |
| Reconcile.NoDeleteOnlyCopies | src/copy_thread.c:1801-1809 | without deletion enabled every action is a copy |
| Reconcile.CopyChange | src/copy_thread.c:1824-1831 | cp receives a create with a valid stat, named fp "/" path ["/"] name, with the entry's type, target and stat |
| Reconcile.CopySource | src/copy_thread.c:1826-1828 | the server name is the from prefix, "/" and the name relative to the root |
| Reconcile.DeleteTargetAsWrittenMissesSeparator | src/copy_thread.c:1802-1803 | below the root, the delete target as written joins the to prefix and the path with no '/' |
| Reconcile.DeleteTargetMatchesCopySource | src/copy_thread.c:1802-1803 | the corrected target is to_prefix "/" relative name, matches the copied name after the prefixes, and agrees with the code at the root |
| Reconcile.ScheduleAllCoversOld | src/copy_thread.c:1840-1852 | every job queued before the subdirectories stays covered |
| Reconcile.ScheduleAllCoversNew | src/copy_thread.c:1840-1852 | every server subdirectory ends up covered by a queued job |
| Reconcile.EnqueueSubdirs | src/copy_thread.c:1839-1852 | one reason-less copy_dirsync per server directory, path/name or name at the root, and their number |
| Reconcile.DoDirsync | src/copy_thread.c:1743-1861 | pops the head job; no listing means no actions and no subdirectories; without a local listing nothing is copied or deleted but subdirectories are still queued; otherwise the merge actions of the sorted local listing, with deletes at the corrected target |
| Reconcile.DirsyncSteps | src/copy_thread.c:1789-1834 | with distinct names, every server entry is copied and exactly the local-only entries are deleted |
| Transfer.GetFrom | src/copy_thread.c:438-447 | input ends exactly at or past the map's end; a served read starts at pos and stays inside the map |
| Transfer.GetFromLongest | src/copy_thread.c:438-447 | a served read is as long as the request and the map allow |
| Transfer.DataSizesAccepted | src/copy_thread.c:320-336 | sizes are accepted exactly when the wire size is 0..DATA_BLOCKSIZE and any second size exceeds it; a block is compressed exactly when two sizes are given, and never holds more than DATA_BLOCKSIZE bytes on the wire |
| Transfer.DataReplyCompressed | src/copy_thread.c:693-705 | a DATA reply with a wire and a larger logical size reads back as a compressed block of those sizes |
| Transfer.DataReplyPlain | src/copy_thread.c:693-705 | a DATA reply with one size reads back as a plain block of that size |
| Transfer.ParseHexEncode | src/copy_thread.c:654-664 | a digest written as hexadecimal pairs reads back whole |
| Transfer.ReadDigest | src/copy_thread.c:653-664 | the digest loop computes ParseDigest |
| Transfer.SameDigest | src/copy_thread.c:668-670 | the comparison loop says equal exactly when the digests are |
| Transfer.ParseChecksumReply | src/copy_thread.c:649-664 | an accepted reply names a length of at least 1 and a digest of the negotiated size |
| Transfer.ChecksumReplyRoundTrip | src/copy_thread.c:649-664 | a CHECKSUM reply as the server writes it reads back as its length and digest |
| Transfer.Request | src/copy_thread.c:633-636 | each request covers min(file size - done, DATA_BLOCKSIZE) bytes, at least one |
| Transfer.LocalMatchConditions | src/copy_thread.c:638-670 | a block is taken from the local file exactly when the map covers it, a checksum is negotiated, the reply parses and every digest byte equals the local one |
| Transfer.CheckLocal | src/copy_thread.c:638-670 | the CHECKSUM half of a round: no local copy without a covering map and a negotiated checksum; an interrupted exchange aborts; a parsed reply with an equal digest gives the local length; LocalMatchConditions states it |
| Transfer.LocalStep | src/copy_thread.c:638-670 | the CHECKSUM exchange computes CheckLocal, which takes the block locally exactly under LocalMatchConditions |
| Transfer.DataRound | src/copy_thread.c:685-740 | the DATA round: abort on a lost reply, bad sizes or a zero logical size before the counters grow; after they grow, abort on a lost payload or a decompression into the DATA_BLOCKSIZE buffer that does not give the logical size; otherwise done advances by the logical size |
| Transfer.DataStep | src/copy_thread.c:685-740 | the DATA exchange computes DataRound |
| Transfer.Round | src/copy_thread.c:632-741 | one round of the block loop: the request, then the local copy or the DATA round; RoundProgress states it |
| Transfer.BlockRound | src/copy_thread.c:632-741 | one round of the loop computes Round |
| Transfer.RoundProgress | src/copy_thread.c:674-733 | a round that goes on moves done forward, one that aborts does not; xbytes never grows faster than tbytes |
| Transfer.BlocksAccounting | src/copy_thread.c:630-741 | over the loop, done never goes down; a loop that finishes reaches the file size; xbytes never grows faster than tbytes |
| Transfer.Blocks | src/copy_thread.c:630-741 | the block loop: rounds until done reaches the file size or a round aborts; BlocksAccounting states it |
| Transfer.CopyBlocks | src/copy_thread.c:630-741 | the block loop computes Blocks |
| Transfer.LocalCopyMayOvershoot | src/copy_thread.c:674-682 | a one-byte block answered with length 5 is copied locally and the loop ends at offset 5 |
| Transfer.LastSlash | src/copy_thread.c:262 | strrchr: the last '/' of the name, none exactly when the name holds none |
| Transfer.ParentOfJoin | src/copy_thread.c:259-268 | the parent of dir/base is dir; a name without '/' has none |
| Transfer.TempDir | src/copy_thread.c:487-495 | the temporary file's directory is the name's parent, or the name itself when it holds no '/' |
| Transfer.TempTemplate | src/copy_thread.c:500-504 | the template is the directory followed by "/.should.XXXXXX" |
| Transfer.ExternalRequestStrips | src/copy_thread.c:458-466 | the external program is given the server name minus \|to_prefix\| characters, nothing when the name is shorter |
| Transfer.FileDataCodes | src/copy_thread.c:450-845 | the return code is 0, 1 or 2: 0 exactly when a directory, device, fifo or link has to be made, its parent could be made, and the creating call fails; 2 exactly when a regular file is renamed into place or a matching node is already there |
| Transfer.RegularTempCleanup | src/copy_thread.c:486-781 | a temporary file is made; a failed OPEN leaves it in place; an aborted loop or a failed close unlinks it and renames nothing |
| Transfer.RegularRenamed | src/copy_thread.c:751-767 | a file renamed into place returns 2 with the loop's counters, never unlinks the temporary file, and removes a directory that stands at the name |
| Transfer.RegularRenamedWhole | src/copy_thread.c:630-767 | a file renamed into place has had at least its whole size transferred |
| Transfer.NodeData | src/copy_thread.c:783-833 | the non-regular branch of copy_file_data: nothing for a matching node, else remove what is in the way, make the parent and create the node; NodeCreatedLast and FileDataCodes state it |
| Transfer.RegularData | src/copy_thread.c:477-782 | the regular-file branch of copy_file_data over the block loop's result: temporary file, OPEN, loop, close, rename into place; RegularTempCleanup, RegularRenamed and FileDataCodes state it |
| Transfer.FileData | src/copy_thread.c:450-845 | copy_file_data: the external copy, the regular branch or the node branch by file type; FileDataCodes states its codes |
| Transfer.NodeCreatedLast | src/copy_thread.c:783-833 | a matching node does nothing; otherwise what is in the way is removed first and the node is created last |
| Transfer.CopyRegular | src/copy_thread.c:477-782 | the regular-file branch computes RegularData with the block loop's result |
| Transfer.CopyFileData | src/copy_thread.c:450-845 | copy_file_data computes FileData with the block loop's result |
| Apply.TranslateRoundTrip | src/copy_thread.c:946-969 | a name under the from prefix maps to the same rest under the to prefix |
| Apply.TargetAsWrittenOverreads | src/copy_thread.c:970-975 | a to name the guard lets through although it is shorter than the from prefix is copied from beyond its end |
| Apply.TargetAsWrittenLeavesUnset | src/copy_thread.c:970-979 | a to name under the from prefix but shorter than the to prefix fails the guard and leaves tname unset, where the translation gives it a local name |
| Apply.TargetAsWrittenAgrees | src/copy_thread.c:970-979 | for names at least as long as both prefixes the code agrees with the translation |
| Apply.Translate | src/copy_thread.c:946-969 | the local name: the to prefix followed by the name after the from prefix; "" for a missing or shorter name; TranslateRoundTrip states it |
| Apply.AdjustMeta | src/copy_thread.c:1017-1045 | adjust_meta on the node's stat: lchown, chmod (not for a link), utime by difference, counted unless utime fails, nothing without a stat; AdjustMetaShape and AdjustMetaSteps state it |
| Apply.Matching | src/copy_thread.c:1065-1070 | the skip test: skipping enabled and the node matches in mtime, size and type |
| Apply.CopyData | src/copy_thread.c:1053-1099 | copy_data: skip or repair a matching node, refuse a type neither the data nor the create filter lets through, else call copy_file_data and act on its code; CopyDataCode and CopyDataShape state it |
| Apply.RenameOrCopy | src/copy_thread.c:1113-1134 | the rename of cp with its fall-back to a copy of the target when the source is gone; CpRenameFallsBack states it |
| Apply.Cp | src/copy_thread.c:937-1163 | cp: one event, the actions it takes and its return code; CpCode, CpGated, CpSkipsMatching, CpRenameFallsBack and CpSchedules state it |
| Apply.CpGated | src/copy_thread.c:981-1016 | an event outside its kind's filter, or a meta, data or create event without a valid stat, does nothing and returns 1 |
| Apply.AdjustMetaShape | src/copy_thread.c:1017-1045 | the metadata repair returns 1 and only appends metadata changes |
| Apply.AdjustMetaSteps | src/copy_thread.c:1017-1045 | lchown exactly when owner or group differ, chmod when the mode differs on a non-link, utime when the mtime differs; a change is counted unless utime fails |
| Apply.CpSkipsMatching | src/copy_thread.c:1065-1081 | a node that matches in type, size and mtime, with matching owner and mode, does nothing |
| Apply.CopyDataCode | src/copy_thread.c:1083-1099 | copy_data returns 0 exactly when its copy_file_data call does |
| Apply.CopyDataShape | src/copy_thread.c:1057-1099 | copy_data only appends, unlinks nothing, and calls copy_file_data on the names it was given |
| Apply.CpCode | src/copy_thread.c:937-1163 | cp returns 0 or 1, and 0 exactly when its last action is a copy_file_data that returned 0 |
| Apply.CpRenameFallsBack | src/copy_thread.c:1113-1134 | a rename whose source is gone tries the rename, unlinks the source exactly when deletes are replicated, and copies the target from the server's to name to its translated local name |
| Apply.CpRenameRepairsSource | src/copy_thread.c:1118-1128 | after that fall-back a copy returning 2 ends in metadata repair of the missing source, and nothing is counted |
| Apply.TreePath | src/copy_thread.c:1149-1153 | the add-tree path never starts with '/' |
| Apply.TreePathUnderPrefix | src/copy_thread.c:1149-1153 | for a name under the to prefix, the rest after the prefix is a run of '/' followed by the add-tree path, and the path does not start with '/' |
| Apply.CpSchedules | src/copy_thread.c:1135-1157 | overflow and no-space events ask for the root dirsync "overflow", add-tree events for "initial"; each only when its flag is set, with the deadline made absolute |
| Checkpoint.PairLine | src/copy_thread.c:2008 | a checkpoint line is at least four characters and ends in a newline |
| Checkpoint.CopyState | src/copy_thread.c:121-151 | read_copy_state: a format error without a usable line, else the last position and whether the file has more than MAX_POS lines; LastLineWins and CopyStateRoundTrip state it |
| Checkpoint.ReadCopyState | src/copy_thread.c:121-151 | the loop computes CopyState and leaves the file compacted to the last position exactly when it had more than MAX_POS lines |
| Checkpoint.LastLineWins | src/copy_thread.c:127-134 | a last line holding two integers decides the position, and compaction depends on the number of lines |
| Checkpoint.BlankLineIgnored | src/copy_thread.c:128-129 | a line of white space changes neither the position nor the count |
| Checkpoint.ScanPairLine | src/copy_thread.c:128 | a line as the thread writes it reads back as its two integers |
| Checkpoint.ReadRendered | src/copy_thread.c:127-131 | a file of written lines reads back as its last position and its number of lines |
| Checkpoint.CopyStateRoundTrip | src/copy_thread.c:121-147 | starting from such a file resumes at its last position, compacting when it has more than MAX_POS lines |
| Checkpoint.RecordCases | src/copy_thread.c:2001-2020 | a line is written only when the countdown and time are due and the position differs from fnum_cp/fpos_cp; the file then gains that line, or, once past MAX_POS bytes and when the seek succeeds, is cut back to the thread's own position, and only then does fnum_cp/fpos_cp become the event's position; a due step resets the countdown and the next time |
| Checkpoint.RecordBounded | src/copy_thread.c:2008-2018 | a file within MAX_POS bytes stays so unless it is compacted to one line |
| Checkpoint.BatchStops | src/copy_thread.c:1987-2000 | the batch stops exactly when a valid event's cp returned 0 |
| Checkpoint.Record | src/copy_thread.c:2001-2020 | the checkpoint step after one event; RecordCases and RecordBounded state its cases |
| Checkpoint.Batch | src/copy_thread.c:1987-2021 | the batch loop over the applied events, with the stop flag; BatchStops states when it stops |
| Checkpoint.Exit | src/copy_thread.c:2039-2040 | the position appended on exit unless it is the one last compacted to |
| Checkpoint.CheckpointLog.RecordEvent | src/copy_thread.c:2001-2020 | the file, fnum_cp/fpos_cp, the countdown and the next time change exactly as Record says, whose cases RecordCases and RecordBounded state |
| Checkpoint.CheckpointLog.RunBatch | src/copy_thread.c:1987-2021 | the batch loop leaves the log and the stop flag as Batch says: each event counts down, each valid one with a non-zero code may be checkpointed, and the loop stops at the first valid one whose cp returned 0 (BatchStops) |
| Checkpoint.CheckpointLog.Finish | src/copy_thread.c:2039-2040 | on exit the thread's position is appended unless it is the one last compacted to |

## Left out

- Socket and protocol plumbing is not modelled: the commands sent, `send_command_noreport`, `get_status`, `copy_init`, `copy_exit` and `copy_status`. Server replies are oracle values.
- The `EVBATCH` request is not modelled. It is only sent when the timeout is negative, and the timeout computed before it is never negative (`src/copy_thread.c:1927-1936`).
- The librsync signature and patch driving is not modelled (`src/copy_thread.c:369-434`, `539-627`), because it drives a foreign library. Only its `getfrom` clamp and the `getdata` size checks are modelled.
- Real filesystem effects are recorded as actions or answered by oracles: mkstemp, mmap, mkpath, rename, rmtree, unlink, lstat, readlink, mkdir/mknod/mkfifo/symlink, chown/chmod/utime, and writes to the temporary file, which are taken to succeed.
- The `fchmod`/`fchown` of the temporary file is not modelled, because its results are ignored.
- The `opendir`/`readdir` walk of `get_local_dir` is not modelled. The local listing is a parameter, or None when it cannot be read.
- The mutex around the queue and the counters is left out. Each queue operation is atomic in this sequential model.
- `time(NULL)` and `clock_gettime` are parameters. The `etime` accumulation (`src/copy_thread.c:2024-2033`) is left out.
- Events.BuildEvent: the STAT/NSTAT lines, the MTIME line (`sscanf`, `strptime`, `timegm`), and user and group translation are not parsed. Their outcomes are given as parsed values or as None.
- Reconcile.Decode: the `sscanf` of a listing row and the `strptime` of its mtime are not parsed either. A row arrives as its scanned fields, with the mtime check turned into a flag.
- Compression and checksum algorithms are oracles: the inflated length, and the digest of local data.
- `config_*` getters are parameters. `error_report` logging is left out.
- `copy_file` is not modelled: it is an I/O wrapper around `copy_file_data`.
- Peek mode (`do_peek`, `store_printevent`) is not modelled, and neither are the one-shot and catch-up start-up flags.
- The first event of a batch, read with a timeout and an overflow buffer, is not modelled as a separate driver. Its reply handling is the same GetNextEvent with the overflow allowed.
- Checkpoint.ReadCopyState: the lines are given already split. `fgets` may split a line longer than REPLSIZE, and that is not modelled. Failures of the seek, write and truncate are not modelled either.
- Checkpoint.CheckpointLog.RecordEvent: the file offset is the start offset plus the bytes of the lines written since. Write failures are not modelled; only the failure of the compaction's seek is.
- Apply.Translate: when a name is missing or shorter than the from prefix, the source leaves its buffer unset. The model uses "" there.
- Apply.RenameOrCopy: the local to name is the corrected translation of the fourth finding, not the code as written. So a to name with \|to_prefix\| <= length < \|from_prefix\| becomes "" where the code reads past its end, and one under the from prefix but shorter than the to prefix gets a local name where the code leaves tname unset. Apply.TargetAsWritten models the code; Apply.TargetAsWrittenOverreads and Apply.TargetAsWrittenLeavesUnset show the two cases.
- Apply.Cp: runs a rename through Apply.RenameOrCopy, so the same two to-name cases apply.
- Apply.CpRenameFallsBack: its copy target is that corrected translation, for the same reason.
- Reconcile.StepActions: a local-only entry is deleted at the corrected target to_prefix "/" path "/" name of the third finding, not at to_prefix path "/" name as the code has it. Below the root the two differ; Reconcile.DeleteTargetAsWritten models the code.
- Reconcile.MergeStep: deletes at the corrected target, as Reconcile.StepActions does.
- Reconcile.MergeListings: deletes at the corrected target, as Reconcile.StepActions does.
- Reconcile.DoDirsync: deletes at the corrected target, as Reconcile.StepActions does.
- Optimise.RenameChainExample: one instance. The statement for all inputs is Optimise.RenameWithChain.
- Integer width is not modelled. `int` event fields, file numbers and positions, `long long` sizes and counters, `time_t` deadlines and the values `sscanf`'s `%d` and `%lld` read are unbounded integers, so overflow and wrap-around in the source are not captured.
- Allocation failure is modelled only for the overflow buffer of `get_next_event` (`mallocOk`). A failed entry allocation in `get_server_dir` (`src/copy_thread.c:1558-1564`) or of its result array (`1610`) also loses the listing, and a failed allocation in `copy_dirsync` (`2097-2098`) drops the job. The model assumes those allocations succeed.
- Transfer.CopyFileData: the local copy trusts the CHECKSUM length. This is recorded by Transfer.LocalCopyMayOvershoot rather than excluded by a precondition.
- `get_local_dir` builds each entry name at an offset one character short for a non-root path (`src/copy_thread.c:1652-1653`). It is outside the modelled code, so that is not a finding here.

## Findings

| source | as written | input that shows it | evidently intended | confidence | as-written member | corrected member |
|---|---|---|---|---|---|---|
| src/copy_thread.c:1349-1351 | `while (evcount >= 0) { evcount--; if (! valid[evcount]) ...` also runs with evcount 0, reading `valid[-1]` (the same at 1414-1416) | any scan not stopped by a rename, e.g. evcount 0 | the scan visits evcount-1 down to 0 (`while (evcount > 0)`) | not executed | Optimise.ScanAsWrittenReadsMinusOne | Optimise.ScanVisitsBatch |
| src/copy_thread.c:1959-1961 | `dirsync_deadline >= time(NULL)` runs a dirsync while its absolute deadline is still ahead, and never once it has passed | one queued job, deadline 1000, now 400 fires; now 2000 does not | `dirsync_deadline <= time(NULL)`: run the queue when a deadline has passed | not executed | Dirsync.WaitingTooLongAsWrittenInverted | Dirsync.WaitingTooLongMeansOverdue |
| src/copy_thread.c:1802-1803 | `sprintf(lname, "%s%s/%s", tp, dq->path, ...)` puts no '/' between the to prefix and the path, unlike the listed directory (1645-1648) | to prefix "/dst", path "a", name "x" removes "/dsta/x" instead of "/dst/a/x" | to_prefix "/" path "/" name, matching the copy source | not executed | Reconcile.DeleteTargetAsWrittenMissesSeparator | Reconcile.DeleteTargetMatchesCopySource |
| src/copy_thread.c:970-975 | the to name is guarded by the length of the to prefix but copied from past the from prefix | from prefix "/srv/data", to prefix "/d", to name "/srv": the copy starts beyond the name's end; from prefix "/s", to prefix "/home/u/mirror", to name "/s/a": tname is left unset (Apply.TargetAsWrittenLeavesUnset) | guard on the from prefix, as for the from name (959) | not executed | Apply.TargetAsWrittenOverreads | Apply.TranslateRoundTrip |
