# A verified model of the virtual file system

This project models a small virtual file system written in C and proves what its design promises. The system keeps
files in a heap-allocated disk of fixed-size chunks and arranges files and folders in a tree of fixed-size records.
Two parts of it carry the weight, and both are modelled as the in-place updates they are.

**Storage** (`Storage`, `Extents`, `Disk`, `FileStorage`, `FileLogic`, `FileRuns`). A first-fit allocator marks chunks
in a bool map and caches a free count. A file is a compact table of extents over that map, and append, read and
truncate work on its bytes. The ideal behind it is one byte sequence per file. `Disk.Consistent` is the invariant: the
chunks of all files exist, are marked, have one owner each, every marked chunk has an owner, and free count and owned
chunks add up to the disk. The frame rule `Disk.ConfinedStep` reduces the effect of an operation on all files to its
effect on one, and `FileRuns.Run` shows that every run of operations refines the byte sequences: first fit on the
extents of all files alone decides each answer, and what is appended is read back.

**The entry tree** (`EntryTree`, `TreeSteps`, `TreeUpdates`, `Subtrees`, `Entries`, `Folders`, `EntryStore`,
`Relocation`, `Paths`, `PathChanges`, `PathUtils`, `Queries`, `Navigation`, `Outcomes`, `Witnesses`). Folders hold
slot arrays of children, children point back, and two maps say which records are live. `EntryTree.Valid` says that
slots and parent links are mutual, each child has one slot, sibling names are unique across files and folders, and
every live folder reaches the root. `TreeSteps` states each kind of change as a relation between two trees and proves
that it keeps the invariant; `TreeUpdates` shows that the assignments to the arrays are those changes. On top come
recursive deletion with the disk, moves that never close a cycle and carry the paths of a whole subtree along, and the
round trip between printing paths and resolving them. `Outcomes` reads the answers of the operations off records,
slots and paths, and `Witnesses` holds the trees on which the code does less than its comments promise.

**The whole system** (`SystemRuns`, `Directories`, `Acceptance`). A run is any sequence of commands on entries and
file data. Every command has its exact answer and its whole effect on tree, disk and extents, and keeps all of it
valid; an entry that no command is about keeps its place, its name and its content; and a file holds what its own data
commands made of it since it was created. `Directories` gives the view of a user: one map from entries to parents and
names, of which every command is one update. `Acceptance` says for every command when it is accepted, in terms of that
map, of the bytes and extents of files and of the free chunks.

The compile-time sizes of `system/include/settings.h` are unspecified positive constants (`Settings`), so every
statement holds for all of them. Pointers to records are positions in the arrays of the entry store, `NULL` is -1, and
the root folder, a struct of its own in the source, takes the position behind the folder array. The C struct `File` is
split: its name and parent link are a record in the store, its extents an object of class `FileStorage.File`. Names
are strings; what a name buffer holds behind its terminator is not modelled.

Long C functions are split: where a loop, a round of a loop or a final block of assignments is a method of its own,
its comment names the function it belongs to, and the contract of the function itself covers the whole.

Where code and comments differ, the model follows the code:

- `system/storage.c:67-70` lacks a `return`, so the comparison with the free count has no effect. The model keeps it
  without effect; the scan answers `NoSpace` all the same, by `Storage.FreeRunWithinFreeCount`.
- `system/storage.c:35` sets the cached free count from the size of the storage, which is right only for a storage of
  exactly `CHUNKS_AMOUNT` chunks (`Storage.StorageMan.Init`).
- `system/file_logic.c:63-94` moves its cursor to one before the first extent when everything is deleted; the model
  uses -1 there, as the comment at line 85 intends.
- `system/path_utils.c:234-246` writes one position behind its array before it reports a path that is too long, for
  entries like that of `Witnesses.PathIsLongerThanArray`. The array of the model is one longer, and the contract says
  that the last position is written in that case only.
- `system/vfs_entry_store.c:216-226`: a forced deletion of the root takes everything and then fails with
  `InvalidRootOperation` (`Witnesses.RootDeletionTakesAll`). One that meets the depth limit fails as well, and what it
  has taken by then stays gone. It has taken nothing exactly when `Subtrees.TakesNothing` holds: along the first occupied
  folder slots it goes straight down to the limit and meets no file. Both happen (`Witnesses.DeepDeletionTakesNothing`,
  `Witnesses.DeepDeletionTakesPart`).
- `system/entry_relocation.c:9-52`: `rename_file` lets a name of exactly `MAX_NAME_LENGTH` characters through, for which
  the name buffer of a file has no terminator left (`Witnesses.LongRenamePasses`).
- `system/include/folders.h:15` and `system/queries.c:141`: folder names may be one character longer than what path
  resolution can carry. `Navigation.PathRoundTrip` states exactly which entries are found,
  `Witnesses.LongNameIsLost` shows one that is not.

## Model

| member | source | states |
|---|---|---|
| Storage.StorageMan.Init | system/storage.c:11-38 | buffers that are too small are refused; otherwise no chunk is marked, and the cached count is right exactly when the storage holds CHUNKS_AMOUNT chunks |
| Storage.StorageMan.Challoc | system/storage.c:52-95 | complete first fit: succeeds exactly when a free run of the requested length exists, returns the lowest one, marks only it; a request above the free count is answered NoSpace; a refusal changes nothing |
| Storage.RoomMeans | system/storage.c:52-95 | any window of free chunks makes room, and first fit takes the lowest such window |
| Storage.FreeRunWithinFreeCount | system/storage.c:67-70 | no free run is longer than the free count, so the comparison without effect is made up for by the scan |
| Storage.CountFreeIsCardinality | system/storage.c:67-70 | the free count is the number of chunks without a mark |
| Storage.CountFreeMarked | system/storage.c:235-243 | marking a free run takes exactly its length from the number of free chunks |
| Storage.StorageMan.MarkAsAllocated | system/storage.c:235-243 | marks exactly the given range |
| Storage.StorageMan.Chfree | system/storage.c:97-114 | unmarks one chunk; the cached count stays right exactly when the chunk was marked |
| Storage.StorageMan.Chwrite | system/storage.c:116-149 | a write to a marked chunk replaces its front, keeps its end and every other chunk; the three refusals change nothing |
| Storage.ChunkAddress | system/storage.c:116-149 | chunk c begins at byte c * CHUNK_SIZE of the storage |
| Storage.StorageMan.Chread | system/storage.c:151-184 | copies one marked chunk into the buffer and nothing else |
| Storage.StorageMan.Chtrunc | system/storage.c:187-223 | the last bytes of a chunk become EOC, no other chunk changes |
| Extents.ChunksOfMember | system/file_storage.c:162-182 | a chunk is among the chunks of a file exactly when it lies within one of its extents |
| Extents.ChunkInExtent | system/file_logic.c:295-334 | the chunks of a file are counted through its extents, in order and without a gap |
| Extents.CutRunsCutsChunks | system/file_logic.c:63-137 | cutting extents from the end, whole ones and then part of one, drops exactly the last chunks |
| Extents.CutRunsIsPrefix | system/file_logic.c:63-137 | the extents left are a prefix of those before, in which only the last one may be shorter |
| Extents.ContentFrame | system/storage.c:116-149 | the content of a file depends on the bytes of its own chunks only |
| Disk.ConfinedStep | system/file_storage.c:162-182 | a step confined to one file keeps extents of all files disjoint, their union the marked chunks, and conserves chunks |
| Disk.ConfinedStepContents | system/file_storage.c:162-182 | such a step changes the content of no other file |
| FileStorage.File.Init | system/files.c:36-50 | whatever the table held, the file is then valid and owns nothing |
| FileStorage.File.AllocateChunks | system/file_storage.c:12-60 | the lowest free run goes to the first empty position and to the end of the file's chunks; each refusal changes nothing |
| FileStorage.File.FreeChunkExtent | system/file_storage.c:62-92 | exactly the chunks of that extent are unmarked and the extent leaves the ordered table |
| FileStorage.File.LeftShift | system/file_storage.c:187-237 | the loop over the occupied extents closes the gap and touches nothing behind the next gap |
| FileStorage.LeftShiftRemoves | system/file_storage.c:187-237 | a left shift removes exactly one element from the ordered list of extents and keeps the prefix compact |
| FileStorage.File.RightShift | system/file_storage.c:245-301 | opens a gap of the given size, or refuses without a change when the table is too full |
| FileStorage.RightShiftOpensGap | system/file_storage.c:245-301 | position by position: what is before k stays, the gap is empty, and every occupied extent from k on has moved by the size of the gap |
| FileStorage.RightThenLeftShifts | system/file_storage.c:245-301 | a right shift followed by left shifts from the last gap position down to the first restores the table |
| FileStorage.File.TruncateChunkExtent | system/file_storage.c:334-381 | the last chunks of the extent are given back although the loop frees in ascending order while the extent shrinks from its end |
| FileStorage.File.OwnsChunk | system/file_storage.c:162-182 | answers membership in the chunks of the file |
| FileStorage.File.WriteChunk | system/file_storage.c:94-127 | refuses chunks of other files without touching the storage |
| FileStorage.File.ReadChunk | system/file_storage.c:129-160 | refuses chunks of other files without touching the buffer |
| FileLogic.FileAppend | system/file_logic.c:399-485 | all or nothing: the exact answer; on success the lowest free run joins the extents, and byte by byte the old content stays, the data follows and 0x1E fills the last chunk; otherwise table, map, count and bytes are unchanged; no rollback status occurs |
| FileLogic.AppendAccepted | system/file_logic.c:399-485 | the answers of an append come down to one condition: there is data, an extent is left in the table and a free run is long enough |
| FileLogic.AppendAnswers | system/file_logic.c:399-485 | each refusal by the bytes that are free, the length of the data and the extents in use |
| FileLogic.AppendFits | system/file_logic.c:399-485 | any row of free chunks that holds the data is enough, and an accepted append takes the fewest chunks that hold it |
| FileLogic.GetRemainingData | system/file_logic.c:487-508 | the rest of the data with EOC behind it up to the chunk boundary |
| FileLogic.GetChunksAmount | system/file_logic.c:517-525 | the number of chunks that data needs |
| ChunkMath.ChunksForIsCeiling | system/file_logic.c:517-525 | that many chunks hold the data and no fewer do |
| FileLogic.FileTruncateBy | system/file_logic.c:32-137 | succeeds exactly on a non-empty file and at most its size; byte by byte the front of the content stays and 0x1E fills its last chunk; the extents lose the full chunks from the end |
| FileLogic.TruncateAnswers | system/file_logic.c:45-62 | each refusal by sizes in bytes |
| FileLogic.FreeFullExtents | system/file_logic.c:63-94 | the cursor ends at -1 only when no chunk of the file is left; what is kept is a prefix of the file |
| FileLogic.ShortenedContent | system/file_logic.c:95-137 | dropping whole chunks and overwriting the end of the last one kept yields the shortened, padded content |
| ChunkMath.TruncateArithmetic | system/file_logic.c:45-62 | full chunks and rest of the amount account for exactly the bytes dropped; all chunks go only when the amount is the whole file |
| FileLogic.FileReadAt | system/file_logic.c:139-250 | for every offset, amount and layout exactly the addressed bytes arrive at the front of the buffer and every byte behind them is as before; exact refusals |
| FileLogic.ReadFullChunks | system/file_logic.c:252-293 | delivers consecutive whole chunks of the content across extent borders; a run that leaves the file is answered with IndexOutOfBounds after the chunks that are there |
| FileLogic.ChunksThereIs | system/file_logic.c:252-293 | a run of chunks that leaves the file is read up to the end of the file |
| FileLogic.ReadChunkFromUntil | system/file_logic.c:338-395 | delivers the addressed part of one chunk of the content |
| FileLogic.ReadSplit | system/file_logic.c:190-245 | partial first chunk, full chunks and partial last chunk cover the slice and stay inside the file |
| FileLogic.GetChunkIndex | system/file_logic.c:295-334 | translates a position in the file into its chunk; each of the three failures with its exact condition |
| FileLogic.ContentAddress | system/file_logic.c:139-250 | byte by byte where a content lies in the storage: at offset % CHUNK_SIZE of the chunk that get_chunk_index names for offset / CHUNK_SIZE |
| FileLogic.ChunkIndexInExtents | system/file_logic.c:295-334 | that chunk is found by counting through the extents of the table |
| FileLogic.ChunkIndexAnswers | system/file_logic.c:295-334 | each answer on any table, well formed or not, by the amounts in its extents |
| FileLogic.ChunkIndexIsBijection | system/file_logic.c:295-334 | get_chunk_index succeeds exactly below allocated_size, and is one to one between those positions and the chunks that file_owns_chunk accepts |
| FileLogic.FileDeleteData | system/file_logic.c:556-588 | always succeeds, gives back every chunk and touches no other file |
| FileLogic.FileGetLastChunkExtent | system/file_logic.c:528-554 | finds the last occupied extent, also in a full table |
| FileRuns.Step | system/file_logic.c:399-485 | one operation on one of many files keeps the storage invariant; answer, extents and contents are those of the ideal model; a refusal leaves the disk as it is |
| FileRuns.Run | system/file_logic.c:32-137 | every run of appends, truncations and clears on any number of files refines the byte sequences, and each file holds what its own operations made of it; first fit on the extents decides every answer |
| FileRuns.MarkedIsCovered | system/file_storage.c:162-182 | in every sound state a chunk is marked exactly when an occupied extent of a live file covers it |
| FileRuns.CoveredOnce | system/file_storage.c:162-182 | no chunk is covered by two files or by two extents of one |
| FileRuns.FreeCountIsExact | system/storage.c:97-114 | the cached free count is the number of chunks without a mark |
| FileRuns.NonInterference | system/file_logic.c:556-588 | in the ideal model, over any history, a file holds what its own operations made of it |
| FileRuns.AppendsJoin | system/file_logic.c:399-485 | in the ideal model, appends leave the old content and then each accepted piece padded to a chunk boundary |
| FileRuns.AppendedPieceReadsBack | system/file_logic.c:139-250 | in the ideal model, each accepted piece stands at its own start offset |
| FileRuns.RunThenRead | system/file_logic.c:139-250 | file_read_at after a run on many files, with chunks freed and allocated again, delivers the slice of what the own operations of the file made of it; exact refusals |
| FileRuns.AppendedPieceIsRead | system/file_logic.c:139-250 | data appended in the middle of a run fills the buffer of a file_read_at at its offset after the run |
| EntryTree.OneDepth | system/include/folders.h:7-9 | the number of steps from a folder to the root is unique: no folder is its own ancestor |
| Entries.VFSEntryStore.Init | system/vfs_entry_store.c:20-41 | from any memory the store becomes a valid tree with the root as its only entry, unless the name of the root does not fit |
| Entries.NameEq | system/folders.c:455-490 | compares a terminated name with a buffer that may lack or contain a terminator |
| TreeSteps.AddedValid | system/folders.c:58-152 | adding an entry with a free name to a vacant slot keeps the tree invariant |
| TreeSteps.RemovedValid | system/folders.c:154-216 | removing a childless entry keeps the tree invariant |
| TreeSteps.RenamedValid | system/entry_relocation.c:9-93 | giving an entry a name that is free among its siblings keeps the tree invariant |
| TreeSteps.MovedValid | system/entry_relocation.c:96-198 | moving an entry keeps the tree invariant when the target is not below it |
| TreeSteps.MovedBelowItselfIsLost | system/entry_relocation.c:201-239 | the check for cycles is needed: a folder moved below itself no longer reaches the root |
| Folders.GetAvailablePosition | system/folders.c:513-556 | the first vacant slot, NoSpace exactly when there is none |
| Acceptance.FileSlots | system/folders.c:513-556 | a slot of a folder is vacant exactly when it has fewer files than slots |
| Folders.FindIndex | system/folders.c:219-260 | the first slot that holds the entry |
| Folders.SubEntryNameIsUnique | system/folders.c:396-449 | the search through both slot arrays answers whether any live child has the name |
| Folders.ValidateSubEntryName | system/folders.c:296-346 | the verdict on a name with the exact condition of every refusal |
| Folders.NameAnswers | system/folders.c:296-363 | each answer on a name by its length, its characters and the records of the store; every character but the terminator and the delimiter is accepted |
| Outcomes.PlainNameIsAccepted | system/folders.c:296-363 | a name without terminator and delimiter, not empty, not too long, not reserved and not that of another child is accepted by renames, moves and creations |
| Folders.NameStatusIsNameFree | system/folders.c:296-346 | the check passes exactly the names that keep sibling names unique |
| Folders.NameCharsAreValid | system/folders.c:348-363 | accepts exactly the names without terminator and delimiter |
| Folders.SetEntryName | system/folders.c:262-293 | the name is the text up to the first terminator |
| Folders.HasSubEntries | system/folders.c:365-394 | a folder has occupied slots exactly when some live entry names it as its parent |
| Folders.UnlinkSubFile | system/folders.c:154-172 | clears exactly the slot of a live file and its parent link; a file that is not live is refused, with or without a parent link |
| Folders.UnlinkSubFolder | system/folders.c:177-216 | the same for folders; the root and, without force, a folder with children are refused |
| EntryStore.ValidateVfsFolder | system/vfs_entry_store.c:365-388 | accepts exactly the live folders and the root |
| Outcomes.FolderAnswers | system/vfs_entry_store.c:365-388 | each answer by position and map |
| EntryStore.GetAvailableMapPosition | system/vfs_entry_store.c:424-444 | the first free position of an allocation map |
| EntryStore.SubFolderInit | system/folders.c:98-152 | fills the record and links it to the first vacant slot of the parent; the exact condition of every refusal |
| EntryStore.SubFileInit | system/folders.c:58-92 | links an initialised file to the first vacant slot of the parent; the exact condition of every refusal |
| EntryStore.FileInit | system/files.c:8-34 | a dead record gets name and empty table without any effect on live entries or the disk |
| EntryStore.VfsSubFolderInit | system/vfs_entry_store.c:113-169 | one folder is added to the tree, in the lowest free record and the first vacant slot, or nothing changes; exact status; tree and disk stay valid |
| Outcomes.CreateFolderAnswers | system/vfs_entry_store.c:113-169 | each answer by free records, vacant slots and the verdict on the name |
| EntryStore.VfsSubFileInit | system/vfs_entry_store.c:45-110 | one empty file is added to the tree, in the lowest free record and the first vacant slot, or no live entry changes; exact status; tree and disk stay valid with the same contents and extents |
| Outcomes.CreateFileAnswers | system/vfs_entry_store.c:45-110 | each answer by free records, vacant slots, the length of the name and the verdict on it |
| Outcomes.CreateNowhere | system/vfs_entry_store.c:45-169 | a creation in a folder that is none fails as the check of that folder does |
| EntryStore.DeleteVfsFile | system/vfs_entry_store.c:322-361 | removes exactly that file and gives back exactly its chunks; dead records and objects outside the store are refused without a change; tree and disk stay valid |
| EntryStore.LiveFileDeletes | system/vfs_entry_store.c:322-361 | deletion succeeds exactly for the live files of the store |
| Outcomes.DeleteFileAnswers | system/vfs_entry_store.c:322-361 | each answer by the map and the parent link, for records of the store and objects outside |
| EntryStore.DeleteFlatFolder | system/vfs_entry_store.c:234-253 | removes exactly a childless folder; the root and folders with children are refused |
| EntryStore.DeleteChildrenRecursive | system/vfs_entry_store.c:255-320 | terminates by its step bound while it clears the slots it walks over; succeeds exactly when it is not the root and nothing lies too deep, and then the subtree is gone; fails at the root with all below it gone; has taken nothing exactly when TakesNothing holds; tree and disk stay valid |
| EntryStore.DeleteVfsFolder | system/vfs_entry_store.c:177-229 | after success exactly the entries outside the subtree are live, the folder itself is not, and they have kept parent, name and content; the free count has grown by the chunks of the files in the subtree; exact status for every case, and what each failure has taken |
| Outcomes.DeleteFolderAnswers | system/vfs_entry_store.c:177-320 | each answer by the slots of the folder and the lengths of the paths below it |
| PathChanges.SubtreeIsPrefix | system/vfs_entry_store.c:255-320 | the subtree of a folder consists of the entries whose paths begin with its path, itself included |
| PathChanges.TooDeepIsLongPath | system/vfs_entry_store.c:262-265 | a recursion meets its limit exactly when some path in the subtree is too long for it |
| EntryStore.DroppedIsFreed | system/vfs_entry_store.c:345-358 | the free count grows by exactly the sizes of the files dropped |
| Witnesses.RootDeletionTakesAll | system/vfs_entry_store.c:216-226 | a forced deletion of the root that fails and has taken the entry below it |
| Witnesses.ChainGrows | system/vfs_entry_store.c:113-169 | nothing stops the creation of folders below the depth limit: ordinary creations build the chains of the witnesses |
| Witnesses.DeepDeletionTakesNothing | system/vfs_entry_store.c:262-310 | a forced deletion that meets the depth limit and has taken nothing |
| Witnesses.DeepDeletionTakesPart | system/vfs_entry_store.c:262-310 | a forced deletion that meets the depth limit and has taken something but not its folder |
| Relocation.RenameFile | system/entry_relocation.c:9-52 | only the name of that file changes, exactly when the name passes; the tree stays valid |
| Witnesses.LongRenamePasses | system/entry_relocation.c:9-52 | a name of MAX_NAME_LENGTH characters that passes for a live file, whose buffer has no room for it |
| Relocation.RenameFolder | system/entry_relocation.c:54-93 | only the name of that folder changes, exactly when the name passes; the root is refused |
| Relocation.MoveFile | system/entry_relocation.c:96-139 | the file leaves its slot for the first vacant one of the target, exactly when name and slot are free; exact status; otherwise nothing changes |
| Outcomes.MoveFileAnswers | system/entry_relocation.c:96-139 | each answer by the verdict on the name and the slots of the target |
| Relocation.ValidateNoCyclicMove | system/entry_relocation.c:201-239 | succeeds exactly when the target is not in the subtree and no folder lies MAX_FOLDER_DEPTH or more levels below: the cutoff never hides a cycle |
| Relocation.CycleAnswers | system/entry_relocation.c:201-239 | a cycle is reported only where the target lies below and near enough, the limit only where a folder lies that deep |
| Relocation.FirstProblemDecides | system/entry_relocation.c:220-237 | the slots are searched in their order, and the first one with a problem below it decides the answer |
| Relocation.MoveFolder | system/entry_relocation.c:141-198 | moves the folder with its subtree to the first vacant slot of the target under an exact condition; exact status of every refusal, in the order of the search; every folder still reaches the root; otherwise nothing changes |
| Outcomes.MoveFolderAnswers | system/entry_relocation.c:141-198 | each answer by the verdict on the name, the paths of folder and target and the slots of the target |
| PathChanges.PathsAfterMove | system/entry_relocation.c:141-198 | every entry of the moved subtree has the new path of the folder followed by its old way down from there, every other entry its old path, and each path resolves to its entry |
| PathChanges.PathsAfterRename | system/entry_relocation.c:54-93 | the entries of the subtree have the new name in the place of the old one, the others their old path, and each path resolves to its entry |
| PathChanges.PathOfChild | system/path_utils.c:95-197 | the path of an entry is that of its folder and its name |
| Paths.SplitUndoesJoin | system/path_utils.c:23-91 | splitting undoes joining with the delimiter, but for an empty last name, which is lost |
| Paths.PathGrows | system/path_utils.c:255-290 | each further name is written behind one more delimiter |
| Paths.PathLeadsToEntry | system/queries.c:165-191 | the names on the way down to an entry resolve to it |
| Paths.OnlyItsPathLeadsToEntry | system/queries.c:194-247 | no other list of names resolves to an entry: paths identify entries |
| Paths.ChildFound | system/queries.c:196-247 | a name finds the one child that has it, file or folder |
| PathUtils.ParseNode | system/path_utils.c:292-331 | the piece up to the next delimiter is copied and terminated, or reported as too long exactly when it does not fit |
| PathUtils.ParsePath | system/path_utils.c:23-91 | the buffers receive exactly the components; the first limit met on the way decides the error |
| Paths.ParseAnswers | system/path_utils.c:23-91 | each answer of the parser by the lengths of the components |
| PathUtils.AppendNodeNameToPath | system/path_utils.c:255-290 | writes delimiter, name and terminator and nothing else; overflow exactly as checked |
| PathUtils.GetParentFolders | system/path_utils.c:203-247 | the ancestors below the root, closest first; succeeds exactly with fewer than MAX_PATH_NODES_AMOUNT of them, and writes behind them only when it fails |
| PathUtils.ParentsChain | system/path_utils.c:203-247 | the array begins with the parent and goes on from each folder to its parent |
| Witnesses.PathIsLongerThanArray | system/path_utils.c:203-247 | an entry for which get_parent_folders runs over its array and fails |
| PathUtils.GetNodePath | system/path_utils.c:95-197 | accepts a buffer exactly from MAX_PATH_NODES_AMOUNT * (MAX_NAME_LENGTH + 1) + 1 characters on; prints the path of every entry with fewer than MAX_PATH_NODES_AMOUNT ancestors, character by character with its terminator and nothing behind it; the overflow answers never occur |
| PathUtils.NextFits | system/path_utils.c:139-195 | before each append there is room for the name and the terminator that the check leaves out |
| Queries.SearchSubFolder | system/queries.c:254-293 | finds the one live child folder with the name |
| Queries.SearchSubFile | system/queries.c:296-335 | finds the one live child file with the name |
| Queries.GetVfsNode | system/queries.c:196-247 | finds the one live child with the name, of either kind |
| Queries.ResolvePath | system/queries.c:124-192 | answers what the components of the path lead to from the given folder, or the limit error of the parser |
| Paths.ResolveStops | system/queries.c:165-247 | where and why names lead nowhere: at the first that is no name for a search, or that no child of the right kind has |
| Queries.GlobalSearchNodesByName | system/queries.c:11-116 | lists the live entries with the name and nothing behind them; overflows exactly when there are more than the buffer holds |
| Queries.AllCalledInOrder | system/queries.c:11-116 | files come before folders, each kind in the order of the records |
| Queries.LiveIffReached | system/vfs_entry_store.c:45-169 | the records marked live are exactly the entries that a walk down from the root meets |
| Queries.FlatSearchIsTraversal | system/queries.c:11-116 | the flat search finds exactly what a traversal from the root finds, each entry once |
| Navigation.WsResolvePath | workspace/navigation.c:14-56 | empty path and single delimiter answer the root; every other path answers what the lookup from its start says, also from a current folder that has been deleted |
| Navigation.PathAnswers | workspace/navigation.c:34-55 | the lookup starts at the root behind a leading delimiter and at the current folder otherwise, and the limits of the parser come first |
| Navigation.RelativeRoundTrip | workspace/navigation.c:34-55 | from a current folder the rest of the path of an entry below it leads to that entry, exactly within the limits; otherwise the limit that is met is reported |
| Navigation.ResolvedRelativePath | workspace/navigation.c:34-55 | a relative path that leads to an entry extends the path of the current folder to the path of that entry |
| Navigation.NothingBelowDeleted | workspace/navigation.c:34-55 | no relative path leads anywhere from the record of a deleted folder |
| Queries.DeletedIsBrowsable | system/vfs_entry_store.c:234-253 | the record of a deleted folder keeps no child in its slots |
| Navigation.PathRoundTrip | workspace/navigation.c:14-56 | the printed path of an entry resolves to it from every current folder exactly when it has at most MAX_PATH_NODES_AMOUNT names, each shorter than a name buffer; otherwise the limit that is met is reported |
| Navigation.PrintedRoundTrip | system/path_utils.c:95-197 | what get_node_path leaves in its buffer is a C string that resolves to the same entry |
| Navigation.ResolvedPathIsPrinted | system/queries.c:124-192 | an absolute path that leads to an entry consists of the names that are printed for it |
| Witnesses.LongNameIsLost | system/include/folders.h:15 | a valid tree with a folder whose printed path is not found |
| SystemRuns.FreshSystem | main.c:19-33 | what the two initialisations leave is a valid system |
| SystemRuns.Perform | system/vfs_entry_store.c:45-361 | every command, accepted or refused: its exact answer and its whole effect on tree, disk and extents; all of it stays valid |
| Acceptance.AcceptedExactly | system/vfs_entry_store.c:45-361 | for every command the exact condition under which it is accepted, in terms of the directory, of the bytes and extents of its file and of the free chunks |
| Acceptance.DataInBytes | system/file_logic.c:399-485 | byte by byte what an accepted append, truncation or clear of a run makes of its file, and that the bytes of all other files stay |
| Acceptance.DataInExtents | system/file_logic.c:32-137 | extent by extent the same: an append adds the lowest row of free chunks that is just long enough, a truncation keeps a prefix |
| Directories.CreationInDirectory | system/vfs_entry_store.c:45-169 | an accepted creation adds one entry to the directory, with the parent and the name given, in the lowest free record |
| Directories.DeletionInDirectory | system/vfs_entry_store.c:177-361 | an accepted deletion takes the file, or the subtree with its folder, out of the directory and nothing else |
| Directories.ChangeInDirectory | system/entry_relocation.c:9-198 | an accepted rename or move updates one field of one entry of the directory; data operations and refusals leave it alone |
| Directories.FailedDeletionInDirectory | system/vfs_entry_store.c:216-226 | what a deletion that is refused or fails half way leaves in the directory |
| Directories.DeletedIsGone | system/vfs_entry_store.c:177-320 | after an accepted deletion no entry of the subtree is live, the folder included; its files own nothing, its paths lead nowhere, and all other paths lead where they led |
| SystemRuns.Run | system/vfs_entry_store.c:45-361 | over every run of creations, deletions, renames, moves and data operations the states passed through are valid, each the effect of its command on the one before |
| SystemRuns.UntouchedEntryKept | system/vfs_entry_store.c:45-361 | an entry that no command of a run is about keeps its place, its name and its content |
| SystemRuns.FileIsReplay | system/file_logic.c:32-588 | a file that lives throughout a run holds the replay of its own data operations |
| SystemRuns.CreatedFileIsReplay | system/vfs_entry_store.c:45-110 | a file created in a run holds the replay, from nothing, of its own data operations since |

## Left out

- Relocation.RenameFile: requires that a name of exactly MAX_NAME_LENGTH characters is one that is refused, because the source would write a terminator behind the name buffer of the file.
- SystemRuns.Run: ends before a rename of that kind; commands about entries that do not exist are refused before the operation is reached, as the workspace does by resolving paths first.
- Folders.UnlinkSubFile: requires a parent link that is NULL or leads to a live folder, as its only caller has checked.
- PathUtils.AppendNodeNameToPath: requires room for the terminator when the check passes, because the check does not count it; the caller provides it.
- FileStorage.File.RightShift: no function of the source calls it, so it takes no part in the runs.
- The wrappers in `workspace/` other than path resolution, the command line in `cli/`, printing, and `truncate_path`.
- `malloc`, and checks of arguments for NULL.
- Machine-integer width: `size_t` and `int` are unbounded, so `offset + amount` cannot wrap around.
- A logical end of file: the source tracks physical bytes, so EOC is padding and nothing more.
- The numeric values of status codes, of which only the distinction is modelled.
