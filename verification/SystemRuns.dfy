/** Runs of the whole system: any sequence of commands on entries and file data, accepted or refused. */
module SystemRuns {
  import opened Settings
  import opened Storage
  import opened Extents
  import opened Disk
  import opened FileStorage
  import opened FileRuns
  import opened EntryTree
  import opened TreeSteps
  import opened TreeUpdates
  import opened Subtrees
  import opened Entries
  import opened Folders
  import opened EntryStore
  import opened Relocation

  // ---- States and commands -----------------------------------------------------------

  datatype Snapshot = Snapshot(tree: Tree, disk: Disk, layout: seq<seq<ChunkExtent>>)

  ghost function Now(s: VFSEntryStore, man: StorageMan): Snapshot
    requires man.Sized() && |s.fileData| == s.filesMap.Length
    reads s.files, s.folders, s.filesMap, s.foldersMap
    reads man, man.storage, man.allocationMap, set f | f in s.fileData :: f.extents
  {
    Snapshot(s.View(), DiskUnder(s, man), LayoutUnder(s))
  }

  /** A valid tree over a consistent disk, whose chunks are those of the extents of the live files. */
  ghost predicate SnapshotValid(a: Snapshot) {
    && Valid(a.tree) && a.disk.Consistent() && |a.disk.owned| == |a.layout| == |a.tree.files|
    && (forall i :: 0 <= i < |a.layout| ==> a.disk.owned[i] == ChunksOf(a.layout[i]))
    && (forall i, j :: 0 <= i < |a.layout| && 0 <= j < |a.layout[i]| ==> 0 < a.layout[i][j].chunkAmount)
    && (forall i :: 0 <= i < |a.layout| ==> |a.layout[i]| <= MAX_FILE_CHUNK_EXTENTS_AMOUNT)
    && forall i :: 0 <= i < |a.layout| && !Live(a.tree, FileNode(i)) ==> a.layout[i] == []
  }

  /** The content of file i. */
  ghost function Bytes(a: Snapshot, i: nat): seq<byte>
    requires i < |a.disk.owned|
  {
    Content(a.disk.owned[i], a.disk.view.bytes)
  }

  lemma SystemFacts(s: VFSEntryStore, man: StorageMan)
    requires SystemValid(s, man)
    ensures s.Valid() && s.Wired() && man.Sized() && |s.fileData| == s.filesMap.Length == VFS_MAX_FILES_AMOUNT
    ensures Now(s, man) == Snapshot(s.View(), DiskUnder(s, man), LayoutUnder(s))
    ensures SnapshotValid(Now(s, man)) && Sound(man, s.fileData, s.filesMap[..])
    ensures |LayoutUnder(s)| == VFS_MAX_FILES_AMOUNT
    ensures man.allocationMap != s.filesMap && man.allocationMap != s.foldersMap
    ensures forall f: nat :: Live(s.View(), FileNode(f)) <==> FileThere(s, f)
  {
    OwnedIsLayout(s.fileData, s.filesMap[..]);
  }

  lemma StillSystemValid(s: VFSEntryStore, man: StorageMan)
    requires s.Valid() && Sound(man, s.fileData, s.filesMap[..])
    requires man.allocationMap != s.filesMap && man.allocationMap != s.foldersMap
    ensures SystemValid(s, man)
  {
  }

  // ---- Where runs start --------------------------------------------------------------

  lemma {:induction false} NothingOwned(lists: seq<seq<nat>>)
    requires forall i :: 0 <= i < |lists| ==> lists[i] == []
    ensures TotalLength(lists) == 0 && Apart(lists)
  {
    if lists != [] { NothingOwned(lists[..|lists| - 1]); }
  }

  lemma EmptyDisk(d: Disk)
    requires d.view.Sized() && d.view.free == CHUNKS_AMOUNT
    requires forall c :: 0 <= c < CHUNKS_AMOUNT ==> !d.view.marks[c]
    requires forall i :: 0 <= i < |d.owned| ==> d.owned[i] == []
    ensures d.Consistent()
  {
    NothingOwned(d.owned);
  }

  /** What vfs_entry_store_init and storage_man_init leave behind is a valid system: no live entry, no chunk taken. */
  lemma FreshSystem(s: VFSEntryStore, man: StorageMan)
    requires s.Valid() && (forall n :: !Live(s.View(), n)) && man.Valid()
    requires forall c :: 0 <= c < CHUNKS_AMOUNT ==> !man.Marks()[c]
    requires man.allocationMap != s.filesMap && man.allocationMap != s.foldersMap
    ensures SystemValid(s, man)
  {
    var d := DiskOf(man, s.fileData, s.filesMap[..]);
    CountFreeAllFree(man.Marks());
    forall i | 0 <= i < |s.fileData| ensures !s.filesMap[i] {
      assert !Live(s.View(), FileNode(i));
    }
    EmptyDisk(d);
  }

  // ---- What a command does -----------------------------------------------------------

  datatype Command =
    | MakeFile(name: string, folder: int)
    | MakeFolder(name: string, folder: int)
    | RemoveFile(file: nat)
    | RemoveFolder(folder: int, force: bool)
    | RenameFileTo(file: nat, name: string)
    | RenameFolderTo(folder: int, name: string)
    | MoveFileTo(file: nat, target: int)
    | MoveFolderTo(folder: int, target: int)
    | Data(op: Op)

  /** The answer of the system: that the entry is not there, or that of the operation. */
  ghost function Answer(a: Snapshot, cmd: Command): Status {
    match cmd
    case MakeFile(name, p) => CreateFileStatus(a.tree, p, name)
    case MakeFolder(name, p) => CreateFolderStatus(a.tree, p, name)
    case RemoveFile(f) => if f < VFS_MAX_FILES_AMOUNT then DeleteFileStatus(a.tree, Stored(f)) else UnknownEntry
    case RemoveFolder(d, force) => DeleteFolderStatus(a.tree, d, force)
    case RenameFileTo(f, name) =>
      if Live(a.tree, FileNode(f)) then NameStatus(a.tree, ParentOf(a.tree, FileNode(f)), name) else UnknownEntry
    case RenameFolderTo(d, name) =>
      if FolderStatus(a.tree, d) != Success then FolderStatus(a.tree, d)
      else if d == ROOT then InvalidRootOperation
      else NameStatus(a.tree, ParentOf(a.tree, FolderNode(d)), name)
    case MoveFileTo(f, p) =>
      if !Live(a.tree, FileNode(f)) then UnknownEntry
      else if FolderStatus(a.tree, p) != Success then FolderStatus(a.tree, p)
      else MoveFileStatus(a.tree, f, p)
    case MoveFolderTo(d, p) =>
      if FolderStatus(a.tree, d) != Success then FolderStatus(a.tree, d)
      else if FolderStatus(a.tree, p) != Success then FolderStatus(a.tree, p)
      else MoveFolderStatus(a.tree, d, p)
    case Data(op) => if Live(a.tree, FileNode(op.file)) then Verdict(a.layout, op) else UnknownEntry
  }

  /** The first vacant slot of p for an entry of the kind of n. */
  ghost function FreeSlot(t: Tree, p: int, n: Node): nat {
    IndexIn(Slots(t, p, n), NULL)
  }

  /** The new entry n is in the lowest free position of its map and in the first vacant slot of p. */
  ghost predicate Created(t: Tree, marks: seq<bool>, t': Tree, n: Node, p: int, name: string) {
    FirstFree(marks, n.index) && Added(t, t', n, p, FreeSlot(t, p, n), name)
  }

  /** n has gone from its slot to the first vacant slot of p. */
  ghost predicate Relocated(t: Tree, t': Tree, n: Node, p: int) {
    Valid(t) && Live(t, n) && Moved(t, t', n, SlotOf(t, n), p, FreeSlot(t, p, n))
  }

  /** Exactly the entries in gone have disappeared, with the chunks of the files among them. */
  ghost predicate EntriesGone(a: Snapshot, b: Snapshot, gone: set<Node>) {
    Deleted(a.tree, a.disk, b.tree, b.disk, gone) && b.layout == Without(a.layout, gone)
  }

  ghost function Without(layout: seq<seq<ChunkExtent>>, gone: set<Node>): seq<seq<ChunkExtent>> {
    seq(|layout|, i requires 0 <= i < |layout| => if FileNode(i) in gone then [] else layout[i])
  }

  /** Deleting folder d has taken the entries in gone. */
  ghost predicate FolderRemoved(a: Snapshot, d: int, status: Status, b: Snapshot, gone: set<Node>) {
    EntriesGone(a, b, gone) && DeletionTakes(a.tree, d, status, gone)
  }

  ghost predicate ContentChanged(a: Snapshot, op: Op, b: Snapshot) {
    && b.layout == LayoutAfter(a.layout, op)
    && a.disk.Consistent() && b.disk.Consistent() && b.disk.Contents() == After(a.disk.Contents(), op, true)
  }

  /** A command that was accepted has done its work from a to b, and nothing else. */
  ghost predicate Done(a: Snapshot, cmd: Command, b: Snapshot) {
    match cmd
    case MakeFile(name, p) =>
      b == a.(tree := b.tree) && exists i :: Created(a.tree, a.tree.fileMap, b.tree, FileNode(i), p, CString(name))
    case MakeFolder(name, p) =>
      b == a.(tree := b.tree) && exists i :: Created(a.tree, a.tree.folderMap, b.tree, FolderNode(i), p, name)
    case RemoveFile(f) => EntriesGone(a, b, {FileNode(f)})
    case RemoveFolder(d, _) => exists gone :: FolderRemoved(a, d, Success, b, gone)
    case RenameFileTo(f, name) => b == a.(tree := b.tree) && Renamed(a.tree, b.tree, FileNode(f), name)
    case RenameFolderTo(d, name) => b == a.(tree := b.tree) && Renamed(a.tree, b.tree, FolderNode(d), name)
    case MoveFileTo(f, p) => b == a.(tree := b.tree) && Relocated(a.tree, b.tree, FileNode(f), p)
    case MoveFolderTo(d, p) => b == a.(tree := b.tree) && Relocated(a.tree, b.tree, FolderNode(d), p)
    case Data(op) => b.tree == a.tree && ContentChanged(a, op, b)
  }

  /** A command that was refused. A file that could not be created may have left its name in a dead record, and the
      deletion of a folder may fail half way; otherwise nothing has changed. */
  ghost predicate Refused(a: Snapshot, cmd: Command, status: Status, b: Snapshot) {
    match cmd
    case MakeFile(_, _) => b == a.(tree := b.tree) && Untouched(a.tree, b.tree)
    case RemoveFolder(d, _) => exists gone :: FolderRemoved(a, d, status, b, gone)
    case _ => b == a
  }

  ghost predicate Effect(a: Snapshot, cmd: Command, status: Status, b: Snapshot) {
    status == Answer(a, cmd) && if status == Success then Done(a, cmd, b) else Refused(a, cmd, status, b)
  }

  // ---- One command -------------------------------------------------------------------

  /** The workspace looks entries up before it acts on them; a command about a file that is not there changes
      nothing. */
  predicate FileThere(s: VFSEntryStore, f: nat)
    requires s.filesMap.Length == VFS_MAX_FILES_AMOUNT
    reads s.filesMap
  {
    f < VFS_MAX_FILES_AMOUNT && s.filesMap[f]
  }

  lemma NoSuchFile(a: Snapshot, cmd: Command)
    requires cmd.RenameFileTo? || cmd.MoveFileTo? || cmd.Data?
    requires var f := if cmd.Data? then cmd.op.file else cmd.file; !Live(a.tree, FileNode(f))
    ensures Effect(a, cmd, UnknownEntry, a)
  {
  }

  lemma FileMade(a: Snapshot, b: Snapshot, name: string, p: int, status: Status, i: int)
    requires b == a.(tree := b.tree) && status == CreateFileStatus(a.tree, p, name)
    requires status != Success ==> Untouched(a.tree, b.tree)
    requires status == Success ==>
               && FirstFree(a.tree.fileMap, i)
               && Added(a.tree, b.tree, FileNode(i), p, IndexIn(Slots(a.tree, p, FileNode(0)), NULL), CString(name))
    ensures Effect(a, MakeFile(name, p), status, b)
  {
    hide CreateFileStatus, Added, Untouched, CString, FirstFree, IndexIn;
    if status == Success {
      assert Slots(a.tree, p, FileNode(i)) == Slots(a.tree, p, FileNode(0));
      assert Created(a.tree, a.tree.fileMap, b.tree, FileNode(i), p, CString(name));
    }
  }

  lemma FilesInFootprint(man: StorageMan, files: seq<File>)
    ensures forall f :: f in files ==> f in Footprint(man, files) && f.extents in Footprint(man, files)
  {
  }

  method MakeOneFile(s: VFSEntryStore, ghost man: StorageMan, name: string, p: int) returns (status: Status)
    requires SystemValid(s, man)
    modifies s.files, s.folders, s.filesMap, Footprint(man, s.fileData)
    ensures SystemValid(s, man) && Effect(old(Now(s, man)), MakeFile(name, p), status, Now(s, man))
  {
    hide *;
    SystemFacts(s, man);
    FilesInFootprint(man, s.fileData);
    ghost var a := Now(s, man);
    var i;
    status, i := VfsSubFileInit(s, man, name, p);
    SystemFacts(s, man);
    FileMade(a, Now(s, man), name, p, status, i);
  }

  lemma FolderMade(a: Snapshot, b: Snapshot, name: string, p: int, status: Status, i: int)
    requires b == a.(tree := b.tree) && status == CreateFolderStatus(a.tree, p, name)
    requires status != Success ==> b == a
    requires status == Success ==>
               && FirstFree(a.tree.folderMap, i)
               && Added(a.tree, b.tree, FolderNode(i), p, IndexIn(Slots(a.tree, p, FolderNode(0)), NULL), name)
    ensures Effect(a, MakeFolder(name, p), status, b)
  {
    hide CreateFolderStatus, Added, FirstFree, IndexIn;
    if status == Success {
      assert Slots(a.tree, p, FolderNode(i)) == Slots(a.tree, p, FolderNode(0));
      assert Created(a.tree, a.tree.folderMap, b.tree, FolderNode(i), p, name);
    }
  }

  method MakeOneFolder(s: VFSEntryStore, ghost man: StorageMan, name: string, p: int) returns (status: Status)
    requires SystemValid(s, man)
    modifies s.folders, s.foldersMap
    ensures SystemValid(s, man) && Effect(old(Now(s, man)), MakeFolder(name, p), status, Now(s, man))
  {
    hide *;
    SystemFacts(s, man);
    ghost var a := Now(s, man);
    var i;
    status, i := VfsSubFolderInit(s, man, name, p);
    SystemFacts(s, man);
    FolderMade(a, Now(s, man), name, p, status, i);
  }

  lemma NoSuchPosition(a: Snapshot, f: nat)
    requires f >= VFS_MAX_FILES_AMOUNT
    ensures Effect(a, RemoveFile(f), UnknownEntry, a)
  {
  }

  lemma FileRemoved(a: Snapshot, b: Snapshot, f: nat, status: Status)
    requires SnapshotValid(a) && SnapshotValid(b) && f < VFS_MAX_FILES_AMOUNT
    requires status == DeleteFileStatus(a.tree, Stored(f))
    requires status != Success ==> b == a
    requires status == Success ==>
               && Live(a.tree, FileNode(f)) && Removed(a.tree, b.tree, FileNode(f), SlotOf(a.tree, FileNode(f)))
               && FilesDropped(a.disk, b.disk, {FileNode(f)}) && f < |a.layout| && b.layout == a.layout[f := []]
    ensures Effect(a, RemoveFile(f), status, b)
  {
    hide Deleted, Removed, FilesDropped, SlotOf, DeleteFileStatus, Valid, Disk.Consistent;
    if status == Success {
      DeletedOne(a.tree, a.disk, b.tree, b.disk, FileNode(f), SlotOf(a.tree, FileNode(f)));
      assert b.layout == Without(a.layout, {FileNode(f)});
    }
  }

  method RemoveOneFile(s: VFSEntryStore, man: StorageMan, f: nat) returns (status: Status)
    requires SystemValid(s, man)
    modifies s.files, s.folders, s.filesMap, Footprint(man, s.fileData)
    ensures SystemValid(s, man) && Effect(old(Now(s, man)), RemoveFile(f), status, Now(s, man))
  {
    hide *;
    SystemFacts(s, man);
    ghost var a := Now(s, man);
    if f >= VFS_MAX_FILES_AMOUNT {
      NoSuchPosition(a, f);
      return UnknownEntry;
    }
    status := DeleteVfsFile(s, man, Stored(f));
    SystemFacts(s, man);
    FileRemoved(a, Now(s, man), f, status);
  }

  /** Where a file has lost its extents, it has died or it had none. */
  lemma ThinnedIsWithout(a: Snapshot, b: Snapshot, gone: set<Node>)
    requires SnapshotValid(a) && SnapshotValid(b)
    requires Deleted(a.tree, a.disk, b.tree, b.disk, gone) && Thinned(a.layout, b.layout)
    ensures b.layout == Without(a.layout, gone)
  {
    hide Valid, Disk.Consistent, Content, Cleared;
    forall i | 0 <= i < |a.layout| ensures b.layout[i] == Without(a.layout, gone)[i] {
      if FileNode(i) in gone {
        assert !Live(b.tree, FileNode(i));
      } else {
        ChunksOfRuns(a.layout[i]);
        ChunksOfRuns(b.layout[i]);
      }
    }
  }

  lemma FolderDeleted(a: Snapshot, b: Snapshot, d: int, force: bool, status: Status, gone: set<Node>)
    requires status == DeleteFolderStatus(a.tree, d, force)
    requires SnapshotValid(a) && SnapshotValid(b) && Thinned(a.layout, b.layout)
    requires Deleted(a.tree, a.disk, b.tree, b.disk, gone) && DeletionTakes(a.tree, d, status, gone)
    ensures Effect(a, RemoveFolder(d, force), status, b)
  {
    hide Deleted, DeletionTakes, DeleteFolderStatus, SnapshotValid, Thinned, Without;
    ThinnedIsWithout(a, b, gone);
    assert FolderRemoved(a, d, status, b, gone);
  }

  method RemoveOneFolder(s: VFSEntryStore, man: StorageMan, d: int, force: bool) returns (status: Status)
    requires SystemValid(s, man)
    modifies s.files, s.folders, s.filesMap, s.foldersMap, Footprint(man, s.fileData)
    ensures SystemValid(s, man) && Effect(old(Now(s, man)), RemoveFolder(d, force), status, Now(s, man))
  {
    hide *;
    SystemFacts(s, man);
    ghost var a := Now(s, man);
    ghost var gone;
    status, gone := DeleteVfsFolder(s, man, d, force);
    SystemFacts(s, man);
    FolderDeleted(a, Now(s, man), d, force, status, gone);
  }

  lemma EntryRenamed(a: Snapshot, b: Snapshot, n: Node, name: string, status: Status)
    requires if n.FileNode? then n.index >= 0 && Live(a.tree, n) else FolderStatus(a.tree, n.index) == Success
    requires status == if n == FolderNode(ROOT) then InvalidRootOperation
                       else NameStatus(a.tree, ParentOf(a.tree, n), name)
    requires b == a.(tree := b.tree)
    requires if status == Success then Renamed(a.tree, b.tree, n, name) else b.tree == a.tree
    ensures Effect(a, if n.FileNode? then RenameFileTo(n.index, name) else RenameFolderTo(n.index, name), status, b)
  {
    hide Renamed, NameStatus;
  }

  method RenameOneFile(s: VFSEntryStore, ghost man: StorageMan, f: nat, name: string) returns (status: Status)
    requires SystemValid(s, man) && Permitted(s.View(), RenameFileTo(f, name))
    modifies s.files
    ensures SystemValid(s, man) && Effect(old(Now(s, man)), RenameFileTo(f, name), status, Now(s, man))
  {
    hide *;
    SystemFacts(s, man);
    ghost var a := Now(s, man);
    if !FileThere(s, f) {
      NoSuchFile(a, RenameFileTo(f, name));
      return UnknownEntry;
    }
    PermittedIs(a.tree, f, name);
    status := RenameFile(s, f, name);
    StillSystemValid(s, man);
    SystemFacts(s, man);
    EntryRenamed(a, Now(s, man), FileNode(f), name, status);
  }

  lemma NoSuchFolder(a: Snapshot, cmd: Command)
    requires cmd.RenameFolderTo? || cmd.MoveFolderTo?
    requires FolderStatus(a.tree, cmd.folder) != Success
    ensures Effect(a, cmd, FolderStatus(a.tree, cmd.folder), a)
  {
    hide FolderStatus;
  }

  method RenameOneFolder(s: VFSEntryStore, ghost man: StorageMan, d: int, name: string) returns (status: Status)
    requires SystemValid(s, man)
    modifies s.folders
    ensures SystemValid(s, man) && Effect(old(Now(s, man)), RenameFolderTo(d, name), status, Now(s, man))
  {
    hide *;
    SystemFacts(s, man);
    ghost var a := Now(s, man);
    status := ValidateVfsFolder(s, d);
    if status != Success {
      NoSuchFolder(a, RenameFolderTo(d, name));
      return status;
    }
    status := RenameFolder(s, d, name);
    StillSystemValid(s, man);
    SystemFacts(s, man);
    EntryRenamed(a, Now(s, man), FolderNode(d), name, status);
  }

  lemma NoSuchTarget(a: Snapshot, cmd: Command)
    requires cmd.MoveFileTo? || cmd.MoveFolderTo?
    requires if cmd.MoveFileTo? then Live(a.tree, FileNode(cmd.file)) else FolderStatus(a.tree, cmd.folder) == Success
    requires FolderStatus(a.tree, cmd.target) != Success
    ensures Effect(a, cmd, FolderStatus(a.tree, cmd.target), a)
  {
    hide FolderStatus;
  }

  lemma EntryMoved(a: Snapshot, b: Snapshot, n: Node, p: int, status: Status)
    requires SnapshotValid(a) && FolderStatus(a.tree, p) == Success
    requires if n.FileNode? then n.index >= 0 && Live(a.tree, n) else FolderStatus(a.tree, n.index) == Success
    requires status == if n.FileNode? then MoveFileStatus(a.tree, n.index, p) else MoveFolderStatus(a.tree, n.index, p)
    requires b == a.(tree := b.tree)
    requires if status == Success
             then Live(a.tree, n) &&
                  Moved(a.tree, b.tree, n, SlotOf(a.tree, n), p,
                        IndexIn(Slots(a.tree, p, if n.FileNode? then FileNode(0) else FolderNode(0)), NULL))
             else b.tree == a.tree
    ensures Effect(a, if n.FileNode? then MoveFileTo(n.index, p) else MoveFolderTo(n.index, p), status, b)
  {
    hide Moved, SlotOf, IndexIn, Valid, Disk.Consistent, MoveFileStatus, MoveFolderStatus, FolderStatus;
    assert Slots(a.tree, p, n) == Slots(a.tree, p, if n.FileNode? then FileNode(0) else FolderNode(0));
  }

  method MoveOneFile(s: VFSEntryStore, ghost man: StorageMan, f: nat, p: int) returns (status: Status)
    requires SystemValid(s, man)
    modifies s.files, s.folders
    ensures SystemValid(s, man) && Effect(old(Now(s, man)), MoveFileTo(f, p), status, Now(s, man))
  {
    hide *;
    SystemFacts(s, man);
    ghost var a := Now(s, man);
    if !FileThere(s, f) {
      NoSuchFile(a, MoveFileTo(f, p));
      return UnknownEntry;
    }
    status := ValidateVfsFolder(s, p);
    if status != Success {
      NoSuchTarget(a, MoveFileTo(f, p));
      return status;
    }
    status := MoveFile(s, f, p);
    StillSystemValid(s, man);
    SystemFacts(s, man);
    EntryMoved(a, Now(s, man), FileNode(f), p, status);
  }

  method MoveOneFolder(s: VFSEntryStore, ghost man: StorageMan, d: int, p: int) returns (status: Status)
    requires SystemValid(s, man)
    modifies s.folders
    ensures SystemValid(s, man) && Effect(old(Now(s, man)), MoveFolderTo(d, p), status, Now(s, man))
  {
    hide *;
    SystemFacts(s, man);
    ghost var a := Now(s, man);
    status := ValidateVfsFolder(s, d);
    if status != Success {
      NoSuchFolder(a, MoveFolderTo(d, p));
      return status;
    }
    status := ValidateVfsFolder(s, p);
    if status != Success {
      NoSuchTarget(a, MoveFolderTo(d, p));
      return status;
    }
    status := MoveFolder(s, d, p);
    StillSystemValid(s, man);
    SystemFacts(s, man);
    EntryMoved(a, Now(s, man), FolderNode(d), p, status);
  }

  lemma SoundContents(s: VFSEntryStore, man: StorageMan)
    requires SystemValid(s, man)
    ensures Sound(man, s.fileData, s.filesMap[..]) && man.Sized() && |s.fileData| == s.filesMap.Length
    ensures DiskUnder(s, man) == DiskOf(man, s.fileData, s.filesMap[..])
    ensures LayoutUnder(s) == LayoutOf(s.fileData, s.filesMap[..])
    ensures DiskUnder(s, man).Consistent()
    ensures ContentsOf(man, s.fileData, s.filesMap[..]) == DiskUnder(s, man).Contents()
  {
  }

  lemma ThereInMap(s: VFSEntryStore, f: nat)
    requires s.filesMap.Length == VFS_MAX_FILES_AMOUNT && FileThere(s, f)
    ensures f < s.filesMap.Length && s.filesMap[..][f]
  {
  }

  lemma ContentDone(a: Snapshot, b: Snapshot, op: Op, status: Status)
    requires Live(a.tree, FileNode(op.file)) && b.tree == a.tree
    requires status == Verdict(a.layout, op) && b.layout == LayoutAfter(a.layout, op)
    requires a.disk.Consistent() && b.disk.Consistent()
    requires b.disk.Contents() == After(a.disk.Contents(), op, status == Success)
    requires status != Success ==> b.disk == a.disk
    ensures Effect(a, Data(op), status, b)
  {
    hide After, Verdict, Disk.Consistent;
  }

  method Change(s: VFSEntryStore, man: StorageMan, op: Op) returns (status: Status)
    requires SystemValid(s, man)
    modifies Footprint(man, s.fileData)
    ensures SystemValid(s, man) && Effect(old(Now(s, man)), Data(op), status, Now(s, man))
  {
    hide *;
    SystemFacts(s, man);
    SoundContents(s, man);
    ghost var a := Now(s, man);
    if !FileThere(s, op.file) {
      NoSuchFile(a, Data(op));
      return UnknownEntry;
    }
    StoreApart(s, man);
    ThereInMap(s, op.file);
    status := Step(man, s.fileData, s.filesMap[..], op);
    StillSystemValid(s, man);
    SystemFacts(s, man);
    SoundContents(s, man);
    ContentDone(a, Now(s, man), op, status);
  }

  /** A name that fills the name buffer of a file without room for a terminator must not reach a file that would take
      it. */
  ghost predicate Permitted(t: Tree, cmd: Command) {
    cmd.RenameFileTo? && |cmd.name| == MAX_NAME_LENGTH && Live(t, FileNode(cmd.file)) ==>
      NameStatus(t, ParentOf(t, FileNode(cmd.file)), cmd.name) != Success
  }

  lemma PermittedIs(t: Tree, f: nat, name: string)
    requires Permitted(t, RenameFileTo(f, name)) && Live(t, FileNode(f))
    ensures |name| == MAX_NAME_LENGTH ==> NameStatus(t, ParentOf(t, FileNode(f)), name) != Success
  {
  }

  /** Any one command, accepted or refused: the answer and the whole effect. The system stays valid. */
  method Perform(s: VFSEntryStore, man: StorageMan, cmd: Command) returns (status: Status)
    requires SystemValid(s, man) && Permitted(s.View(), cmd)
    modifies s.files, s.folders, s.filesMap, s.foldersMap, Footprint(man, s.fileData)
    ensures SystemValid(s, man) && Effect(old(Now(s, man)), cmd, status, Now(s, man))
  {
    hide *;
    match cmd
    case MakeFile(name, p) => status := MakeOneFile(s, man, name, p);
    case MakeFolder(name, p) => status := MakeOneFolder(s, man, name, p);
    case RemoveFile(f) => status := RemoveOneFile(s, man, f);
    case RemoveFolder(d, force) => status := RemoveOneFolder(s, man, d, force);
    case RenameFileTo(f, name) => status := RenameOneFile(s, man, f, name);
    case RenameFolderTo(d, name) => status := RenameOneFolder(s, man, d, name);
    case MoveFileTo(f, p) => status := MoveOneFile(s, man, f, p);
    case MoveFolderTo(d, p) => status := MoveOneFolder(s, man, d, p);
    case Data(op) => status := Change(s, man, op);
  }

  // ---- Whole runs --------------------------------------------------------------------

  /** The valid states that a run passes through, from one to the next by the whole effect of its commands. */
  ghost predicate Trace(snaps: seq<Snapshot>, cmds: seq<Command>, statuses: seq<Status>) {
    && |snaps| == |cmds| + 1 == |statuses| + 1
    && (forall k :: 0 <= k < |snaps| ==> SnapshotValid(snaps[k]))
    && forall k :: 0 <= k < |cmds| ==> Effect(snaps[k], cmds[k], statuses[k], snaps[k + 1])
  }

  lemma TraceOfNothing(a: Snapshot)
    requires SnapshotValid(a)
    ensures Trace([a], [], [])
  {
    hide SnapshotValid, Effect;
  }

  lemma TraceContinues(a: Snapshot, status: Status, snaps: seq<Snapshot>, cmds: seq<Command>, statuses: seq<Status>)
    requires cmds != [] && |statuses| < |cmds| && Trace(snaps, cmds[1..][..|statuses|], statuses)
    requires SnapshotValid(a) && Effect(a, cmds[0], status, snaps[0])
    ensures Trace([a] + snaps, cmds[..|[status] + statuses|], [status] + statuses)
  {
    hide SnapshotValid, Effect;
    var cmds', statuses' := cmds[..|statuses| + 1], [status] + statuses;
    forall k | 0 <= k < |cmds'| ensures Effect(([a] + snaps)[k], cmds'[k], statuses'[k], ([a] + snaps)[k + 1]) {
      if k > 0 { assert cmds'[k] == cmds[1..][..|statuses|][k - 1]; }
    }
  }

  method CheckPermitted(s: VFSEntryStore, cmd: Command) returns (permitted: bool)
    requires s.Valid()
    ensures permitted <==> Permitted(s.View(), cmd)
  {
    hide NameStatus, EntryTree.Valid;
    if !cmd.RenameFileTo? || |cmd.name| != MAX_NAME_LENGTH || cmd.file >= VFS_MAX_FILES_AMOUNT { return true; }
    if !s.filesMap[cmd.file] { return true; }
    FilesInArray(s, cmd.file);
    var status := ValidateSubEntryName(s, s.files[cmd.file].parent, cmd.name);
    return status != Success;
  }

  /** Any sequence of commands: tree and disk are valid after each of them, and each has answered and done what Effect
      says. The run ends before the first command that is not permitted. */
  method Run(s: VFSEntryStore, man: StorageMan, cmds: seq<Command>)
    returns (statuses: seq<Status>, ghost snaps: seq<Snapshot>)
    requires SystemValid(s, man)
    modifies s.files, s.folders, s.filesMap, s.foldersMap, Footprint(man, s.fileData)
    ensures SystemValid(s, man)
    ensures |statuses| <= |cmds| && Trace(snaps, cmds[..|statuses|], statuses)
    ensures |snaps| == |statuses| + 1 && snaps[0] == old(Now(s, man)) && snaps[|statuses|] == Now(s, man)
    ensures |statuses| < |cmds| ==> !Permitted(s.View(), cmds[|statuses|])
    decreases |cmds|
  {
    hide *;
    SystemFacts(s, man);
    ghost var a := Now(s, man);
    TraceOfNothing(a);
    if |cmds| == 0 { return [], [a]; }
    var permitted := CheckPermitted(s, cmds[0]);
    if !permitted { return [], [a]; }
    var status := Perform(s, man, cmds[0]);
    statuses, snaps := Run(s, man, cmds[1..]);
    SystemFacts(s, man);
    TraceContinues(a, status, snaps, cmds, statuses);
    statuses, snaps := [status] + statuses, [a] + snaps;
  }

  // ---- What runs leave alone ---------------------------------------------------------

  /** The command is about entry n: it may change, move or delete it. */
  ghost predicate Touches(t: Tree, cmd: Command, n: Node) {
    match cmd
    case MakeFile(_, _) => false
    case MakeFolder(_, _) => false
    case RemoveFile(f) => n == FileNode(f)
    case RemoveFolder(d, _) => InSubtree(t, d, n)
    case RenameFileTo(f, _) => n == FileNode(f)
    case RenameFolderTo(d, _) => n == FolderNode(d)
    case MoveFileTo(f, _) => n == FileNode(f)
    case MoveFolderTo(d, _) => n == FolderNode(d)
    case Data(op) => n == FileNode(op.file)
  }

  /** Entry n lives on under the same name in the same folder, a file with the same content. */
  ghost predicate Kept(a: Snapshot, b: Snapshot, n: Node) {
    && Live(b.tree, n) && ParentOf(b.tree, n) == ParentOf(a.tree, n) && NameOf(b.tree, n) == NameOf(a.tree, n)
    && (n.FileNode? ==> 0 <= n.index < |a.disk.owned| == |b.disk.owned| && Bytes(b, n.index) == Bytes(a, n.index))
  }

  lemma KeptTwice(a: Snapshot, b: Snapshot, c: Snapshot, n: Node)
    requires Kept(a, b, n) && Kept(b, c, n)
    ensures Kept(a, c, n)
  {
  }

  lemma KeptNothing(a: Snapshot, n: Node)
    requires SnapshotValid(a) && Live(a.tree, n)
    ensures Kept(a, a, n)
  {
  }

  lemma OthersKept(a: Snapshot, b: Snapshot, m: Node, n: Node)
    requires SnapshotValid(a) && b == a.(tree := b.tree) && KeepsOthers(a.tree, b.tree, m) && Live(a.tree, n) && n != m
    ensures Kept(a, b, n)
  {
  }

  lemma SurvivorsKept(a: Snapshot, b: Snapshot, gone: set<Node>, n: Node)
    requires SnapshotValid(a) && EntriesGone(a, b, gone) && Live(a.tree, n) && n !in gone
    ensures Kept(a, b, n)
  {
    hide Content, Cleared;
    assert Live(b.tree, n);
  }

  lemma UntouchedKept(a: Snapshot, b: Snapshot, n: Node)
    requires SnapshotValid(a) && b == a.(tree := b.tree) && Untouched(a.tree, b.tree) && Live(a.tree, n)
    ensures Kept(a, b, n)
  {
  }

  lemma OtherContentsKept(a: Snapshot, op: Op, b: Snapshot, n: Node)
    requires SnapshotValid(a) && SnapshotValid(b) && b.tree == a.tree && ContentChanged(a, op, b)
    requires Live(a.tree, n) && n != FileNode(op.file)
    ensures Kept(a, b, n)
  {
    if n.FileNode? { assert b.disk.Contents()[n.index] == a.disk.Contents()[n.index]; }
  }

  lemma StepKeeps(a: Snapshot, cmd: Command, status: Status, b: Snapshot, n: Node)
    requires SnapshotValid(a) && SnapshotValid(b) && Effect(a, cmd, status, b)
    requires Live(a.tree, n) && !Touches(a.tree, cmd, n)
    ensures Kept(a, b, n)
  {
    hide SnapshotValid, Answer, Kept, EntriesGone, ContentChanged, KeepsOthers, KeepsSlots, Untouched, Live, InSubtree;
    if cmd.RemoveFolder? {
      var gone :| FolderRemoved(a, cmd.folder, status, b, gone);
      SurvivorsKept(a, b, gone, n);
    } else if status != Success {
      if cmd.MakeFile? { UntouchedKept(a, b, n); } else { KeptNothing(a, n); }
    } else {
      DoneKeeps(a, cmd, b, n);
    }
  }

  lemma DoneKeeps(a: Snapshot, cmd: Command, b: Snapshot, n: Node)
    requires SnapshotValid(a) && SnapshotValid(b) && Done(a, cmd, b) && Live(a.tree, n) && !Touches(a.tree, cmd, n)
    requires !cmd.RemoveFolder?
    ensures Kept(a, b, n)
  {
    hide SnapshotValid, Kept, EntriesGone, ContentChanged, KeepsOthers, KeepsSlots, Untouched, InSubtree, Slots;
    hide Vacant, SlotSet;
    match cmd
    case MakeFile(name, p) =>
      var i :| Created(a.tree, a.tree.fileMap, b.tree, FileNode(i), p, CString(name));
      OthersKept(a, b, FileNode(i), n);
    case MakeFolder(name, p) =>
      var i :| Created(a.tree, a.tree.folderMap, b.tree, FolderNode(i), p, name);
      OthersKept(a, b, FolderNode(i), n);
    case RemoveFile(f) => SurvivorsKept(a, b, {FileNode(f)}, n);
    case RenameFileTo(f, _) => OthersKept(a, b, FileNode(f), n);
    case RenameFolderTo(d, _) => OthersKept(a, b, FolderNode(d), n);
    case MoveFileTo(f, _) => OthersKept(a, b, FileNode(f), n);
    case MoveFolderTo(d, _) => OthersKept(a, b, FolderNode(d), n);
    case Data(op) => OtherContentsKept(a, op, b, n);
  }

  /** An entry that no command of a run is about is still there at its end, under its name, in its folder and with its
      content. */
  lemma {:induction false} UntouchedEntryKept(snaps: seq<Snapshot>, cmds: seq<Command>, statuses: seq<Status>, n: Node)
    requires Trace(snaps, cmds, statuses) && Live(snaps[0].tree, n)
    requires forall k :: 0 <= k < |cmds| ==> !Touches(snaps[k].tree, cmds[k], n)
    ensures Kept(snaps[0], snaps[|cmds|], n)
    decreases |cmds|
  {
    hide SnapshotValid, Effect, Touches, Kept;
    if cmds == [] {
      KeptNothing(snaps[0], n);
    } else {
      StepKeeps(snaps[0], cmds[0], statuses[0], snaps[1], n);
      assert Live(snaps[1].tree, n) by { KeptLives(snaps[0], snaps[1], n); }
      UntouchedEntryKept(snaps[1..], cmds[1..], statuses[1..], n);
      KeptTwice(snaps[0], snaps[1], snaps[|cmds|], n);
    }
  }

  lemma KeptLives(a: Snapshot, b: Snapshot, n: Node)
    requires Kept(a, b, n)
    ensures Live(b.tree, n)
  {
  }

  // ---- What files hold after runs ----------------------------------------------------

  /** The operations on file data in a run, and whether they were accepted. */
  ghost function OpsIn(cmds: seq<Command>): seq<Op>
    decreases |cmds|
  {
    if cmds == [] then [] else (if cmds[0].Data? then [cmds[0].op] else []) + OpsIn(cmds[1..])
  }

  ghost function AcceptedIn(cmds: seq<Command>, statuses: seq<Status>): (accepted: seq<bool>)
    requires |statuses| == |cmds|
    ensures |accepted| == |OpsIn(cmds)|
    decreases |cmds|
  {
    if cmds == [] then []
    else (if cmds[0].Data? then [statuses[0] == Success] else []) + AcceptedIn(cmds[1..], statuses[1..])
  }

  lemma StillThere(a: Snapshot, i: nat)
    requires SnapshotValid(a) && Live(a.tree, FileNode(i))
    ensures i < |a.disk.owned|
  {
  }

  lemma ChangedContent(a: Snapshot, op: Op, b: Snapshot, i: nat)
    requires ContentChanged(a, op, b) && i < |a.disk.owned| && i < |b.disk.owned|
    ensures Bytes(b, i) == if op.file == i then Ideal(Bytes(a, i), op, true) else Bytes(a, i)
  {
    hide Disk.Consistent, Ideal;
    assert b.disk.Contents()[i] == Bytes(b, i) && a.disk.Contents()[i] == Bytes(a, i);
  }

  lemma SurvivorContent(a: Snapshot, b: Snapshot, gone: set<Node>, i: nat)
    requires EntriesGone(a, b, gone) && Live(b.tree, FileNode(i)) && i < |a.disk.owned| && i < |b.disk.owned|
    ensures Bytes(b, i) == Bytes(a, i)
  {
    hide Content, Cleared;
    assert FileNode(i) !in gone;
  }

  lemma SameDisk(a: Snapshot, b: Snapshot, i: nat)
    requires b.disk == a.disk && i < |a.disk.owned|
    ensures Bytes(b, i) == Bytes(a, i)
  {
  }

  lemma StepContent(a: Snapshot, cmd: Command, status: Status, b: Snapshot, i: nat)
    requires SnapshotValid(a) && SnapshotValid(b) && Effect(a, cmd, status, b)
    requires Live(a.tree, FileNode(i)) && Live(b.tree, FileNode(i)) && i < |a.disk.owned| && i < |b.disk.owned|
    ensures Bytes(b, i) ==
            if cmd.Data? && cmd.op.file == i then Ideal(Bytes(a, i), cmd.op, status == Success) else Bytes(a, i)
  {
    hide SnapshotValid, Answer, DeletionTakes, Created, Relocated, Renamed, Ideal, Untouched, Bytes, EntriesGone;
    if cmd.Data? {
      if status == Success { ChangedContent(a, cmd.op, b, i); } else { RefusedKeeps(Bytes(a, i), cmd.op); }
    } else if cmd.RemoveFolder? {
      var gone :| FolderRemoved(a, cmd.folder, status, b, gone);
      SurvivorContent(a, b, gone, i);
    } else if cmd.RemoveFile? && status == Success {
      SurvivorContent(a, b, {FileNode(cmd.file)}, i);
    } else {
      assert Bytes(b, i) == Bytes(a, i) by { assert b.disk == a.disk; SameDisk(a, b, i); }
    }
  }

  /** A file that is there throughout a run holds what its own operations on data, and nothing else, have made of its
      content. */
  lemma {:induction false} FileIsReplay(snaps: seq<Snapshot>, cmds: seq<Command>, statuses: seq<Status>, i: nat)
    requires Trace(snaps, cmds, statuses) && forall k :: 0 <= k < |snaps| ==> Live(snaps[k].tree, FileNode(i))
    ensures i < |snaps[0].disk.owned| && i < |snaps[|cmds|].disk.owned|
    ensures Bytes(snaps[|cmds|], i) == ReplayOne(Bytes(snaps[0], i), OpsIn(cmds), AcceptedIn(cmds, statuses), i)
    decreases |cmds|
  {
    hide SnapshotValid, Effect, Live, Bytes, Ideal;
    StillThere(snaps[0], i);
    if cmds != [] {
      StillThere(snaps[1], i);
      StepContent(snaps[0], cmds[0], statuses[0], snaps[1], i);
      FileIsReplay(snaps[1..], cmds[1..], statuses[1..], i);
      ReplayNext(Bytes(snaps[0], i), cmds, statuses, i);
    }
  }

  lemma ReplayNext(content: seq<byte>, cmds: seq<Command>, statuses: seq<Status>, i: nat)
    requires cmds != [] && |statuses| == |cmds|
    ensures var next := if cmds[0].Data? && cmds[0].op.file == i
                        then Ideal(content, cmds[0].op, statuses[0] == Success) else content;
            ReplayOne(content, OpsIn(cmds), AcceptedIn(cmds, statuses), i) ==
            ReplayOne(next, OpsIn(cmds[1..]), AcceptedIn(cmds[1..], statuses[1..]), i)
  {
    hide Ideal;
    if cmds[0].Data? {
      assert OpsIn(cmds)[1..] == OpsIn(cmds[1..]);
      assert AcceptedIn(cmds, statuses)[1..] == AcceptedIn(cmds[1..], statuses[1..]);
    } else {
      assert OpsIn(cmds) == OpsIn(cmds[1..]);
      assert AcceptedIn(cmds, statuses) == AcceptedIn(cmds[1..], statuses[1..]);
    }
  }

  /** Only the creation of a file brings a file to life, and it is empty then. */
  lemma NewFileIsEmpty(a: Snapshot, cmd: Command, status: Status, b: Snapshot, i: nat)
    requires SnapshotValid(a) && SnapshotValid(b) && Effect(a, cmd, status, b)
    requires !Live(a.tree, FileNode(i)) && Live(b.tree, FileNode(i))
    ensures cmd.MakeFile? && status == Success && i < |b.disk.owned| && Bytes(b, i) == []
  {
    StillThere(b, i);
    OnlyMakingMakes(a, cmd, status, b, i);
    hide Effect, Valid, Disk.Consistent, Live;
    assert a.layout[i] == [] && a.disk.owned[i] == [];
  }

  lemma OnlyMakingMakes(a: Snapshot, cmd: Command, status: Status, b: Snapshot, i: nat)
    requires Effect(a, cmd, status, b) && !Live(a.tree, FileNode(i)) && Live(b.tree, FileNode(i))
    ensures cmd.MakeFile? && status == Success && b.disk == a.disk
  {
    hide Answer, DeletionTakes, FilesDropped, Cleared, KeepsSlots, Slots, Vacant, SlotSet, ContentChanged, Without;
    hide Live;
  }

  /** A file that a run has created holds what has been appended to it since, shortened and emptied on the way,
      whatever other files held the same chunks before. */
  lemma CreatedFileIsReplay(snaps: seq<Snapshot>, cmds: seq<Command>, statuses: seq<Status>, i: nat, j: nat)
    requires Trace(snaps, cmds, statuses) && j < |cmds| && !Live(snaps[j].tree, FileNode(i))
    requires forall k :: j < k < |snaps| ==> Live(snaps[k].tree, FileNode(i))
    ensures cmds[j].MakeFile? && statuses[j] == Success && i < |snaps[|cmds|].disk.owned|
    ensures Bytes(snaps[|cmds|], i) ==
            ReplayOne([], OpsIn(cmds[j + 1..]), AcceptedIn(cmds[j + 1..], statuses[j + 1..]), i)
  {
    hide SnapshotValid, Effect, Live, Bytes;
    NewFileIsEmpty(snaps[j], cmds[j], statuses[j], snaps[j + 1], i);
    FileIsReplay(snaps[j + 1..], cmds[j + 1..], statuses[j + 1..], i);
  }
}
