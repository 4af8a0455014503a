/** When the system accepts a command: for every command the exact condition, in terms of the directory, of the bytes
    of files and of the chunks that are free. */
module Acceptance {
  import opened Settings
  import opened ChunkMath
  import opened Storage
  import opened Extents
  import opened Disk
  import opened FileLogic
  import opened FileRuns
  import opened EntryTree
  import opened TreeSteps
  import opened TreeUpdates
  import opened Entries
  import opened Folders
  import opened EntryStore
  import opened Relocation
  import opened PathChanges
  import opened SystemRuns
  import opened Directories
  import opened Outcomes

  // ---- What a user sees of a folder --------------------------------------------------

  type Directory = imap<Node, Record>

  ghost predicate FolderIn(dir: Directory, d: int) {
    d == VFS_MAX_FOLDERS_AMOUNT || FolderNode(d) in dir
  }

  ghost predicate Taken(dir: Directory, p: int, name: string) {
    exists n :: n in dir && dir[n] == Record(p, name)
  }

  ghost predicate Plain(name: string) {
    0 < |name| <= MAX_NAME_LENGTH && '\0' !in name && '/' !in name && name != "root"
  }

  ghost function FilesIn(dir: Directory, p: int): set<int> {
    set i | 0 <= i < VFS_MAX_FILES_AMOUNT && FileNode(i) in dir && dir[FileNode(i)].parent == p
  }

  ghost function FoldersIn(dir: Directory, p: int): set<int> {
    set i | 0 <= i < VFS_MAX_FOLDERS_AMOUNT && FolderNode(i) in dir && dir[FolderNode(i)].parent == p
  }

  // ---- Names -------------------------------------------------------------------------

  lemma NameIsFree(t: Tree, p: int, name: string)
    requires Shape(t)
    ensures NameStatus(t, p, name) == Success <==> Plain(name) && !Taken(DirectoryOf(t), p, name)
  {
    var dir := DirectoryOf(t);
    NameStatusIsNameFree(t, p, name);
    NameAnswers(t, p, name);
    if Taken(dir, p, name) {
      var n :| n in dir && dir[n] == Record(p, name);
      assert !Unused(t, p, name);
    }
    if !Unused(t, p, name) {
      var n :| Live(t, n) && ParentOf(t, n) == p && NameOf(t, n) == name;
      assert n in dir && dir[n] == Record(p, name);
    }
    hide NameStatus;
  }

  // ---- Slots -------------------------------------------------------------------------

  /** A list without repetitions has a gap exactly when it has fewer values than places. */
  lemma {:induction false} GapsAndValues(slots: seq<int>)
    requires NoDuplicates(slots)
    ensures var values := set v | v in slots && v != NULL;
            |values| <= |slots| && (NULL in slots <==> |values| < |slots|)
  {
    if slots != [] {
      var k := |slots| - 1;
      var init, last := slots[..k], slots[k];
      GapsAndValues(init);
      var fewer, values := set v | v in init && v != NULL, set v | v in slots && v != NULL;
      assert slots == init + [last];
      if last == NULL {
        assert values == fewer;
      } else {
        assert values == fewer + {last};
        assert last !in init;
      }
    }
  }

  lemma FileSlots(t: Tree, p: int)
    requires Valid(t) && LiveFolder(t, p)
    ensures 0 <= p < |t.folders|
    ensures -1 in t.folders[p].subFiles <==> |FilesIn(DirectoryOf(t), p)| < MAX_SUB_FILES_AMOUNT
  {
    var slots := Slots(t, p, FileNode(0));
    LiveFolderInRange(t, p);
    SlotAmounts(t, p);
    GapsAndValues(slots);
    forall i ensures i in slots && i != NULL <==> i in FilesIn(DirectoryOf(t), p) {
      assert Slots(t, p, FileNode(i)) == slots;
      assert HasSlot(t, p, FileNode(i)) <==> Live(t, FileNode(i)) && ParentOf(t, FileNode(i)) == p;
    }
    assert (set v | v in slots && v != NULL) == FilesIn(DirectoryOf(t), p);
  }

  lemma FolderSlots(t: Tree, p: int)
    requires Valid(t) && LiveFolder(t, p)
    ensures 0 <= p < |t.folders|
    ensures -1 in t.folders[p].subFolders <==> |FoldersIn(DirectoryOf(t), p)| < MAX_SUB_FOLDERS_AMOUNT
  {
    var slots := Slots(t, p, FolderNode(0));
    LiveFolderInRange(t, p);
    SlotAmounts(t, p);
    GapsAndValues(slots);
    forall i ensures i in slots && i != NULL <==> i in FoldersIn(DirectoryOf(t), p) {
      assert Slots(t, p, FolderNode(i)) == slots;
      assert HasSlot(t, p, FolderNode(i)) <==> Live(t, FolderNode(i)) && ParentOf(t, FolderNode(i)) == p;
    }
    assert (set v | v in slots && v != NULL) == FoldersIn(DirectoryOf(t), p);
  }

  // ---- Accepted commands -------------------------------------------------------------

  /** A folder is created where there is a folder, under a free name, while it has a place and a record is left. */
  lemma FolderIsMade(a: Snapshot, name: string, p: int)
    requires SnapshotValid(a)
    ensures var dir := DirectoryOf(a.tree);
            Answer(a, MakeFolder(name, p)) == Success <==>
              && FolderIn(dir, p) && Plain(name) && !Taken(dir, p, name)
              && |FoldersIn(dir, p)| < MAX_SUB_FOLDERS_AMOUNT
              && exists d :: 0 <= d < VFS_MAX_FOLDERS_AMOUNT && FolderNode(d) !in dir
  {
    hide *;
    TreeParts(a);
    NameIsFree(a.tree, p, name);
    FolderRecords(a.tree);
    CreateFolderAnswer(a, name, p);
  }

  lemma CreateFolderAnswer(a: Snapshot, name: string, p: int)
    requires SnapshotValid(a)
    ensures Answer(a, MakeFolder(name, p)) == Success <==>
              && FolderIn(DirectoryOf(a.tree), p) && NameStatus(a.tree, p, name) == Success
              && |FoldersIn(DirectoryOf(a.tree), p)| < MAX_SUB_FOLDERS_AMOUNT && false in a.tree.folderMap
  {
    hide *;
    var t := a.tree;
    TreeParts(a);
    LiveFolderIs(t, p);
    FolderAnswers(t, p);
    CreateFolderIs(a, name, p);
    if LiveFolder(t, p) {
      FolderSlots(t, p);
      Where(t, p);
      CreateFolderAnswers(t, p, name);
    } else {
      NotThere(t, p);
      CreateNowhere(t, p, name);
    }
  }

  lemma CreateFolderIs(a: Snapshot, name: string, p: int)
    ensures Answer(a, MakeFolder(name, p)) == CreateFolderStatus(a.tree, p, name)
  {
    hide CreateFolderStatus;
  }

  lemma Where(t: Tree, p: int)
    requires Shape(t) && LiveFolder(t, p)
    ensures p == VFS_MAX_FOLDERS_AMOUNT || (0 <= p < VFS_MAX_FOLDERS_AMOUNT && t.folderMap[p])
  {
  }

  lemma NotThere(t: Tree, p: int)
    requires Shape(t) && !LiveFolder(t, p)
    ensures p != VFS_MAX_FOLDERS_AMOUNT && !(0 <= p < VFS_MAX_FOLDERS_AMOUNT && t.folderMap[p])
  {
  }

  lemma FolderRecords(t: Tree)
    requires Shape(t)
    ensures false in t.folderMap <==> exists d :: 0 <= d < VFS_MAX_FOLDERS_AMOUNT && FolderNode(d) !in DirectoryOf(t)
  {
    if false in t.folderMap {
      var d :| 0 <= d < |t.folderMap| && !t.folderMap[d];
      assert FolderNode(d) !in DirectoryOf(t);
    }
  }

  /** A file is created likewise; its name must leave room for a terminator. */
  lemma FileIsMade(a: Snapshot, name: string, p: int)
    requires SnapshotValid(a)
    ensures var dir := DirectoryOf(a.tree);
            Answer(a, MakeFile(name, p)) == Success <==>
              && FolderIn(dir, p) && |name| < MAX_NAME_LENGTH
              && Plain(CString(name)) && !Taken(dir, p, CString(name))
              && |FilesIn(dir, p)| < MAX_SUB_FILES_AMOUNT
              && exists f :: 0 <= f < VFS_MAX_FILES_AMOUNT && FileNode(f) !in dir
  {
    hide *;
    TreeParts(a);
    NameIsFree(a.tree, p, CString(name));
    FileRecords(a.tree);
    CreateFileAnswer(a, name, p);
  }

  lemma CreateFileAnswer(a: Snapshot, name: string, p: int)
    requires SnapshotValid(a)
    ensures Answer(a, MakeFile(name, p)) == Success <==>
              && FolderIn(DirectoryOf(a.tree), p) && |name| < MAX_NAME_LENGTH
              && NameStatus(a.tree, p, CString(name)) == Success
              && |FilesIn(DirectoryOf(a.tree), p)| < MAX_SUB_FILES_AMOUNT && false in a.tree.fileMap
  {
    hide *;
    var t := a.tree;
    TreeParts(a);
    LiveFolderIs(t, p);
    FolderAnswers(t, p);
    CreateFileIs(a, name, p);
    if LiveFolder(t, p) {
      FileSlots(t, p);
      Where(t, p);
      CreateFileAnswers(t, p, name);
    } else {
      NotThere(t, p);
      CreateNowhere(t, p, name);
    }
  }

  lemma CreateFileIs(a: Snapshot, name: string, p: int)
    ensures Answer(a, MakeFile(name, p)) == CreateFileStatus(a.tree, p, name)
  {
    hide CreateFileStatus;
  }

  lemma FileRecords(t: Tree)
    requires Shape(t)
    ensures false in t.fileMap <==> exists f :: 0 <= f < VFS_MAX_FILES_AMOUNT && FileNode(f) !in DirectoryOf(t)
  {
    if false in t.fileMap {
      var f :| 0 <= f < |t.fileMap| && !t.fileMap[f];
      assert FileNode(f) !in DirectoryOf(t);
    }
  }

  /** Files are deleted whenever they are there. */
  lemma FileIsDeleted(a: Snapshot, f: nat)
    requires SnapshotValid(a)
    ensures Answer(a, RemoveFile(f)) == Success <==> FileNode(f) in DirectoryOf(a.tree)
  {
    if f < VFS_MAX_FILES_AMOUNT { LiveFileDeletes(a.tree, Stored(f)); }
    hide DeleteFileStatus, Disk.Consistent;
  }

  /** Some folder within d lies more than levels below it. */
  ghost predicate Nested(t: Tree, d: int, levels: int)
    requires Valid(t) && LiveFolder(t, d)
  {
    exists x :: && FolderIn(DirectoryOf(t), x) && FolderPath(t, d) <= FolderPath(t, x)
                && |FolderPath(t, x)| - |FolderPath(t, d)| > levels
  }

  lemma DeleteAnswer(a: Snapshot, d: int, force: bool)
    requires SnapshotValid(a)
    ensures Answer(a, RemoveFolder(d, force)) == DeleteFolderStatus(a.tree, d, force)
    ensures !LiveFolder(a.tree, d) ==> DeleteFolderStatus(a.tree, d, force) != Success
  {
    hide Disk.Consistent, EntryTree.Valid;
    TreeParts(a);
  }

  lemma DeleteCondition(t: Tree, d: int, force: bool)
    requires Valid(t) && LiveFolder(t, d)
    ensures DeleteFolderStatus(t, d, force) == Success <==>
            d != ROOT && (Childless(t, d) || (force && !Nested(t, d, MAX_PATH_NODES_AMOUNT)))
  {
    SlotsOfRecord(t, d);
    DeleteFolderAnswers(t, d, force);
    NestedIs(t, d, 0);
    hide DeleteFolderStatus, Valid, Childless, Nested, LiveFolder, FolderPath;
  }

  /** A folder other than the root is deleted when it is empty, or by force when no folder within it lies too deep. */
  lemma FolderIsDeleted(a: Snapshot, d: int, force: bool)
    requires SnapshotValid(a)
    ensures var dir := DirectoryOf(a.tree);
            Answer(a, RemoveFolder(d, force)) == Success <==>
              && FolderNode(d) in dir
              && (|| (forall n :: n in dir ==> dir[n].parent != d)
                  || (force && !Nested(a.tree, d, MAX_PATH_NODES_AMOUNT)))
  {
    hide *;
    var t := a.tree;
    TreeParts(a);
    DeleteAnswer(a, d, force);
    LiveFolderIs(t, d);
    InDirectory(t, FolderNode(d));
    ChildlessIs(t, d);
    if LiveFolder(t, d) {
      DeleteCondition(t, d, force);
      if d != ROOT { NotTheRoot(t, d); }
    } else if Live(t, FolderNode(d)) {
      LiveIsLiveFolder(t, d);
    }
  }

  lemma LiveFolderIs(t: Tree, d: int)
    requires Shape(t)
    ensures LiveFolder(t, d) <==> FolderIn(DirectoryOf(t), d)
    ensures FolderNode(ROOT) !in DirectoryOf(t)
  {
  }

  lemma ChildlessIs(t: Tree, d: int)
    ensures Childless(t, d) <==> forall n :: n in DirectoryOf(t) ==> DirectoryOf(t)[n].parent != d
  {
    if forall n :: n in DirectoryOf(t) ==> DirectoryOf(t)[n].parent != d {
      forall n | Live(t, n) ensures ParentOf(t, n) != d { assert n in DirectoryOf(t); }
    }
  }

  /** The same in the words of Outcomes. */
  lemma NestedIs(t: Tree, d: int, step: nat)
    requires Valid(t) && LiveFolder(t, d)
    ensures Nested(t, d, MAX_PATH_NODES_AMOUNT - step) <==>
            exists x :: && LiveFolder(t, x) && FolderPath(t, d) <= FolderPath(t, x)
                        && step + |FolderPath(t, x)| - |FolderPath(t, d)| > MAX_PATH_NODES_AMOUNT
  {
    hide FolderPath;
    forall x ensures LiveFolder(t, x) <==> FolderIn(DirectoryOf(t), x) {}
  }

  lemma InDirectory(t: Tree, n: Node)
    ensures n in DirectoryOf(t) <==> Live(t, n)
    ensures n in DirectoryOf(t) ==> DirectoryOf(t)[n] == Record(ParentOf(t, n), NameOf(t, n))
  {
  }

  lemma TreeParts(a: Snapshot)
    requires SnapshotValid(a)
    ensures Valid(a.tree) && Shape(a.tree)
  {
    hide Disk.Consistent;
  }

  lemma RenameAnswer(a: Snapshot, n: Node, name: string)
    requires SnapshotValid(a) && 0 <= n.index
    ensures var status := Answer(a, if n.FileNode? then RenameFileTo(n.index, name) else RenameFolderTo(n.index, name));
            if n in DirectoryOf(a.tree) then status == NameStatus(a.tree, ParentOf(a.tree, n), name)
            else status != Success
  {
    hide NameStatus, Disk.Consistent, EntryTree.Valid;
    if n.FolderNode? {
      TreeParts(a);
      LiveFolderIs(a.tree, n.index);
    }
  }

  /** An entry is renamed when the name is free in its folder. */
  lemma EntryIsRenamed(a: Snapshot, n: Node, name: string)
    requires SnapshotValid(a) && 0 <= n.index
    ensures var dir := DirectoryOf(a.tree);
            var cmd := if n.FileNode? then RenameFileTo(n.index, name) else RenameFolderTo(n.index, name);
            Answer(a, cmd) == Success <==> n in dir && Plain(name) && !Taken(dir, dir[n].parent, name)
  {
    hide *;
    TreeParts(a);
    InDirectory(a.tree, n);
    RenameAnswer(a, n, name);
    NameIsFree(a.tree, ParentOf(a.tree, n), name);
  }

  lemma FolderIsRenamed(a: Snapshot, d: int, name: string)
    requires SnapshotValid(a)
    ensures var dir, n := DirectoryOf(a.tree), FolderNode(d);
            Answer(a, RenameFolderTo(d, name)) == Success <==>
              n in dir && Plain(name) && !Taken(dir, dir[n].parent, name)
  {
    hide *;
    if d >= 0 { EntryIsRenamed(a, FolderNode(d), name); } else { NoSuchRecord(a, d, name); }
  }

  lemma NoSuchRecord(a: Snapshot, d: int, name: string)
    requires SnapshotValid(a) && d < 0
    ensures Answer(a, RenameFolderTo(d, name)) != Success && FolderNode(d) !in DirectoryOf(a.tree)
  {
    hide Disk.Consistent, EntryTree.Valid, NameStatus;
  }

  /** What is in the directory has a plain name. */
  lemma NamesArePlain(t: Tree, n: Node)
    requires Valid(t) && Live(t, n)
    ensures Plain(NameOf(t, n))
  {
    assert NameValid(NameOf(t, n));
  }

  lemma MoveFileAnswer(a: Snapshot, f: nat, p: int)
    requires SnapshotValid(a)
    ensures var status := Answer(a, MoveFileTo(f, p));
            if Live(a.tree, FileNode(f)) && LiveFolder(a.tree, p) then status == MoveFileStatus(a.tree, f, p)
            else status != Success
  {
    hide Disk.Consistent, EntryTree.Valid, MoveFileStatus;
    TreeParts(a);
  }

  lemma MoveFileCondition(t: Tree, f: nat, p: int)
    requires Valid(t) && Live(t, FileNode(f)) && LiveFolder(t, p)
    ensures MoveFileStatus(t, f, p) == Success <==>
              && NameStatus(t, p, NameOf(t, FileNode(f))) == Success
              && |FilesIn(DirectoryOf(t), p)| < MAX_SUB_FILES_AMOUNT
  {
    hide *;
    FileSlots(t, p);
    MoveFileAnswers(t, f, p);
    NameOfFile(t, f);
  }

  lemma NameOfFile(t: Tree, f: nat)
    requires f < |t.files|
    ensures NameOf(t, FileNode(f)) == t.files[f].name
  {
  }

  /** A file is moved to a folder that has a place and no entry of its name. */
  lemma FileIsMoved(a: Snapshot, f: nat, p: int)
    requires SnapshotValid(a)
    ensures var dir := DirectoryOf(a.tree);
            Answer(a, MoveFileTo(f, p)) == Success <==>
              && FileNode(f) in dir && FolderIn(dir, p) && !Taken(dir, p, dir[FileNode(f)].name)
              && |FilesIn(dir, p)| < MAX_SUB_FILES_AMOUNT
  {
    hide *;
    var t, n := a.tree, FileNode(f);
    TreeParts(a);
    InDirectory(t, n);
    LiveFolderIs(t, p);
    MoveFileAnswer(a, f, p);
    if Live(t, n) && LiveFolder(t, p) {
      NamesArePlain(t, n);
      NameIsFree(t, p, NameOf(t, n));
      MoveFileCondition(t, f, p);
    }
  }

  lemma MoveFolderAnswer(a: Snapshot, d: int, p: int)
    requires SnapshotValid(a)
    ensures var status := Answer(a, MoveFolderTo(d, p));
            if LiveFolder(a.tree, d) && LiveFolder(a.tree, p) then status == MoveFolderStatus(a.tree, d, p)
            else status != Success
  {
    hide Disk.Consistent, EntryTree.Valid, MoveFolderStatus;
    TreeParts(a);
  }

  /** The reserved name of the root keeps it from being moved. */
  lemma RootStays(t: Tree, p: int)
    requires Valid(t)
    ensures MoveFolderStatus(t, ROOT, p) != Success
  {
    NameIsFree(t, p, NameOf(t, FolderNode(ROOT)));
    hide NameStatus, Taken;
  }

  lemma MoveFolderCondition(t: Tree, d: int, p: int)
    requires Valid(t) && Live(t, FolderNode(d)) && LiveFolder(t, d) && LiveFolder(t, p)
    ensures MoveFolderStatus(t, d, p) == Success <==>
              && NameStatus(t, p, NameOf(t, FolderNode(d))) == Success
              && |FoldersIn(DirectoryOf(t), p)| < MAX_SUB_FOLDERS_AMOUNT
              && !(FolderPath(t, d) <= FolderPath(t, p))
              && !Nested(t, d, MAX_PATH_NODES_AMOUNT - 1)
  {
    hide *;
    FolderSlots(t, p);
    NestedIs(t, d, 1);
    MoveFolderAnswers(t, d, p);
    NameOfFolder(t, d);
  }

  lemma NameOfFolder(t: Tree, d: int)
    requires 0 <= d < |t.folders|
    ensures NameOf(t, FolderNode(d)) == t.folders[d].name
  {
  }

  lemma NotTheRoot(t: Tree, d: int)
    requires Shape(t) && LiveFolder(t, d) && d != ROOT
    ensures Live(t, FolderNode(d))
  {
  }

  /** A folder is moved to a folder that has a place and no entry of its name and lies outside it, unless a folder
      within it lies too deep. */
  lemma FolderIsMoved(a: Snapshot, d: int, p: int)
    requires SnapshotValid(a)
    ensures var dir := DirectoryOf(a.tree);
            Answer(a, MoveFolderTo(d, p)) == Success <==>
              && FolderNode(d) in dir && FolderIn(dir, p) && !Taken(dir, p, dir[FolderNode(d)].name)
              && |FoldersIn(dir, p)| < MAX_SUB_FOLDERS_AMOUNT
              && !(FolderPath(a.tree, d) <= FolderPath(a.tree, p))
              && !Nested(a.tree, d, MAX_PATH_NODES_AMOUNT - 1)
  {
    hide *;
    var t, n := a.tree, FolderNode(d);
    TreeParts(a);
    InDirectory(t, n);
    LiveFolderIs(t, d);
    LiveFolderIs(t, p);
    MoveFolderAnswer(a, d, p);
    if d == ROOT {
      RootStays(t, p);
    } else if LiveFolder(t, d) && LiveFolder(t, p) {
      NotTheRoot(t, d);
      NamesArePlain(t, n);
      NameIsFree(t, p, NameOf(t, n));
      MoveFolderCondition(t, d, p);
    } else if Live(t, n) {
      LiveIsLiveFolder(t, d);
    }
  }

  lemma LiveIsLiveFolder(t: Tree, d: int)
    requires Live(t, FolderNode(d))
    ensures LiveFolder(t, d)
  {
  }

  // ---- Accepted operations on data ---------------------------------------------------

  lemma MarksOfLayout(a: Snapshot)
    requires SnapshotValid(a)
    ensures MarksOf(a.layout) == a.disk.view.marks && |a.disk.view.marks| == CHUNKS_AMOUNT
  {
    var d := a.disk;
    forall c | 0 <= c < CHUNKS_AMOUNT ensures MarksOf(a.layout)[c] == d.view.marks[c] {
      if d.view.marks[c] {
        assert HasOwner(d.owned, c);
      } else {
        forall i | 0 <= i < |a.layout| ensures c !in ChunksOf(a.layout[i]) {
          assert Owned(d.owned[i], d.view.marks);
        }
      }
    }
  }

  lemma DataAnswer(a: Snapshot, op: Op)
    requires SnapshotValid(a)
    ensures var status, f := Answer(a, Data(op)), op.file;
            if FileNode(f) in DirectoryOf(a.tree)
            then f < |a.layout| && |a.layout[f]| <= MAX_FILE_CHUNK_EXTENTS_AMOUNT
                 && f < |a.disk.owned| && a.disk.owned[f] == ChunksOf(a.layout[f])
                 && status == VerdictOn(MarksOf(a.layout), a.layout[f], op)
            else status != Success
  {
    hide Disk.Consistent, VerdictOn, MarksOf;
    TreeParts(a);
  }

  lemma AppendVerdict(marks: seq<bool>, runs: seq<ChunkExtent>, f: nat, data: seq<byte>)
    requires |marks| == CHUNKS_AMOUNT && |runs| <= MAX_FILE_CHUNK_EXTENTS_AMOUNT
    ensures VerdictOn(marks, runs, Append(f, data)) == Success <==>
              && data != [] && |runs| < MAX_FILE_CHUNK_EXTENTS_AMOUNT
              && exists start: nat, n: nat :: FreeRun(marks, start, n) && |data| <= n * CHUNK_SIZE
  {
    hide AppendStatus, ChunksFor, FreeRun;
    AppendAccepted(marks, |runs|, data);
    if |runs| < MAX_FILE_CHUNK_EXTENTS_AMOUNT && data != [] {
      var m := ChunksFor(|data|);
      if HasRoom(marks, m) {
        var start: nat :| FreeRun(marks, start, m);
        EnoughChunks(|data|);
      }
      if start: nat, n: nat :| FreeRun(marks, start, n) && |data| <= n * CHUNK_SIZE {
        WindowIs(marks, start, n);
        AppendFits(marks, |runs|, data, start, n);
      }
    }
  }

  lemma WindowIs(marks: seq<bool>, start: nat, n: nat)
    requires FreeRun(marks, start, n)
    ensures start + n <= |marks| && forall c :: start <= c < start + n ==> !marks[c]
  {
  }

  lemma EnoughChunks(n: nat)
    ensures n <= ChunksFor(n) * CHUNK_SIZE
  {
    ChunksForIsCeiling(n, ChunksFor(n));
    SpanIsProduct(ChunksFor(n));
  }

  /** Data is appended while the table of the file has an extent left and some row of free chunks holds the data. */
  lemma DataIsAppended(a: Snapshot, f: nat, data: seq<byte>)
    requires SnapshotValid(a)
    ensures Answer(a, Data(Append(f, data))) == Success <==>
              && FileNode(f) in DirectoryOf(a.tree) && f < |a.layout| && data != []
              && |a.layout[f]| < MAX_FILE_CHUNK_EXTENTS_AMOUNT
              && exists start: nat, n: nat :: FreeRun(a.disk.view.marks, start, n) && |data| <= n * CHUNK_SIZE
  {
    hide *;
    MarksOfLayout(a);
    DataAnswer(a, Append(f, data));
    if FileNode(f) in DirectoryOf(a.tree) { AppendVerdict(MarksOf(a.layout), a.layout[f], f, data); }
  }

  lemma CutVerdict(a: Snapshot, f: nat, amount: nat)
    requires f < |a.layout| && f < |a.disk.owned| && a.disk.owned[f] == ChunksOf(a.layout[f])
    ensures VerdictOn(MarksOf(a.layout), a.layout[f], Truncate(f, amount)) == Success <==>
            Bytes(a, f) != [] && amount <= |Bytes(a, f)|
  {
    hide ChunksOf, MarksOf;
    TruncateAnswers(|ChunksOf(a.layout[f])|, amount);
    ContentLength(a.disk.owned[f], a.disk.view.bytes);
    SpanIsProduct(|a.disk.owned[f]|);
  }

  /** A file that is not empty is shortened by what it has at most. */
  lemma FileIsShortened(a: Snapshot, f: nat, amount: nat)
    requires SnapshotValid(a)
    ensures Answer(a, Data(Truncate(f, amount))) == Success <==>
              && FileNode(f) in DirectoryOf(a.tree) && f < |a.disk.owned|
              && Bytes(a, f) != [] && amount <= |Bytes(a, f)|
  {
    hide *;
    DataAnswer(a, Truncate(f, amount));
    if FileNode(f) in DirectoryOf(a.tree) { CutVerdict(a, f, amount); }
  }

  lemma FileIsCleared(a: Snapshot, f: nat)
    requires SnapshotValid(a)
    ensures Answer(a, Data(Clear(f))) == Success <==> FileNode(f) in DirectoryOf(a.tree)
  {
    DataAnswer(a, Clear(f));
  }

  /** What an accepted operation on data does, byte by byte: an append puts the data behind the content and 0x1E behind
      the data; a truncation takes bytes from the end and fills the last chunk with 0x1E; a clear takes everything;
      and no other file changes. */
  lemma DataInBytes(a: Snapshot, op: Op, b: Snapshot)
    requires SnapshotValid(a) && SnapshotValid(b) && Effect(a, Data(op), Success, b)
    ensures var f := op.file;
            && f < |a.disk.owned| == |b.disk.owned| == |a.layout| == |b.layout|
            && var was, now := Bytes(a, f), Bytes(b, f);
               match op
               case Append(_, data) =>
                 && |was| + |data| <= |now| < |was| + |data| + CHUNK_SIZE
                 && (forall k :: 0 <= k < |was| ==> now[k] == was[k])
                 && (forall k :: 0 <= k < |data| ==> now[|was| + k] == data[k])
                 && (forall k :: |was| + |data| <= k < |now| ==> now[k] == 0x1E)
               case Truncate(_, n) =>
                 && 0 <= |was| - n <= |now| < |was| - n + CHUNK_SIZE
                 && (forall k :: 0 <= k < |was| - n ==> now[k] == was[k])
                 && (forall k :: |was| - n <= k < |now| ==> now[k] == 0x1E)
               case Clear(_) => now == []
    ensures forall j :: 0 <= j < |a.disk.owned| == |b.disk.owned| && j != op.file ==> Bytes(b, j) == Bytes(a, j)
  {
    hide *;
    DataChanges(a, op, b);
    forall j | 0 <= j < |a.disk.owned| && j != op.file ensures Bytes(b, j) == Bytes(a, j) {
      ChangedContent(a, op, b, j);
    }
    ChangedContent(a, op, b, op.file);
    IdealBytes(Bytes(a, op.file), op);
  }

  lemma EffectIs(a: Snapshot, op: Op, b: Snapshot)
    requires Effect(a, Data(op), Success, b)
    ensures b.tree == a.tree && ContentChanged(a, op, b) && Answer(a, Data(op)) == Success
  {
    hide Answer, ContentChanged;
  }

  lemma SameSizes(a: Snapshot)
    requires SnapshotValid(a)
    ensures |a.disk.owned| == |a.layout| == |a.tree.files|
  {
    hide Disk.Consistent, EntryTree.Valid;
  }

  lemma DataChanges(a: Snapshot, op: Op, b: Snapshot)
    requires SnapshotValid(a) && SnapshotValid(b) && Effect(a, Data(op), Success, b)
    ensures ContentChanged(a, op, b) && op.file < |a.disk.owned| == |b.disk.owned| == |a.layout| == |b.layout|
    ensures op.Truncate? ==> op.amount <= |Bytes(a, op.file)|
  {
    hide *;
    DataAnswer(a, op);
    EffectIs(a, op, b);
    if op.Truncate? { FileIsShortened(a, op.file, op.amount); }
    SameSizes(a);
    SameSizes(b);
  }

  lemma IdealBytes(content: seq<byte>, op: Op)
    requires op.Truncate? ==> op.amount <= |content|
    ensures var now := Ideal(content, op, true);
            match op
            case Append(_, data) =>
              && |content| + |data| <= |now| < |content| + |data| + CHUNK_SIZE
              && (forall k :: 0 <= k < |content| ==> now[k] == content[k])
              && (forall k :: 0 <= k < |data| ==> now[|content| + k] == data[k])
              && (forall k :: |content| + |data| <= k < |now| ==> now[k] == 0x1E)
            case Truncate(_, n) =>
              && 0 <= |content| - n <= |now| < |content| - n + CHUNK_SIZE
              && (forall k :: 0 <= k < |content| - n ==> now[k] == content[k])
              && (forall k :: |content| - n <= k < |now| ==> now[k] == 0x1E)
            case Clear(_) => now == []
  {
    hide Padded, Shortened;
    match op
    case Append(_, data) => PaddedBytes(content, data);
    case Truncate(_, n) => ShortenedBytes(content, n);
    case Clear(_) =>
  }

  /** And extent by extent: an append adds the lowest row of free chunks that is just long enough, a truncation keeps a
      prefix in which the last extent may be shorter, and the extents of other files stay as they are. */
  lemma DataInExtents(a: Snapshot, op: Op, b: Snapshot)
    requires SnapshotValid(a) && SnapshotValid(b) && Effect(a, Data(op), Success, b)
    ensures op.file < |a.layout| == |b.layout|
    ensures var was, now := a.layout[op.file], b.layout[op.file];
            match op
            case Append(_, data) =>
              && |now| == |was| + 1 && now[..|was|] == was
              && var e := now[|was|];
                 && !e.isEmpty && (e.chunkAmount - 1) * CHUNK_SIZE < |data| <= e.chunkAmount * CHUNK_SIZE
                 && FreeRun(a.disk.view.marks, e.start, e.chunkAmount)
                 && forall lower: nat :: lower < e.start ==> !FreeRun(a.disk.view.marks, lower, e.chunkAmount)
            case Truncate(_, n) =>
              && |now| <= |was| && (forall i :: 0 <= i < |now| - 1 ==> now[i] == was[i])
              && (now != [] ==>
                   var last, before := now[|now| - 1], was[|now| - 1];
                   0 < last.chunkAmount <= before.chunkAmount && last == before.(chunkAmount := last.chunkAmount))
            case Clear(_) => now == []
    ensures forall j :: 0 <= j < |a.layout| && j != op.file ==> b.layout[j] == a.layout[j]
  {
    hide *;
    var f := op.file;
    DataChanges(a, op, b);
    DataAnswer(a, op);
    EffectIs(a, op, b);
    MarksOfLayout(a);
    LayoutIs(a, op, b);
    match op
    case Append(_, data) => AppendedExtent(MarksOf(a.layout), a.layout[f], op);
    case Truncate(_, n) => CutRunsIsPrefix(a.layout[f], FullChunks(n));
    case Clear(_) =>
  }

  lemma LayoutIs(a: Snapshot, op: Op, b: Snapshot)
    requires ContentChanged(a, op, b) && op.file < |a.layout|
    requires VerdictOn(MarksOf(a.layout), a.layout[op.file], op) == Success
    ensures var now := RunsAfter(MarksOf(a.layout), a.layout[op.file], op);
            && b.layout == a.layout[op.file := now]
            && (op.Truncate? ==> now == CutRuns(a.layout[op.file], FullChunks(op.amount)))
            && (op.Clear? ==> now == [])
  {
    hide Disk.Consistent, VerdictOn, MarksOf, After, Disk.Contents;
    LayoutStep(a.layout, MarksOf(a.layout), a.layout[op.file], op);
  }

  lemma AppendedExtent(marks: seq<bool>, runs: seq<ChunkExtent>, op: Op)
    requires op.Append? && VerdictOn(marks, runs, op) == Success
    requires |marks| == CHUNKS_AMOUNT && |runs| <= MAX_FILE_CHUNK_EXTENTS_AMOUNT
    ensures var now := RunsAfter(marks, runs, op);
            && |now| == |runs| + 1 && now[..|runs|] == runs
            && var e := now[|runs|];
               && !e.isEmpty && (e.chunkAmount - 1) * CHUNK_SIZE < |op.data| <= e.chunkAmount * CHUNK_SIZE
               && FreeRun(marks, e.start, e.chunkAmount)
               && forall lower: nat :: lower < e.start ==> !FreeRun(marks, lower, e.chunkAmount)
  {
    hide AppendStatus, ChunksFor, HasRoom, FreeRun;
    AppendAccepted(marks, |runs|, op.data);
    AppendFits(marks, |runs|, op.data, 0, 0);
  }

  // ---- All commands ------------------------------------------------------------------

  /** Every command is accepted exactly under this condition on the directory, on the bytes and extents of its file and
      on the chunks that are free. */
  lemma AcceptedExactly(a: Snapshot, cmd: Command)
    requires SnapshotValid(a)
    ensures |a.disk.owned| == |a.layout|
    ensures forall f :: FileNode(f) in DirectoryOf(a.tree) ==> 0 <= f < |a.layout|
    ensures var dir := DirectoryOf(a.tree);
            Answer(a, cmd) == Success <==>
            match cmd
            case MakeFile(name, p) =>
              && FolderIn(dir, p) && |name| < MAX_NAME_LENGTH && Plain(CString(name)) && !Taken(dir, p, CString(name))
              && |FilesIn(dir, p)| < MAX_SUB_FILES_AMOUNT
              && exists f :: 0 <= f < VFS_MAX_FILES_AMOUNT && FileNode(f) !in dir
            case MakeFolder(name, p) =>
              && FolderIn(dir, p) && Plain(name) && !Taken(dir, p, name)
              && |FoldersIn(dir, p)| < MAX_SUB_FOLDERS_AMOUNT
              && exists d :: 0 <= d < VFS_MAX_FOLDERS_AMOUNT && FolderNode(d) !in dir
            case RemoveFile(f) => FileNode(f) in dir
            case RemoveFolder(d, force) =>
              && FolderNode(d) in dir
              && ((forall n :: n in dir ==> dir[n].parent != d)
                  || (force && !Nested(a.tree, d, MAX_PATH_NODES_AMOUNT)))
            case RenameFileTo(f, name) =>
              FileNode(f) in dir && Plain(name) && !Taken(dir, dir[FileNode(f)].parent, name)
            case RenameFolderTo(d, name) =>
              FolderNode(d) in dir && Plain(name) && !Taken(dir, dir[FolderNode(d)].parent, name)
            case MoveFileTo(f, p) =>
              && FileNode(f) in dir && FolderIn(dir, p) && !Taken(dir, p, dir[FileNode(f)].name)
              && |FilesIn(dir, p)| < MAX_SUB_FILES_AMOUNT
            case MoveFolderTo(d, p) =>
              && FolderNode(d) in dir && FolderIn(dir, p) && !Taken(dir, p, dir[FolderNode(d)].name)
              && |FoldersIn(dir, p)| < MAX_SUB_FOLDERS_AMOUNT
              && !(FolderPath(a.tree, d) <= FolderPath(a.tree, p))
              && !Nested(a.tree, d, MAX_PATH_NODES_AMOUNT - 1)
            case Data(Append(f, data)) =>
              && FileNode(f) in dir && data != [] && |a.layout[f]| < MAX_FILE_CHUNK_EXTENTS_AMOUNT
              && exists start: nat, n: nat :: FreeRun(a.disk.view.marks, start, n) && |data| <= n * CHUNK_SIZE
            case Data(Truncate(f, n)) => FileNode(f) in dir && Bytes(a, f) != [] && n <= |Bytes(a, f)|
            case Data(Clear(f)) => FileNode(f) in dir
  {
    hide *;
    TreeParts(a);
    SameSizes(a);
    FilesInLayout(a);
    match cmd
    case MakeFile(name, p) => FileIsMade(a, name, p);
    case MakeFolder(name, p) => FolderIsMade(a, name, p);
    case RemoveFile(f) => FileIsDeleted(a, f);
    case RemoveFolder(d, force) => FolderIsDeleted(a, d, force);
    case RenameFileTo(f, name) => EntryIsRenamed(a, FileNode(f), name);
    case RenameFolderTo(d, name) => FolderIsRenamed(a, d, name);
    case MoveFileTo(f, p) => FileIsMoved(a, f, p);
    case MoveFolderTo(d, p) => FolderIsMoved(a, d, p);
    case Data(Append(f, data)) => DataIsAppended(a, f, data);
    case Data(Truncate(f, n)) => FileIsShortened(a, f, n);
    case Data(Clear(f)) => FileIsCleared(a, f);
  }

  lemma FilesInLayout(a: Snapshot)
    requires SnapshotValid(a)
    ensures forall f :: FileNode(f) in DirectoryOf(a.tree) ==> 0 <= f < |a.layout|
  {
    hide Disk.Consistent;
  }
}
