/** Creating and deleting entries (system/vfs_entry_store.c), on the tree and on the disk together. */
module EntryStore {
  import opened Settings
  import opened Storage
  import opened Extents
  import opened Disk
  import opened FileStorage
  import opened FileLogic
  import opened FileRuns
  import opened EntryTree
  import opened TreeSteps
  import opened TreeUpdates
  import opened Subtrees
  import opened Entries
  import opened Folders

  // ---- Tree and disk together --------------------------------------------------------

  /** The tree is valid, and the live files of the store account for every allocated chunk of the disk. */
  ghost predicate SystemValid(s: VFSEntryStore, man: StorageMan)
    reads s.files, s.folders, s.filesMap, s.foldersMap
    reads man, man.storage, man.allocationMap, s.fileData, set f | f in s.fileData :: f.extents
  {
    && s.Valid()
    && man.allocationMap != s.filesMap && man.allocationMap != s.foldersMap
    && Sound(man, s.fileData, s.filesMap[..])
  }

  ghost function DiskUnder(s: VFSEntryStore, man: StorageMan): Disk
    requires man.Sized() && |s.fileData| == s.filesMap.Length
    reads s.filesMap, man, man.storage, man.allocationMap, set f | f in s.fileData :: f.extents
  {
    DiskOf(man, s.fileData, s.filesMap[..])
  }

  /** The extents of each live file of the store. */
  ghost function LayoutUnder(s: VFSEntryStore): seq<seq<ChunkExtent>>
    requires |s.fileData| == s.filesMap.Length
    reads s.filesMap, set f | f in s.fileData :: f.extents
  {
    LayoutOf(s.fileData, s.filesMap[..])
  }

  /** Each file has the extents that it had, or none. */
  ghost predicate Thinned(layout: seq<seq<ChunkExtent>>, layout': seq<seq<ChunkExtent>>) {
    |layout'| == |layout| && forall i :: 0 <= i < |layout| ==> layout'[i] == layout[i] || layout'[i] == []
  }

  lemma ThinnedTwice(l: seq<seq<ChunkExtent>>, l1: seq<seq<ChunkExtent>>, l2: seq<seq<ChunkExtent>>)
    requires Thinned(l, l1) && Thinned(l1, l2)
    ensures Thinned(l, l2)
  {
  }

  lemma ThinnedFirst(layout: seq<seq<ChunkExtent>>)
    ensures Thinned(layout, layout)
  {
  }

  lemma ThinnedOne(layout: seq<seq<ChunkExtent>>, i: nat)
    requires i < |layout|
    ensures Thinned(layout, layout[i := []])
  {
  }

  lemma SystemParts(s: VFSEntryStore, man: StorageMan)
    requires SystemValid(s, man)
    ensures man.Sized() && |s.fileData| == s.filesMap.Length && s.Wired() && Valid(s.View())
    ensures DiskUnder(s, man).Consistent() && DiskUnder(s, man).view.free == man.freeChunkCount
    ensures LayoutUnder(s) == LayoutOf(s.fileData, s.filesMap[..]) && |LayoutUnder(s)| == s.filesMap.Length
  {
  }

  /** From d to d' the files in gone have given up their chunks and no other file has changed. */
  ghost predicate FilesDropped(d: Disk, d': Disk, gone: set<Node>) {
    && |d.owned| == |d'.owned|
    && forall i :: 0 <= i < |d.owned| ==>
         if FileNode(i) in gone then d'.owned[i] == []
         else d'.owned[i] == d.owned[i] && Content(d'.owned[i], d'.view.bytes) == Content(d.owned[i], d.view.bytes)
  }

  lemma FilesDroppedTwice(d: Disk, d1: Disk, d2: Disk, gone: set<Node>, more: set<Node>)
    requires FilesDropped(d, d1, gone) && FilesDropped(d1, d2, more)
    ensures FilesDropped(d, d2, gone + more)
  {
  }

  /** The number of chunks of the files in gone. */
  ghost function ChunksIn(owned: seq<seq<nat>>, gone: set<Node>): nat {
    if owned == [] then 0
    else
      var i := |owned| - 1;
      ChunksIn(owned[..i], gone) + if FileNode(i) in gone then |owned[i]| else 0
  }

  lemma {:induction false} DroppedTotal(owned: seq<seq<nat>>, owned': seq<seq<nat>>, gone: set<Node>)
    requires |owned| == |owned'|
    requires forall i :: 0 <= i < |owned| ==> if FileNode(i) in gone then owned'[i] == [] else owned'[i] == owned[i]
    ensures TotalLength(owned) == TotalLength(owned') + ChunksIn(owned, gone)
  {
    if owned != [] {
      var i := |owned| - 1;
      DroppedTotal(owned[..i], owned'[..i], gone);
    }
  }

  /** Dropping files raises the free count by exactly the sizes of the files dropped. */
  lemma DroppedIsFreed(d: Disk, d': Disk, gone: set<Node>)
    requires d.Consistent() && d'.Consistent() && FilesDropped(d, d', gone)
    ensures d'.view.free == d.view.free + ChunksIn(d.owned, gone)
  {
    DroppedTotal(d.owned, d'.owned, gone);
  }

  // ---- Parents and positions ---------------------------------------------------------

  /** The verdict on d as a folder of the store. */
  ghost function FolderStatus(t: Tree, d: int): Status {
    if d == ROOT then Success
    else if d < 0 || d >= VFS_MAX_FOLDERS_AMOUNT then UnknownEntry
    else if !Live(t, FolderNode(d)) then UninitialisedEntry
    else Success
  }

  /** validate_vfs_folder accepts exactly the live folders and the root. */
  method ValidateVfsFolder(s: VFSEntryStore, d: int) returns (status: Status)
    requires s.Wired()
    ensures status == FolderStatus(s.View(), d)
    ensures status == Success <==> LiveFolder(s.View(), d)
  {
    if d == ROOT { return Success; }
    if d < 0 || d >= VFS_MAX_FOLDERS_AMOUNT { return UnknownEntry; }
    if !s.foldersMap[d] { return UninitialisedEntry; }
    return Success;
  }

  /** The lowest position that a map says is free. */
  predicate FirstFree(marks: seq<bool>, i: int) {
    0 <= i < |marks| && !marks[i] && forall j :: 0 <= j < i ==> marks[j]
  }

  /** get_available_allocation_map_position */
  method GetAvailableMapPosition(m: array<bool>) returns (status: Status, position: nat)
    ensures status == if false in m[..] then Success else NoSpace
    ensures status == Success ==> position < m.Length && !m[position] && FirstFree(m[..], position)
  {
    position := 0;
    for i := 0 to m.Length
      invariant forall j :: 0 <= j < i ==> m[j]
    {
      if !m[i] {
        assert m[..][i] == false;
        return Success, i;
      }
    }
    return NoSpace, position;
  }

  // ---- Creating folders --------------------------------------------------------------

  ghost function CreateFolderStatus(t: Tree, p: int, name: string): Status {
    if FolderStatus(t, p) != Success then FolderStatus(t, p)
    else if false !in t.folderMap then NoSpace
    else if NameStatus(t, p, name) != Success then NameStatus(t, p, name)
    else if NULL !in Slots(t, p, FolderNode(0)) then NoSpace
    else Success
  }

  lemma FolderPlace(t: Tree, i: nat, p: int)
    requires Valid(t) && LiveFolder(t, p) && i < VFS_MAX_FOLDERS_AMOUNT && !Live(t, FolderNode(i))
    ensures i != p && i < |t.folders| && 0 <= p < |t.folders| && |t.folders[p].subFolders| == MAX_SUB_FOLDERS_AMOUNT
    ensures Slots(t, p, FolderNode(i)) == Slots(t, p, FolderNode(0)) == t.folders[p].subFolders
  {
    LiveFolderInRange(t, p);
    assert |Slots(t, p, FolderNode(0))| == SlotsAmount(FolderNode(0));
  }

  function NewFolder(name: string, p: int): Folder {
    Folder(p, false, name, NoEntries(MAX_SUB_FILES_AMOUNT), NoEntries(MAX_SUB_FOLDERS_AMOUNT))
  }

  /** The assignments of sub_folder_init. */
  method PlaceFolder(s: VFSEntryStore, i: nat, p: int, slot: nat, f: Folder)
    requires s.Wired() && i < s.folders.Length && 0 <= p < s.folders.Length && i != p
    requires slot < MAX_SUB_FOLDERS_AMOUNT && f == NewFolder(f.name, p)
    modifies s.folders
    ensures s.Wired() && |old(s.View()).folders| == s.folders.Length && slot < |old(s.View()).folders[p].subFolders|
    ensures s.View() == FolderPlaced(old(s.View()), i, p, slot, f)
  {
    ghost var t := s.View();
    s.folders[i] := f;
    s.folders[p] := s.folders[p].(subFolders := s.folders[p].subFolders[slot := i]);
    assert s.View().folders == FolderPlaced(t, i, p, slot, f).folders;
  }

  /** sub_folder_init: fills the record at position i, which is not live yet, and links it to the first vacant slot of
      p. */
  method SubFolderInit(s: VFSEntryStore, i: nat, name: string, p: int) returns (status: Status)
    requires s.Valid() && LiveFolder(s.View(), p) && i < VFS_MAX_FOLDERS_AMOUNT && !Live(s.View(), FolderNode(i))
    modifies s.folders
    ensures s.Wired()
    ensures status == (if NameStatus(old(s.View()), p, name) != Success then NameStatus(old(s.View()), p, name)
                       else if NULL !in Slots(old(s.View()), p, FolderNode(0)) then NoSpace
                       else Success)
    ensures status != Success ==> s.View() == old(s.View())
    ensures status == Success ==>
              var t, slot := old(s.View()), IndexIn(Slots(old(s.View()), p, FolderNode(0)), NULL);
              && 0 <= p < |t.folders| && i != p && i < |t.folders|
              && Vacant(Slots(t, p, FolderNode(i)), slot) && slot < |t.folders[p].subFolders|
              && s.View() == FolderPlaced(t, i, p, slot, NewFolder(name, p))
  {
    ghost var t := s.View();
    FolderPlace(t, i, p);
    assert s.Wired() && t.folders == s.folders[..];
    hide *;
    status := ValidateSubEntryName(s, p, name);
    if status != Success { return status; }
    ValidNameIsText(t, p, name);
    var index;
    status, index := GetAvailablePosition(s.folders[p].subFolders);
    if status != Success { return status; }
    var text := SetEntryName(name);
    SlotInRange(s.folders[p].subFolders, index);
    NewFolderIs(text, p);
    PlaceFolder(s, i, p, index, NewFolder(text, p));
    return Success;
  }

  lemma SlotInRange(slots: seq<int>, s: nat)
    requires Vacant(slots, s)
    ensures s < |slots|
  {
  }

  lemma NewFolderIs(name: string, p: int)
    ensures var f := NewFolder(name, p);
            && f.name == name && f.parent == p && !f.isRoot
            && |f.subFiles| == MAX_SUB_FILES_AMOUNT && |f.subFolders| == MAX_SUB_FOLDERS_AMOUNT
            && AllVacant(f.subFiles) && AllVacant(f.subFolders)
  {
  }

  /** What the operations on the tree need of a valid system. */
  lemma StoreParts(s: VFSEntryStore, man: StorageMan)
    requires SystemValid(s, man)
    ensures s.Valid() && s.Wired() && Valid(s.View())
    ensures man.allocationMap != s.filesMap && man.allocationMap != s.foldersMap
    ensures Sound(man, s.fileData, s.filesMap[..]) && man.Sized() && |s.fileData| == s.filesMap.Length
    ensures DiskUnder(s, man) == DiskOf(man, s.fileData, s.filesMap[..])
    ensures LayoutUnder(s) == LayoutOf(s.fileData, s.filesMap[..])
    ensures s.View().fileMap == s.filesMap[..] && s.View().folderMap == s.foldersMap[..]
    ensures s.filesMap.Length == VFS_MAX_FILES_AMOUNT && s.foldersMap.Length == VFS_MAX_FOLDERS_AMOUNT
  {
  }

  lemma DeadPositions(t: Tree, i: nat)
    requires Shape(t)
    ensures FirstFree(t.folderMap, i) ==> i < VFS_MAX_FOLDERS_AMOUNT && !Live(t, FolderNode(i))
    ensures FirstFree(t.fileMap, i) ==> i < VFS_MAX_FILES_AMOUNT && !Live(t, FileNode(i))
  {
  }

  lemma CreateFolderStatusIs(t: Tree, p: int, name: string)
    ensures CreateFolderStatus(t, p, name) ==
            if FolderStatus(t, p) != Success then FolderStatus(t, p)
            else if false !in t.folderMap then NoSpace
            else if NameStatus(t, p, name) != Success then NameStatus(t, p, name)
            else if NULL !in Slots(t, p, FolderNode(0)) then NoSpace
            else Success
  {
  }

  /** vfs_sub_folder_init: on success one folder is added to the tree below p, in the first free position of the store
      and the first vacant slot of p; a refusal changes nothing. Either way the tree stays valid and the disk is not
      involved. */
  method VfsSubFolderInit(s: VFSEntryStore, ghost man: StorageMan, name: string, p: int)
    returns (status: Status, folder: int)
    requires SystemValid(s, man)
    modifies s.folders, s.foldersMap
    ensures SystemValid(s, man) && DiskUnder(s, man) == old(DiskUnder(s, man))
    ensures status == CreateFolderStatus(old(s.View()), p, name)
    ensures status != Success ==> s.View() == old(s.View()) && folder == NULL
    ensures status == Success ==>
              && FirstFree(old(s.View()).folderMap, folder)
              && Added(old(s.View()), s.View(), FolderNode(folder), p,
                       IndexIn(Slots(old(s.View()), p, FolderNode(0)), NULL), name)
  {
    hide *;
    StoreParts(s, man);
    ghost var t := s.View();
    ValidShape(t);
    CreateFolderStatusIs(t, p, name);
    folder := NULL;
    status := ValidateVfsFolder(s, p);
    if status != Success { return status, folder; }
    var i;
    status, i := GetAvailableMapPosition(s.foldersMap);
    if status != Success { return status, folder; }
    DeadPositions(t, i);
    status := SubFolderInit(s, i, name, p);
    if status != Success {
      SystemFromParts(s, man);
      return status, folder;
    }
    NewFolderIs(name, p);
    NameStatusIsNameFree(t, p, name);
    CommitFolder(s, i, p, t, IndexIn(Slots(t, p, FolderNode(0)), NULL), NewFolder(name, p));
    SystemFromParts(s, man);
    return Success, i;
  }

  /** The last step of vfs_sub_folder_init: the linked folder i of the store becomes live. */
  method CommitFolder(s: VFSEntryStore, i: nat, p: int, ghost t: Tree, ghost slot: nat, ghost f: Folder)
    requires s.Wired() && Valid(t) && i < VFS_MAX_FOLDERS_AMOUNT && !Live(t, FolderNode(i)) && LiveFolder(t, p)
    requires 0 <= p < |t.folders| && i < |t.folders| && i != p && slot < |t.folders[p].subFolders|
    requires Vacant(Slots(t, p, FolderNode(i)), slot) && NameFree(t, p, f.name) && f == NewFolder(f.name, p)
    requires s.View() == FolderPlaced(t, i, p, slot, f)
    modifies s.foldersMap
    ensures s.Wired() && Valid(s.View()) && Added(t, s.View(), FolderNode(i), p, slot, f.name)
  {
    hide *;
    NewFolderIs(f.name, p);
    AddedFolderBy(t, i, p, slot, f);
    MarkFolderLive(s, i);
    AddedValid(t, s.View(), FolderNode(i), p, slot, f.name);
  }

  method MarkFolderLive(s: VFSEntryStore, i: nat)
    requires s.Wired() && InStore(s.View(), FolderNode(i)) && i < VFS_MAX_FOLDERS_AMOUNT
    modifies s.foldersMap
    ensures s.Wired()
    ensures InStore(old(s.View()), FolderNode(i)) && s.View() == PutMark(old(s.View()), FolderNode(i), true)
  {
    s.foldersMap[i] := true;
  }

  // ---- Creating files ----------------------------------------------------------------

  ghost function CreateFileStatus(t: Tree, p: int, name: seq<char>): Status {
    if FolderStatus(t, p) != Success then FolderStatus(t, p)
    else if false !in t.fileMap then NoSpace
    else if |name| >= MAX_NAME_LENGTH then InsufficientArrayPassed
    else if NameStatus(t, p, CString(name)) != Success then NameStatus(t, p, CString(name))
    else if NULL !in Slots(t, p, FileNode(0)) then NoSpace
    else Success
  }

  lemma DeadFileUntouched(t: Tree, i: int, e: FileEntry)
    requires Valid(t) && 0 <= i < VFS_MAX_FILES_AMOUNT && !Live(t, FileNode(i))
    ensures i < |t.files| && Untouched(t, t.(files := t.files[i := e])) && Valid(t.(files := t.files[i := e]))
  {
    PutFileEffect(t, i, e);
    UntouchedValid(t, t.(files := t.files[i := e]));
  }

  lemma {:induction false} CStringShort(s: seq<char>)
    ensures |CString(s)| <= |s| && NUL !in CString(s)
  {
    if s != [] { CStringShort(s[1..]); }
  }

  /** file_init on the dead position i: the name up to its first terminator, no parent, no extents. */
  method FileInit(s: VFSEntryStore, ghost man: StorageMan, i: nat, name: seq<char>) returns (status: Status)
    requires SystemValid(s, man) && i < VFS_MAX_FILES_AMOUNT && !Live(s.View(), FileNode(i))
    modifies s.files, s.fileData[i], s.fileData[i].extents
    ensures SystemValid(s, man) && DiskUnder(s, man) == old(DiskUnder(s, man)) && LayoutUnder(s) == old(LayoutUnder(s))
    ensures status == if |name| >= MAX_NAME_LENGTH then InsufficientArrayPassed else Success
    ensures status != Success ==> s.View() == old(s.View())
    ensures status == Success ==>
              && i < |old(s.View()).files|
              && s.View() == old(s.View()).(files := old(s.View()).files[i := FileEntry(CString(name), NULL)])
              && s.fileData[i].Valid() && s.fileData[i].Chunks() == []
  {
    hide EntryTree.Valid, Sound, DiskOf, LayoutOf, CString;
    if |name| >= MAX_NAME_LENGTH { return InsufficientArrayPassed; }
    ghost var t := s.View();
    var text := SetEntryName(name);
    DeadFileUntouched(t, i, FileEntry(text, NULL));
    s.files[i] := FileEntry(text, NULL);
    assert s.View() == t.(files := t.files[i := FileEntry(text, NULL)]);
    InitEmptyExtents(man, s.fileData, s.filesMap[..], i);
    return Success;
  }

  /** The storage part of file_init on a slot that is not live: it owned nothing before and owns nothing after. */
  method InitEmptyExtents(ghost man: StorageMan, files: seq<File>, ghost live: seq<bool>, i: nat)
    requires Sound(man, files, live) && i < |files| && !live[i]
    modifies files[i], files[i].extents
    ensures Sound(man, files, live) && DiskOf(man, files, live) == old(DiskOf(man, files, live))
    ensures LayoutOf(files, live) == old(LayoutOf(files, live))
    ensures files[i].Valid() && files[i].Chunks() == []
  {
    ghost var d, layout := DiskOf(man, files, live), LayoutOf(files, live);
    SoundParts(man, files, live);
    hide Sound, Disk.Consistent, Used, ChunksOf;
    files[i].Init();
    forall j | 0 <= j < |files| && j != i
      ensures files[j].Table() == old(files[j].Table())
      ensures live[j] ==> files[j].Valid()
    {
    }
    assert OwnedBy(files, live) == d.owned;
    assert LayoutOf(files, live) == layout;
    SoundFrom(man, files, live, d);
  }

  lemma FilePlace(s: VFSEntryStore, i: nat, p: int)
    requires s.Valid() && LiveFolder(s.View(), p) && i < VFS_MAX_FILES_AMOUNT
    ensures s.Wired() && i < s.files.Length && 0 <= p < s.folders.Length
    ensures |s.folders[p].subFiles| == MAX_SUB_FILES_AMOUNT
    ensures var t := s.View();
            && i < |t.files| && |t.files| == s.files.Length && t.files[i] == s.files[i]
            && |t.folders| == s.folders.Length && t.folders[p] == s.folders[p]
            && Slots(t, p, FileNode(i)) == Slots(t, p, FileNode(0)) == t.folders[p].subFiles
  {
    LiveFolderInRange(s.View(), p);
  }

  /** The assignments of sub_file_init. */
  method PlaceFile(s: VFSEntryStore, i: nat, p: int, slot: nat)
    requires s.Wired() && i < s.files.Length && 0 <= p < s.folders.Length && slot < MAX_SUB_FILES_AMOUNT
    modifies s.files, s.folders
    ensures s.Wired()
    ensures var t, e := old(s.View()), old(s.files[i]).(parent := p);
            && i < |t.files| && |t.folders| == s.folders.Length && slot < |t.folders[p].subFiles|
            && s.View() == FilePlaced(t, i, slot, e)
  {
    ghost var t := s.View();
    s.folders[p] := s.folders[p].(subFiles := s.folders[p].subFiles[slot := i]);
    s.files[i] := s.files[i].(parent := p);
    assert s.View() == FilePlaced(t, i, slot, s.files[i]);
  }

  /** sub_file_init: links the initialised but not yet live file i to the first vacant slot of p. */
  method SubFileInit(s: VFSEntryStore, i: nat, p: int) returns (status: Status)
    requires s.Valid() && LiveFolder(s.View(), p) && i < VFS_MAX_FILES_AMOUNT && !Live(s.View(), FileNode(i))
    requires NUL !in s.files[i].name
    modifies s.files, s.folders
    ensures s.Wired()
    ensures var verdict := NameStatus(old(s.View()), p, old(s.files[i].name));
            status == if verdict != Success then verdict
                      else if NULL !in Slots(old(s.View()), p, FileNode(0)) then NoSpace
                      else Success
    ensures status != Success ==> s.View() == old(s.View())
    ensures status == Success ==>
              var t, e := old(s.View()), FileEntry(old(s.files[i].name), p);
              var slot := IndexIn(Slots(t, p, FileNode(0)), NULL);
              && i < |t.files| && 0 <= p < |t.folders| && slot < |t.folders[p].subFiles|
              && Vacant(Slots(t, p, FileNode(i)), slot) && s.View() == FilePlaced(t, i, slot, e)
  {
    hide *;
    FilePlace(s, i, p);
    status := ValidateSubEntryName(s, p, s.files[i].name);
    if status != Success { return status; }
    var index;
    status, index := GetAvailablePosition(s.folders[p].subFiles);
    if status != Success { return status; }
    SlotInRange(s.folders[p].subFiles, index);
    PlaceFile(s, i, p, index);
    return Success;
  }

  lemma UntouchedNames(t: Tree, t': Tree, p: int, name: string)
    requires Untouched(t, t') && LiveFolder(t, p)
    ensures LiveFolder(t', p) && NameStatus(t', p, name) == NameStatus(t, p, name)
    ensures Slots(t', p, FileNode(0)) == Slots(t, p, FileNode(0))
  {
  }

  lemma CreateFileStatusIs(t: Tree, p: int, name: seq<char>)
    ensures CreateFileStatus(t, p, name) ==
            if FolderStatus(t, p) != Success then FolderStatus(t, p)
            else if false !in t.fileMap then NoSpace
            else if |name| >= MAX_NAME_LENGTH then InsufficientArrayPassed
            else if NameStatus(t, p, CString(name)) != Success then NameStatus(t, p, CString(name))
            else if NULL !in Slots(t, p, FileNode(0)) then NoSpace
            else Success
  {
  }

  /** The record that file_init has written does not matter once sub_file_init has written its own. */
  lemma PlacedTwice(t: Tree, i: nat, slot: nat, was: FileEntry, e: FileEntry)
    requires i < |t.files| && 0 <= e.parent < |t.folders| && slot < |t.folders[e.parent].subFiles|
    ensures var t1 := t.(files := t.files[i := was]);
            && i < |t1.files| && 0 <= e.parent < |t1.folders| && slot < |t1.folders[e.parent].subFiles|
            && FilePlaced(t1, i, slot, e) == FilePlaced(t, i, slot, e)
  {
    assert t.files[i := was][i := e] == t.files[i := e];
  }

  lemma WrittenName(t: Tree, i: nat, e: FileEntry)
    requires i < |t.files|
    ensures var t1 := t.(files := t.files[i := e]);
            && i < |t1.files| && t1.files[i] == e && t1.folders == t.folders && t1.fileMap == t.fileMap
  {
  }

  lemma SameIsUntouched(t: Tree)
    requires Valid(t)
    ensures Untouched(t, t)
  {
  }

  lemma DeadStaysDead(t: Tree, t': Tree, n: Node)
    requires Untouched(t, t') && !Live(t, n)
    ensures !Live(t', n)
  {
  }

  /** vfs_sub_file_init: on success one empty file is added to the tree below p, in the first free position of the
      store and the first vacant slot of p; a refusal leaves every live entry as it is. Either way the tree stays
      valid, and so does the disk with the same contents. */
  method VfsSubFileInit(s: VFSEntryStore, ghost man: StorageMan, name: seq<char>, p: int)
    returns (status: Status, file: int)
    requires SystemValid(s, man)
    modifies s.files, s.folders, s.filesMap, s.fileData, set f | f in s.fileData :: f.extents
    ensures SystemValid(s, man) && DiskUnder(s, man) == old(DiskUnder(s, man)) && LayoutUnder(s) == old(LayoutUnder(s))
    ensures status == CreateFileStatus(old(s.View()), p, name)
    ensures status != Success ==> Untouched(old(s.View()), s.View()) && file == NULL
    ensures status == Success ==>
              && FirstFree(old(s.View()).fileMap, file)
              && Added(old(s.View()), s.View(), FileNode(file), p,
                       IndexIn(Slots(old(s.View()), p, FileNode(0)), NULL), CString(name))
  {
    hide *;
    StoreParts(s, man);
    ghost var t := s.View();
    ValidShape(t);
    SameIsUntouched(t);
    CreateFileStatusIs(t, p, name);
    file := NULL;
    status := ValidateVfsFolder(s, p);
    if status != Success { return status, file; }
    var i;
    status, i := GetAvailableMapPosition(s.filesMap);
    if status != Success { return status, file; }
    DeadPositions(t, i);
    status := FileInit(s, man, i, name);
    if status != Success { return status, file; }
    StoreParts(s, man);
    ghost var t1, was := s.View(), FileEntry(CString(name), NULL);
    DeadFileUntouched(t, i, was);
    WrittenName(t, i, was);
    UntouchedNames(t, t1, p, CString(name));
    DeadStaysDead(t, t1, FileNode(i));
    FilePlace(s, i, p);
    CStringShort(name);
    status := SubFileInit(s, i, p);
    if status != Success {
      SystemFromParts(s, man);
      return status, file;
    }
    ghost var e, slot := FileEntry(CString(name), p), IndexIn(Slots(t, p, FileNode(0)), NULL);
    PlacedTwice(t, i, slot, was, e);
    SlotsOfKind(t, p, i);
    SlotsOfKind(t1, p, i);
    NameStatusIsNameFree(t, p, CString(name));
    CommitFile(s, man, i, t, e, slot);
    return Success, i;
  }

  /** The last step of vfs_sub_file_init: the linked file i of the store becomes live. */
  method CommitFile(s: VFSEntryStore, ghost man: StorageMan, i: nat, ghost t: Tree, ghost e: FileEntry, ghost slot: nat)
    requires s.Wired() && Valid(t) && i < VFS_MAX_FILES_AMOUNT && !Live(t, FileNode(i)) && LiveFolder(t, e.parent)
    requires man.allocationMap != s.filesMap && man.allocationMap != s.foldersMap
    requires Sound(man, s.fileData, s.filesMap[..]) && i < |s.fileData|
    requires s.fileData[i].Valid() && s.fileData[i].Chunks() == []
    requires Vacant(Slots(t, e.parent, FileNode(i)), slot)
    requires NameFree(t, e.parent, e.name) && |e.name| < MAX_NAME_LENGTH
    requires i < |t.files| && 0 <= e.parent < |t.folders| && slot < |t.folders[e.parent].subFiles|
    requires s.View() == FilePlaced(t, i, slot, e)
    modifies s.filesMap
    ensures SystemValid(s, man) && man.Sized() && |s.fileData| == s.filesMap.Length
    ensures DiskUnder(s, man) == old(DiskOf(man, s.fileData, s.filesMap[..]))
    ensures LayoutUnder(s) == old(LayoutOf(s.fileData, s.filesMap[..]))
    ensures Added(t, s.View(), FileNode(i), e.parent, slot, e.name)
  {
    hide *;
    AddedFileBy(t, i, slot, e);
    SoundParts(man, s.fileData, s.filesMap[..]);
    SoundEmptySlot(man, s.fileData, s.filesMap[..], i, true);
    MarkFileLive(s, i);
    AddedValid(t, s.View(), FileNode(i), e.parent, slot, e.name);
    SystemFromParts(s, man);
  }

  method MarkFileLive(s: VFSEntryStore, i: nat)
    requires s.Wired() && InStore(s.View(), FileNode(i)) && i < VFS_MAX_FILES_AMOUNT
    modifies s.filesMap
    ensures s.Wired() && |old(s.filesMap[..])| == s.filesMap.Length && i < s.filesMap.Length
    ensures s.filesMap[..] == old(s.filesMap[..])[i := true]
    ensures InStore(old(s.View()), FileNode(i)) && s.View() == PutMark(old(s.View()), FileNode(i), true)
  {
    s.filesMap[i] := true;
  }

  // ---- Deleting files ----------------------------------------------------------------

  /** file_delete_data on one file of many, and that it leaves the tables of the others alone. */
  method ClearFile(man: StorageMan, files: seq<File>, ghost live: seq<bool>, i: nat) returns (status: Status)
    requires |live| == |files| && Separate(files) && i < |files| && live[i] && FileOn(files[i], man)
    requires forall j :: 0 <= j < |files| && live[j] ==> files[j].Valid()
    modifies Footprint(man, files)
    ensures status == Success && FileOn(files[i], man) && files[i].Chunks() == []
    ensures Confined(old(ViewOf(man)), old(files[i].Chunks()), ViewOf(man), files[i].Chunks())
    ensures OwnedBy(files, live) == old(OwnedBy(files, live))[i := []]
    ensures LayoutOf(files, live) == old(LayoutOf(files, live))[i := []]
    ensures forall j :: 0 <= j < |files| && live[j] ==> files[j].Valid()
  {
    hide FileOn, Confined, Content, ChunksOf, Used;
    ghost var owned, layout := OwnedBy(files, live), LayoutOf(files, live);
    status := FileDeleteData(files[i], man);
    forall j | 0 <= j < |files| && j != i
      ensures files[j].Table() == old(files[j].Table()) && (live[j] ==> files[j].Valid())
    {
    }
    FileOnFacts(files[i], man);
    assert OwnedBy(files, live) == owned[i := []];
    assert LayoutOf(files, live) == layout[i := []];
  }

  /** The storage part of deleting a file: file i gives back its chunks and is live no longer. */
  method DropFile(man: StorageMan, files: seq<File>, ghost live: seq<bool>, i: nat) returns (status: Status)
    requires Sound(man, files, live) && i < |files| && live[i]
    modifies Footprint(man, files)
    ensures status == Success && Sound(man, files, live[i := false])
    ensures FilesDropped(old(DiskOf(man, files, live)), DiskOf(man, files, live[i := false]), {FileNode(i)})
    ensures |old(LayoutOf(files, live))| == |files|
    ensures LayoutOf(files, live[i := false]) == old(LayoutOf(files, live))[i := []]
  {
    hide *;
    SoundParts(man, files, live);
    DiskIs(man, files, live);
    OwnedIsLayout(files, live);
    SoundFile(man, files, live, i);
    ghost var d := DiskOf(man, files, live);
    status := ClearFile(man, files, live, i);
    SoundStep(man, files, live, i, d);
    FileOnFacts(files[i], man);
    SoundEmptySlot(man, files, live, i, false);
    DiskIs(man, files, live);
    DiskIs(man, files, live[i := false]);
    SoundParts(man, files, live[i := false]);
    DroppedOne(d, DiskOf(man, files, live[i := false]), i, ContentOn(files[i], man));
  }

  lemma DroppedOne(d: Disk, d': Disk, i: nat, c: seq<byte>)
    requires d.Consistent() && d'.Consistent() && i < |d.owned| && d'.owned == d.owned[i := []]
    requires d'.Contents() == d.Contents()[i := c]
    ensures FilesDropped(d, d', {FileNode(i)})
  {
    forall j | 0 <= j < |d.owned| && j != i
      ensures Content(d'.owned[j], d'.view.bytes) == Content(d.owned[j], d.view.bytes)
    {
      assert d'.Contents()[j] == d.Contents()[j];
    }
  }

  /** A file object: a record of the store, or an object elsewhere with the parent link that it holds. */
  datatype FileRef = Stored(index: nat) | Foreign(parent: int)

  ghost function ParentLink(t: Tree, ref: FileRef): int {
    match ref
    case Stored(f) => ParentOf(t, FileNode(f))
    case Foreign(p) => p
  }

  ghost function DeleteFileStatus(t: Tree, ref: FileRef): Status {
    if FolderStatus(t, ParentLink(t, ref)) != Success then FolderStatus(t, ParentLink(t, ref))
    else if ref.Foreign? then UnknownEntry
    else if !Live(t, FileNode(ref.index)) then SearchTargetNotFound
    else Success
  }

  /** Exactly the live files of the store are deleted. */
  lemma LiveFileDeletes(t: Tree, ref: FileRef)
    requires Valid(t)
    ensures DeleteFileStatus(t, ref) == Success <==> ref.Stored? && Live(t, FileNode(ref.index))
  {
    if ref.Stored? && Live(t, FileNode(ref.index)) { assert LiveFolder(t, ParentOf(t, FileNode(ref.index))); }
  }

  lemma DeleteFileStatusIs(t: Tree, ref: FileRef)
    ensures ParentLink(t, ref) == if ref.Stored? then ParentOf(t, FileNode(ref.index)) else ref.parent
    ensures DeleteFileStatus(t, ref) ==
            if FolderStatus(t, ParentLink(t, ref)) != Success then FolderStatus(t, ParentLink(t, ref))
            else if ref.Foreign? then UnknownEntry
            else if !Live(t, FileNode(ref.index)) then SearchTargetNotFound
            else Success
  {
  }

  lemma FileInStore(s: VFSEntryStore, f: nat)
    requires s.Wired() && f < VFS_MAX_FILES_AMOUNT
    ensures f < s.files.Length && f < s.filesMap.Length && f < |s.fileData|
    ensures ParentOf(s.View(), FileNode(f)) == s.files[f].parent && (Live(s.View(), FileNode(f)) <==> s.filesMap[f])
  {
  }

  /** delete_vfs_file: removes exactly the given file from the tree and gives its chunks back; a position that holds no
      live file and an object outside the store are refused without a change. */
  method DeleteVfsFile(s: VFSEntryStore, man: StorageMan, ref: FileRef) returns (status: Status)
    requires SystemValid(s, man) && (ref.Stored? ==> ref.index < VFS_MAX_FILES_AMOUNT)
    modifies s.files, s.folders, s.filesMap, Footprint(man, s.fileData)
    ensures SystemValid(s, man)
    ensures status == DeleteFileStatus(old(s.View()), ref)
    ensures status != Success ==>
              && s.View() == old(s.View()) && DiskUnder(s, man) == old(DiskUnder(s, man))
              && LayoutUnder(s) == old(LayoutUnder(s))
    ensures status == Success ==>
              && ref.Stored? && Live(old(s.View()), FileNode(ref.index))
              && Removed(old(s.View()), s.View(), FileNode(ref.index), SlotOf(old(s.View()), FileNode(ref.index)))
              && FilesDropped(old(DiskUnder(s, man)), DiskUnder(s, man), {FileNode(ref.index)})
              && LayoutUnder(s) == old(LayoutUnder(s))[ref.index := []]
  {
    hide *;
    StoreParts(s, man);
    DeleteFileStatusIs(s.View(), ref);
    var parent;
    if ref.Stored? {
      FileInStore(s, ref.index);
      FilesInArray(s, ref.index);
      parent := s.files[ref.index].parent;
    } else {
      parent := ref.parent;
    }
    ghost var t := s.View();
    status := ValidateVfsFolder(s, parent);
    if status != Success { return status; }
    if ref.Foreign? { return UnknownEntry; }
    status := UnlinkSubFile(s, ref.index);
    if status != Success {
      SystemFromParts(s, man);
      return status;
    }
    status := DropUnlinked(s, man, ref.index, t);
  }

  /** The end of delete_vfs_file, once the file is unlinked: its chunks go, and then its mark. */
  method DropUnlinked(s: VFSEntryStore, man: StorageMan, f: nat, ghost t: Tree) returns (status: Status)
    requires Valid(t) && Live(t, FileNode(f)) && s.Wired() && s.View() == Unlinked(t, FileNode(f))
    requires Sound(man, s.fileData, s.filesMap[..])
    requires man.allocationMap != s.filesMap && man.allocationMap != s.foldersMap
    requires f < |s.fileData| == s.filesMap.Length && s.filesMap[f]
    modifies s.filesMap, Footprint(man, s.fileData)
    ensures status == Success && SystemValid(s, man)
    ensures Removed(t, s.View(), FileNode(f), SlotOf(t, FileNode(f)))
    ensures man.Sized() && FilesDropped(old(DiskOf(man, s.fileData, s.filesMap[..])), DiskUnder(s, man), {FileNode(f)})
    ensures f < |old(LayoutOf(s.fileData, s.filesMap[..]))|
    ensures LayoutUnder(s) == old(LayoutOf(s.fileData, s.filesMap[..]))[f := []]
  {
    hide *;
    ghost var live := s.filesMap[..];
    SoundParts(man, s.fileData, live);
    UnlinkedDies(t, f);
    status := DropFile(man, s.fileData, live, f);
    SoundParts(man, s.fileData, live[f := false]);
    StoreApart(s, man);
    MarkFileDead(s, f);
    SystemFromParts(s, man);
  }

  /** Taking the mark of an unlinked file is all that is left of removing it. */
  lemma UnlinkedDies(t: Tree, f: nat)
    requires Valid(t) && Live(t, FileNode(f))
    ensures InStore(Unlinked(t, FileNode(f)), FileNode(f))
    ensures var t' := PutMark(Unlinked(t, FileNode(f)), FileNode(f), false);
            Valid(t') && Removed(t, t', FileNode(f), SlotOf(t, FileNode(f)))
  {
    hide Valid, Removed, Unlinked, SlotOf, PutMark;
    RemovedBy(t, FileNode(f));
    RemovedValid(t, PutMark(Unlinked(t, FileNode(f)), FileNode(f), false), FileNode(f), SlotOf(t, FileNode(f)));
  }

  method MarkFileDead(s: VFSEntryStore, f: nat)
    requires s.Wired() && InStore(s.View(), FileNode(f)) && f < s.filesMap.Length
    modifies s.filesMap
    ensures s.Wired() && s.filesMap[..] == old(s.filesMap[..])[f := false]
    ensures InStore(old(s.View()), FileNode(f)) && s.View() == PutMark(old(s.View()), FileNode(f), false)
  {
    s.filesMap[f] := false;
  }

  /** The arrays of the store are none of those that hold file data. */
  lemma StoreApart(s: VFSEntryStore, man: StorageMan)
    requires man.allocationMap != s.filesMap && man.allocationMap != s.foldersMap
    ensures s.filesMap !in Footprint(man, s.fileData) && s.foldersMap !in Footprint(man, s.fileData)
    ensures s.files !in Footprint(man, s.fileData) && s.folders !in Footprint(man, s.fileData)
  {
    assert forall f :: f in s.fileData ==> f != s.filesMap as object;
  }

  lemma SystemFromParts(s: VFSEntryStore, man: StorageMan)
    requires s.Wired() && Valid(s.View()) && Sound(man, s.fileData, s.filesMap[..])
    requires man.allocationMap != s.filesMap && man.allocationMap != s.foldersMap
    ensures SystemValid(s, man) && man.Sized() && |s.fileData| == s.filesMap.Length
    ensures DiskUnder(s, man) == DiskOf(man, s.fileData, s.filesMap[..])
    ensures LayoutUnder(s) == LayoutOf(s.fileData, s.filesMap[..])
  {
  }

  // ---- Deleting folders --------------------------------------------------------------

  /** delete_flat_folder: removes a folder that has no children; the root is refused. */
  method DeleteFlatFolder(s: VFSEntryStore, ghost man: StorageMan, d: int) returns (status: Status)
    requires SystemValid(s, man) && LiveFolder(s.View(), d)
    modifies s.folders, s.foldersMap
    ensures SystemValid(s, man) && DiskUnder(s, man) == old(DiskUnder(s, man)) && LayoutUnder(s) == old(LayoutUnder(s))
    ensures status == (if d == ROOT then InvalidRootOperation
                       else if !Childless(old(s.View()), d) then AttemptedToDeleteFolderWithSubEntries
                       else Success)
    ensures status != Success ==> s.View() == old(s.View())
    ensures status == Success ==>
              && Live(old(s.View()), FolderNode(d))
              && Removed(old(s.View()), s.View(), FolderNode(d), SlotOf(old(s.View()), FolderNode(d)))
  {
    hide EntryTree.Valid, Sound, DiskOf, LayoutOf, Removed, Unlinked, LiveFolder, Childless, SlotOf;
    ghost var t := s.View();
    status := UnlinkSubFolder(s, d, false);
    if status != Success { return status; }
    RemovedBy(t, FolderNode(d));
    s.foldersMap[d] := false;
    assert s.View() == PutMark(Unlinked(t, FolderNode(d)), FolderNode(d), false);
    RemovedValid(t, s.View(), FolderNode(d), SlotOf(t, FolderNode(d)));
    return Success;
  }

  /** From (t, d) to (t', d') exactly the entries in gone have disappeared, with the chunks of the files among them. */
  ghost predicate Deleted(t: Tree, d: Disk, t': Tree, d': Disk, gone: set<Node>) {
    Pruned(t, t', gone) && FilesDropped(d, d', gone) && forall n :: n in gone ==> n.index != NULL
  }

  lemma DeletedTwice(t: Tree, d: Disk, t1: Tree, d1: Disk, t2: Tree, d2: Disk, gone: set<Node>, more: set<Node>)
    requires Deleted(t, d, t1, d1, gone) && Deleted(t1, d1, t2, d2, more)
    ensures Deleted(t, d, t2, d2, gone + more)
  {
    PrunedTwice(t, t1, t2, gone, more);
    FilesDroppedTwice(d, d1, d2, gone, more);
  }

  lemma DeletedOne(t: Tree, d: Disk, t': Tree, d': Disk, n: Node, s: nat)
    requires Valid(t) && Removed(t, t', n, s)
    requires FilesDropped(d, d', {n}) || (n.FolderNode? && d' == d)
    ensures Deleted(t, d, t', d', {n})
  {
    RemovedIsPruned(t, t', n, s);
  }

  lemma DeletedNothing(t: Tree, d: Disk)
    requires Valid(t)
    ensures Deleted(t, d, t, d, {})
  {
    PrunedNothing(t);
  }

  /** The first i slots of d for entries of the kind of m are vacant. */
  ghost predicate VacantUpTo(t: Tree, d: int, m: Node, i: nat) {
    i <= |Slots(t, d, m)| && forall j :: 0 <= j < i ==> Slots(t, d, m)[j] == NULL
  }

  /** Clearing the child that occupies slot i leaves one more slot vacant. */
  lemma OneMoreVacant(t: Tree, t': Tree, gone: set<Node>, d: int, m: Node, i: nat)
    requires Pruned(t, t', gone) && LiveFolder(t', d) && VacantUpTo(t, d, m, i) && i < |Slots(t, d, m)|
    requires Slots(t, d, m)[i] != NULL ==> SameKindNode(m, Slots(t, d, m)[i]) in gone
    ensures VacantUpTo(t', d, m, i + 1)
    ensures forall k: Node ::
              |Slots(t', d, k)| == |Slots(t, d, k)| && (AllVacant(Slots(t, d, k)) ==> AllVacant(Slots(t', d, k)))
  {
    assert Slots(t', d, m) == Cleared(Slots(t, d, m), m, gone);
    forall k: Node ensures Slots(t', d, k) == Cleared(Slots(t, d, k), k, gone) {
    }
  }

  /** The state of the loop over the files of d after i slots: the files in gone, all of them children of d, are
      deleted. */
  ghost predicate FilesLoop(t0: Tree, d0: Disk, t: Tree, disk: Disk, gone: set<Node>, d: int, i: nat) {
    && Deleted(t0, d0, t, disk, gone) && LiveFolder(t, d) && VacantUpTo(t, d, FileNode(0), i)
    && (forall n :: n in gone ==> n.FileNode? && Live(t0, n) && ParentOf(t0, n) == d)
    && (gone == {} <==> VacantUpTo(t0, d, FileNode(0), i))
  }

  /** A slot that is vacant now was vacant before, unless something has been taken. */
  lemma SlotSkipped(t0: Tree, t: Tree, gone: set<Node>, d: int, m: Node, i: nat)
    requires Pruned(t0, t, gone) && LiveFolder(t, d) && i < |Slots(t, d, m)| && Slots(t, d, m)[i] == NULL
    requires VacantUpTo(t, d, m, i)
    ensures VacantUpTo(t, d, m, i + 1) && i < |Slots(t0, d, m)|
    ensures gone == {} ==> Slots(t0, d, m)[i] == NULL
  {
    assert Slots(t, d, m) == Cleared(Slots(t0, d, m), m, gone);
  }

  /** A slot that is occupied now was occupied before. */
  lemma SlotWasOccupied(t0: Tree, t: Tree, gone: set<Node>, d: int, m: Node, i: nat)
    requires Pruned(t0, t, gone) && LiveFolder(t, d) && i < |Slots(t, d, m)| && Slots(t, d, m)[i] != NULL
    ensures i < |Slots(t0, d, m)| && Slots(t0, d, m)[i] == Slots(t, d, m)[i]
  {
    assert Slots(t, d, m) == Cleared(Slots(t0, d, m), m, gone);
  }

  /** One round of the loop of delete_children_recursive over the files of d. */
  method DeleteFileAt(s: VFSEntryStore, man: StorageMan, d: int, i: nat, ghost t0: Tree, ghost d0: Disk,
                      ghost gone: set<Node>)
    returns (status: Status, ghost gone': set<Node>)
    requires SystemValid(s, man) && i < MAX_SUB_FILES_AMOUNT
    requires FilesLoop(t0, d0, s.View(), DiskUnder(s, man), gone, d, i)
    modifies s.files, s.folders, s.filesMap, Footprint(man, s.fileData)
    ensures status == Success && SystemValid(s, man)
    ensures FilesLoop(t0, d0, s.View(), DiskUnder(s, man), gone', d, i + 1)
    ensures Thinned(old(LayoutUnder(s)), LayoutUnder(s))
  {
    hide *;
    SystemParts(s, man);
    ThinnedFirst(LayoutUnder(s));
    ghost var t, disk := s.View(), DiskUnder(s, man);
    FilesLoopParts(t0, d0, t, disk, gone, d, i);
    SlotsInArray(s, d);
    if s.folders[d].subFiles[i] == NULL {
      NoFileGone(t0, d0, t, disk, gone, d, i);
      return Success, gone;
    }
    var f := s.folders[d].subFiles[i];
    ghost var n := FileNode(f);
    FileInSlot(t, d, i);
    LiveFileDeletes(t, Stored(f));
    ThinnedOne(LayoutUnder(s), f);
    status := DeleteVfsFile(s, man, Stored(f));
    if status != Success { return status, gone; }
    SystemParts(s, man);
    DeletedOne(t, disk, s.View(), DiskUnder(s, man), n, SlotOf(t, n));
    FileGone(t0, d0, t, disk, s.View(), DiskUnder(s, man), gone, n, d, i);
    gone' := gone + {n};
  }

  lemma FilesLoopParts(t0: Tree, d0: Disk, t: Tree, disk: Disk, gone: set<Node>, d: int, i: nat)
    requires FilesLoop(t0, d0, t, disk, gone, d, i)
    ensures Deleted(t0, d0, t, disk, gone) && LiveFolder(t, d) && VacantUpTo(t, d, FileNode(0), i)
  {
  }

  lemma NoFileGone(t0: Tree, d0: Disk, t: Tree, disk: Disk, gone: set<Node>, d: int, i: nat)
    requires FilesLoop(t0, d0, t, disk, gone, d, i)
    requires i < |Slots(t, d, FileNode(0))| && Slots(t, d, FileNode(0))[i] == NULL
    ensures FilesLoop(t0, d0, t, disk, gone, d, i + 1)
  {
    SlotSkipped(t0, t, gone, d, FileNode(0), i);
  }

  /** The loop of delete_children_recursive over the files of d. */
  method DeleteSubFiles(s: VFSEntryStore, man: StorageMan, d: int) returns (status: Status, ghost gone: set<Node>)
    requires SystemValid(s, man) && LiveFolder(s.View(), d)
    modifies s.files, s.folders, s.filesMap, Footprint(man, s.fileData)
    ensures status == Success && SystemValid(s, man)
    ensures FilesLoop(old(s.View()), old(DiskUnder(s, man)), s.View(), DiskUnder(s, man), gone, d, MAX_SUB_FILES_AMOUNT)
    ensures Thinned(old(LayoutUnder(s)), LayoutUnder(s))
  {
    hide SystemValid, EntryTree.Valid, DiskOf, FilesLoop, LayoutUnder, Thinned;
    SystemParts(s, man);
    ghost var t0, d0, layout := s.View(), DiskUnder(s, man), LayoutUnder(s);
    ThinnedFirst(layout);
    gone := {};
    FilesLoopStarts(t0, d0, d);
    for i := 0 to MAX_SUB_FILES_AMOUNT
      invariant SystemValid(s, man) && FilesLoop(t0, d0, s.View(), DiskUnder(s, man), gone, d, i)
      invariant Thinned(layout, LayoutUnder(s))
    {
      ghost var before := LayoutUnder(s);
      status, gone := DeleteFileAt(s, man, d, i, t0, d0, gone);
      ThinnedTwice(layout, before, LayoutUnder(s));
      if status != Success { return status, gone; }
    }
    return Success, gone;
  }

  lemma FilesLoopStarts(t: Tree, disk: Disk, d: int)
    requires Valid(t) && LiveFolder(t, d)
    ensures FilesLoop(t, disk, t, disk, {}, d, 0)
  {
    DeletedNothing(t, disk);
  }

  lemma FileGone(t0: Tree, d0: Disk, t: Tree, disk: Disk, t': Tree, disk': Disk, gone: set<Node>, n: Node, d: int,
                 i: nat)
    requires FilesLoop(t0, d0, t, disk, gone, d, i) && Deleted(t, disk, t', disk', {n})
    requires n.FileNode? && Live(t, n) && ParentOf(t, n) == d
    requires i < |Slots(t, d, FileNode(0))| && Slots(t, d, FileNode(0))[i] == n.index
    ensures FilesLoop(t0, d0, t', disk', gone + {n}, d, i + 1)
  {
    SlotWasOccupied(t0, t, gone, d, FileNode(0), i);
    DeletedTwice(t0, d0, t, disk, t', disk', gone, {n});
    OneMoreVacant(t, t', {n}, d, FileNode(0), i);
  }

  lemma StillVacant(t: Tree, t': Tree, more: set<Node>, d: int, c: int, i: nat)
    requires Pruned(t, t', more) && LiveFolder(t', d)
    requires VacantUpTo(t, d, FolderNode(0), i) && i < |Slots(t, d, FolderNode(0))|
    requires Slots(t, d, FolderNode(0))[i] == c
    ensures VacantUpTo(t', d, FolderNode(0), if FolderNode(c) in more then i + 1 else i)
    ensures AllVacant(Slots(t, d, FileNode(0))) ==> AllVacant(Slots(t', d, FileNode(0)))
  {
    if FolderNode(c) in more { OneMoreVacant(t, t', more, d, FolderNode(0), i); }
    assert Slots(t', d, FolderNode(0)) == Cleared(Slots(t, d, FolderNode(0)), FolderNode(0), more);
    assert Slots(t', d, FileNode(0)) == Cleared(Slots(t, d, FileNode(0)), FileNode(0), more);
  }

  lemma FolderGone(t0: Tree, d0: Disk, t: Tree, disk: Disk, t': Tree, disk': Disk, gone: set<Node>, more: set<Node>,
                   d: int, c: int, i: nat, step: nat)
    requires Valid(t0) && Valid(t) && Valid(t') && LiveFolder(t0, d) && LiveFolder(t, d)
    requires Deleted(t0, d0, t, disk, gone) && Deleted(t, disk, t', disk', more)
    requires Live(t, FolderNode(c)) && ParentOf(t, FolderNode(c)) == d
    requires VacantUpTo(t, d, FolderNode(0), i) && i < |Slots(t, d, FolderNode(0))|
    requires Slots(t, d, FolderNode(0))[i] == c
    requires forall n :: n in gone ==> InSubtree(t0, d, n) && n != FolderNode(d)
    requires forall n :: n in more ==> InSubtree(t, c, n)
    ensures Deleted(t0, d0, t', disk', gone + more) && LiveFolder(t', d)
    ensures forall n :: n in gone + more ==> InSubtree(t0, d, n) && n != FolderNode(d)
    ensures VacantUpTo(t', d, FolderNode(0), if FolderNode(c) in more then i + 1 else i)
    ensures AllVacant(Slots(t, d, FileNode(0))) ==> AllVacant(Slots(t', d, FileNode(0)))
    ensures WithinReach(t0, d, step, gone) && !TooDeep(t, c, step + 1) ==> WithinReach(t0, d, step, gone + more)
    ensures TooDeep(t, c, step + 1) ==> TooDeep(t0, d, step)
  {
    DeletedTwice(t0, d0, t, disk, t', disk', gone, more);
    hide EntryTree.Valid, FilesDropped, Below, TooDeep, WithinReach;
    forall n | n in more ensures InSubtree(t0, d, n) && n != FolderNode(d) {
      SubtreeOfChild(t0, t, gone, d, c, n);
    }
    assert LiveFolder(t', d);
    StillVacant(t, t', more, d, c, i);
    if WithinReach(t0, d, step, gone) && !TooDeep(t, c, step + 1) { ChildWithinReach(t0, t, gone, d, c, step, more); }
    if TooDeep(t, c, step + 1) { DeeperThanChild(t0, t, gone, d, c, step); }
  }

  /** The state of the loop over the folders of d after i slots: the entries in gone, all of them below d, are
      deleted. */
  ghost predicate FoldersLoop(t0: Tree, d0: Disk, t: Tree, disk: Disk, gone: set<Node>, d: int, i: nat) {
    && Deleted(t0, d0, t, disk, gone) && LiveFolder(t0, d) && LiveFolder(t, d)
    && VacantUpTo(t, d, FolderNode(0), i) && AllVacant(Slots(t, d, FileNode(0)))
    && forall n :: n in gone ==> InSubtree(t0, d, n) && n != FolderNode(d)
  }

  /** After i folder slots of d: nothing has been taken exactly if all of them were vacant from the start. */
  ghost predicate NothingYet(t0: Tree, d: int, step: nat, gone: set<Node>, i: nat)
    requires step <= MAX_FOLDER_DEPTH
  {
    if VacantUpTo(t0, d, FolderNode(0), i) then gone == {} else gone != {} && !FoldersTakeNothing(t0, d, step)
  }

  lemma VacantSlotNothingYet(t0: Tree, t: Tree, d: int, step: nat, gone: set<Node>, i: nat)
    requires Pruned(t0, t, gone) && LiveFolder(t, d) && step <= MAX_FOLDER_DEPTH && NothingYet(t0, d, step, gone, i)
    requires VacantUpTo(t, d, FolderNode(0), i) && i < |Slots(t, d, FolderNode(0))|
    requires Slots(t, d, FolderNode(0))[i] == NULL
    ensures NothingYet(t0, d, step, gone, i + 1)
  {
    SlotSkipped(t0, t, gone, d, FolderNode(0), i);
  }

  /** Slot i of d held folder c, and the recursion into c has taken more. */
  lemma ChildNothingYet(t0: Tree, t: Tree, d: int, step: nat, gone: set<Node>, more: set<Node>, c: int, i: nat)
    requires Valid(t0) && Pruned(t0, t, gone) && LiveFolder(t0, d) && LiveFolder(t, d) && step <= MAX_FOLDER_DEPTH
    requires LiveFolder(t0, c) && NothingYet(t0, d, step, gone, i)
    requires i < |Slots(t, d, FolderNode(0))| && Slots(t, d, FolderNode(0))[i] == c != NULL
    requires more == {} <==> TakesNothing(t, c, step + 1)
    ensures gone + more == {} <==> FoldersTakeNothing(t0, d, step)
    ensures more != {} ==> NothingYet(t0, d, step, gone + more, i + 1)
    ensures !AllVacant(Slots(t0, d, FolderNode(0)))
  {
    hide Pruned, TakesNothing, FoldersTakeNothing, Valid, LiveFolder;
    SlotWasOccupied(t0, t, gone, d, FolderNode(0), i);
    if VacantUpTo(t0, d, FolderNode(0), i) {
      FirstFolderDecides(t0, d, step, i, c);
      TakesNothingKept(t0, t, c, step + 1);
    }
  }

  lemma FirstFolderDecides(t: Tree, d: int, step: nat, i: nat, c: int)
    requires step <= MAX_FOLDER_DEPTH && VacantUpTo(t, d, FolderNode(0), i)
    requires i < |Slots(t, d, FolderNode(0))| && Slots(t, d, FolderNode(0))[i] == c != NULL
    ensures FoldersTakeNothing(t, d, step) <==> TakesNothing(t, c, step + 1)
  {
    FirstOccupiedIs(Slots(t, d, FolderNode(0)), i);
  }

  /** One round of the loop of delete_children_recursive over the folders of d. */
  method DeleteFolderAt(s: VFSEntryStore, man: StorageMan, d: int, step: nat, i: nat,
                        ghost t0: Tree, ghost d0: Disk, ghost gone: set<Node>)
    returns (status: Status, ghost gone': set<Node>)
    requires SystemValid(s, man) && i < MAX_SUB_FOLDERS_AMOUNT && step <= MAX_FOLDER_DEPTH && Valid(t0)
    requires FoldersLoop(t0, d0, s.View(), DiskUnder(s, man), gone, d, i) && WithinReach(t0, d, step, gone)
    requires NothingYet(t0, d, step, gone, i)
    modifies s.files, s.folders, s.filesMap, s.foldersMap, Footprint(man, s.fileData)
    ensures SystemValid(s, man)
    ensures FoldersLoop(t0, d0, s.View(), DiskUnder(s, man), gone', d, if status == Success then i + 1 else i)
    ensures status == Success || status == RecursiveOperationLimitExceeded
    ensures if status == Success then WithinReach(t0, d, step, gone') else TooDeep(t0, d, step)
    ensures if status == Success then NothingYet(t0, d, step, gone', i + 1)
            else gone' == {} <==> FoldersTakeNothing(t0, d, step)
    ensures status != Success ==> !AllVacant(Slots(t0, d, FolderNode(0)))
    ensures Thinned(old(LayoutUnder(s)), LayoutUnder(s))
    decreases MAX_FOLDER_DEPTH + 1 - step, 0
  {
    hide *;
    SystemParts(s, man);
    ThinnedFirst(LayoutUnder(s));
    ghost var t, disk := s.View(), DiskUnder(s, man);
    FoldersLoopParts(t0, d0, t, disk, gone, d, i);
    SlotsInArray(s, d);
    if s.folders[d].subFolders[i] == NULL {
      VacantSlotNothingYet(t0, t, d, step, gone, i);
      NoFolderGone(t0, d0, t, disk, gone, d, i);
      return Success, gone;
    }
    var c := s.folders[d].subFolders[i];
    FolderInSlot(t, d, i);
    ghost var more;
    status, more := DeleteChildrenRecursive(s, man, c, step + 1);
    SystemParts(s, man);
    ChildGone(t0, d0, t, disk, s.View(), DiskUnder(s, man), gone, more, d, c, i, step);
    gone' := gone + more;
    ChildBefore(t0, t, gone, c);
    ChildNothingYet(t0, t, d, step, gone, more, c, i);
  }

  lemma FoldersLoopParts(t0: Tree, d0: Disk, t: Tree, disk: Disk, gone: set<Node>, d: int, i: nat)
    requires FoldersLoop(t0, d0, t, disk, gone, d, i)
    ensures Deleted(t0, d0, t, disk, gone) && Pruned(t0, t, gone) && LiveFolder(t0, d) && LiveFolder(t, d)
    ensures VacantUpTo(t, d, FolderNode(0), i)
  {
  }

  lemma NoFolderGone(t0: Tree, d0: Disk, t: Tree, disk: Disk, gone: set<Node>, d: int, i: nat)
    requires FoldersLoop(t0, d0, t, disk, gone, d, i)
    requires i < |Slots(t, d, FolderNode(0))| && Slots(t, d, FolderNode(0))[i] == NULL
    ensures FoldersLoop(t0, d0, t, disk, gone, d, i + 1)
  {
  }

  /** The state of the loop after the recursion into the child in slot i. */
  lemma ChildGone(t0: Tree, d0: Disk, t: Tree, disk: Disk, t': Tree, disk': Disk, gone: set<Node>, more: set<Node>,
                  d: int, c: int, i: nat, step: nat)
    requires Valid(t0) && Valid(t) && Valid(t') && FoldersLoop(t0, d0, t, disk, gone, d, i)
    requires Deleted(t, disk, t', disk', more) && Live(t, FolderNode(c)) && ParentOf(t, FolderNode(c)) == d
    requires i < |Slots(t, d, FolderNode(0))| && Slots(t, d, FolderNode(0))[i] == c
    requires forall n :: n in more ==> InSubtree(t, c, n)
    ensures FoldersLoop(t0, d0, t', disk', gone + more, d, i)
    ensures FolderNode(c) in more ==> FoldersLoop(t0, d0, t', disk', gone + more, d, i + 1)
    ensures WithinReach(t0, d, step, gone) && !TooDeep(t, c, step + 1) ==> WithinReach(t0, d, step, gone + more)
    ensures TooDeep(t, c, step + 1) ==> TooDeep(t0, d, step)
  {
    hide Valid, Deleted, InSubtree, TooDeep, WithinReach, LiveFolder, Live;
    FolderGone(t0, d0, t, disk, t', disk', gone, more, d, c, i, step);
  }

  lemma ChildBefore(t0: Tree, t: Tree, gone: set<Node>, c: int)
    requires Pruned(t0, t, gone) && Live(t, FolderNode(c))
    ensures LiveFolder(t0, c)
  {
  }

  /** The loop of delete_children_recursive over the folders of d, whose files are gone already. */
  method DeleteSubFolders(s: VFSEntryStore, man: StorageMan, d: int, step: nat)
    returns (status: Status, ghost gone: set<Node>)
    requires SystemValid(s, man) && LiveFolder(s.View(), d) && step <= MAX_FOLDER_DEPTH
    requires AllVacant(Slots(s.View(), d, FileNode(0)))
    modifies s.files, s.folders, s.filesMap, s.foldersMap, Footprint(man, s.fileData)
    ensures SystemValid(s, man)
    ensures FoldersLoop(old(s.View()), old(DiskUnder(s, man)), s.View(), DiskUnder(s, man), gone, d, 0)
    ensures status == Success || status == RecursiveOperationLimitExceeded
    ensures status == Success ==> Childless(s.View(), d) && WithinReach(old(s.View()), d, step, gone)
    ensures status == Success ==> NothingYet(old(s.View()), d, step, gone, MAX_SUB_FOLDERS_AMOUNT)
    ensures status != Success ==> TooDeep(old(s.View()), d, step)
    ensures status != Success ==> (gone == {} <==> FoldersTakeNothing(old(s.View()), d, step))
    ensures status != Success ==> !AllVacant(Slots(old(s.View()), d, FolderNode(0)))
    ensures Thinned(old(LayoutUnder(s)), LayoutUnder(s))
    decreases MAX_FOLDER_DEPTH + 1 - step, 1
  {
    hide SystemValid, EntryTree.Valid, DiskOf, FoldersLoop, TooDeep, WithinReach, Childless, LiveFolder;
    hide FoldersTakeNothing, NothingYet, LayoutUnder, Thinned;
    SystemParts(s, man);
    ghost var t0, d0, layout := s.View(), DiskUnder(s, man), LayoutUnder(s);
    ThinnedFirst(layout);
    gone := {};
    FoldersLoopStarts(t0, d0, d, step);
    for i := 0 to MAX_SUB_FOLDERS_AMOUNT
      invariant SystemValid(s, man) && WithinReach(t0, d, step, gone) && NothingYet(t0, d, step, gone, i)
      invariant FoldersLoop(t0, d0, s.View(), DiskUnder(s, man), gone, d, i) && Thinned(layout, LayoutUnder(s))
    {
      ghost var before := LayoutUnder(s);
      status, gone := DeleteFolderAt(s, man, d, step, i, t0, d0, gone);
      SystemParts(s, man);
      ThinnedTwice(layout, before, LayoutUnder(s));
      if status != Success {
        FoldersLoopFrom(t0, d0, s.View(), DiskUnder(s, man), gone, d, i);
        return status, gone;
      }
    }
    SystemParts(s, man);
    FoldersLoopFrom(t0, d0, s.View(), DiskUnder(s, man), gone, d, MAX_SUB_FOLDERS_AMOUNT);
    return Success, gone;
  }

  lemma FoldersLoopStarts(t: Tree, disk: Disk, d: int, step: nat)
    requires Valid(t) && LiveFolder(t, d) && AllVacant(Slots(t, d, FileNode(0)))
    ensures FoldersLoop(t, disk, t, disk, {}, d, 0) && WithinReach(t, d, step, {})
    ensures step <= MAX_FOLDER_DEPTH ==> NothingYet(t, d, step, {}, 0)
  {
    DeletedNothing(t, disk);
  }

  lemma FoldersLoopFrom(t0: Tree, d0: Disk, t: Tree, disk: Disk, gone: set<Node>, d: int, i: nat)
    requires Valid(t) && FoldersLoop(t0, d0, t, disk, gone, d, i)
    ensures FoldersLoop(t0, d0, t, disk, gone, d, 0)
    ensures i == MAX_SUB_FOLDERS_AMOUNT ==> Childless(t, d)
  {
    LiveFolderInRange(t, d);
    ChildrenAreSlots(t, d);
  }

  /** delete_children_recursive, entered at folder d in a recursion of depth step. It succeeds exactly when d is not
      the root and no folder lies too deep below d; then precisely the subtree of d is gone from tree and disk. At the
      root it fails with everything below gone, at the depth limit with some of it, and with nothing exactly as
      TakesNothing says. Tree and disk are valid all the same. */
  method DeleteChildrenRecursive(s: VFSEntryStore, man: StorageMan, d: int, step: nat)
    returns (status: Status, ghost gone: set<Node>)
    requires SystemValid(s, man) && LiveFolder(s.View(), d) && step <= MAX_FOLDER_DEPTH + 1
    modifies s.files, s.folders, s.filesMap, s.foldersMap, Footprint(man, s.fileData)
    ensures SystemValid(s, man)
    ensures Deleted(old(s.View()), old(DiskUnder(s, man)), s.View(), DiskUnder(s, man), gone)
    ensures forall n :: n in gone ==> InSubtree(old(s.View()), d, n)
    ensures status == Success <==> d != ROOT && !TooDeep(old(s.View()), d, step)
    ensures status == Success ==> forall n :: InSubtree(old(s.View()), d, n) ==> n in gone
    ensures status == RecursiveOperationLimitExceeded <==> TooDeep(old(s.View()), d, step)
    ensures status in {Success, RecursiveOperationLimitExceeded, InvalidRootOperation}
    ensures status == InvalidRootOperation ==>
              forall n :: InSubtree(old(s.View()), d, n) && n != FolderNode(d) ==> n in gone
    ensures status != Success ==> FolderNode(d) !in gone
    ensures gone == {} <==> TakesNothing(old(s.View()), d, step)
    ensures Thinned(old(LayoutUnder(s)), LayoutUnder(s))
    decreases MAX_FOLDER_DEPTH + 1 - step, 2
  {
    hide *;
    SystemParts(s, man);
    ghost var t0, d0, layout := s.View(), DiskUnder(s, man), LayoutUnder(s);
    ThinnedFirst(layout);
    if step > MAX_FOLDER_DEPTH {
      DeletedNothing(t0, d0);
      EnteredTooDeep(t0, d, step);
      NothingBelowLimit(t0, d, step);
      return RecursiveOperationLimitExceeded, {};
    }
    status := ValidateVfsFolder(s, d);
    if status != Success { return status, {}; }
    ghost var files, folders;
    status, files := DeleteSubFiles(s, man, d);
    if status != Success { return status, files; }
    SystemParts(s, man);
    ghost var t1, d1, layout1 := s.View(), DiskUnder(s, man), LayoutUnder(s);
    FilesAreGone(t0, d0, t1, d1, files, d);
    status, folders := DeleteSubFolders(s, man, d, step);
    SystemParts(s, man);
    ThinnedTwice(layout, layout1, LayoutUnder(s));
    ghost var t2, d2 := s.View(), DiskUnder(s, man);
    gone := files + folders;
    ContentsGone(t0, d0, t1, d1, t2, d2, files, folders, d, step, status == Success);
    if status == Success {
      AllTaken(t0, d0, t1, d1, files, folders, d, step);
    } else {
      SomeTaken(t0, d0, t1, d1, files, folders, d, step);
    }
    if status != Success { return status, gone; }
    status := DeleteFlatFolder(s, man, d);
    if status != Success { return status, gone; }
    SystemParts(s, man);
    DeletedOne(t2, d2, s.View(), DiskUnder(s, man), FolderNode(d), SlotOf(t2, FolderNode(d)));
    SubtreeGone(t0, d0, t2, d2, s.View(), DiskUnder(s, man), gone, d);
    gone := gone + {FolderNode(d)};
    return Success, gone;
  }

  /** What the two loops have taken together when the second fails. */
  lemma SomeTaken(t0: Tree, d0: Disk, t1: Tree, d1: Disk, files: set<Node>, folders: set<Node>, d: int, step: nat)
    requires Valid(t0) && LiveFolder(t0, d) && step <= MAX_FOLDER_DEPTH
    requires FilesLoop(t0, d0, t1, d1, files, d, MAX_SUB_FILES_AMOUNT)
    requires folders == {} <==> FoldersTakeNothing(t1, d, step)
    requires !AllVacant(Slots(t1, d, FolderNode(0)))
    ensures files + folders == {} <==> TakesNothing(t0, d, step)
  {
    FilesTaken(t0, d0, t1, d1, files, d);
    hide *;
    TakesNothingMeans(t0, d, step);
    NoneInUnion(files, folders);
    if files == {} {
      SlotsAsBefore(t0, t1, d, FolderNode(0));
      TakesNothingKept(t0, t1, d, step);
    }
  }

  lemma NoneInUnion(x: set<Node>, y: set<Node>)
    ensures x + y == {} <==> x == {} && y == {}
  {
    if n :| n in x { assert n in x + y; }
    if n :| n in y { assert n in x + y; }
  }

  lemma FilesTaken(t0: Tree, d0: Disk, t1: Tree, d1: Disk, files: set<Node>, d: int)
    requires Valid(t0) && LiveFolder(t0, d) && FilesLoop(t0, d0, t1, d1, files, d, MAX_SUB_FILES_AMOUNT)
    ensures Pruned(t0, t1, files) && (files == {} <==> AllVacant(Slots(t0, d, FileNode(0))))
  {
    SlotAmounts(t0, d);
  }

  lemma TakesNothingMeans(t: Tree, d: int, step: nat)
    requires step <= MAX_FOLDER_DEPTH
    ensures FoldersTakeNothing(t, d, step) ==> !AllVacant(Slots(t, d, FolderNode(0)))
    ensures TakesNothing(t, d, step) <==>
            AllVacant(Slots(t, d, FileNode(0))) &&
            if AllVacant(Slots(t, d, FolderNode(0))) then d == ROOT else FoldersTakeNothing(t, d, step)
  {
    hide TakesNothing, FoldersTakeNothing;
    TakesNothingIs(t, d, step);
    FoldersTakeNothingIs(t, d, step);
  }

  /** What they have taken when both succeed. */
  lemma AllTaken(t0: Tree, d0: Disk, t1: Tree, d1: Disk, files: set<Node>, folders: set<Node>, d: int, step: nat)
    requires Valid(t0) && LiveFolder(t0, d) && step <= MAX_FOLDER_DEPTH
    requires FilesLoop(t0, d0, t1, d1, files, d, MAX_SUB_FILES_AMOUNT)
    requires NothingYet(t1, d, step, folders, MAX_SUB_FOLDERS_AMOUNT)
    ensures d == ROOT ==> (files + folders == {} <==> TakesNothing(t0, d, step))
    ensures d != ROOT ==> !TakesNothing(t0, d, step)
  {
    FilesTaken(t0, d0, t1, d1, files, d);
    hide Valid, LiveFolder, FilesLoop, Pruned, TakesNothing, FoldersTakeNothing;
    TakesNothingMeans(t0, d, step);
    SlotAmounts(t0, d);
    if files == {} {
      SlotsAsBefore(t0, t1, d, FolderNode(0));
      TakesNothingKept(t0, t1, d, step);
    }
  }

  lemma SlotAmounts(t: Tree, d: int)
    requires Valid(t) && LiveFolder(t, d)
    ensures |Slots(t, d, FileNode(0))| == MAX_SUB_FILES_AMOUNT && |Slots(t, d, FolderNode(0))| == MAX_SUB_FOLDERS_AMOUNT
  {
    LiveFolderInRange(t, d);
    assert |Slots(t, d, FileNode(0))| == SlotsAmount(FileNode(0));
    assert |Slots(t, d, FolderNode(0))| == SlotsAmount(FolderNode(0));
  }

  lemma EnteredTooDeep(t: Tree, d: int, step: nat)
    requires LiveFolder(t, d) && step > MAX_FOLDER_DEPTH
    ensures TooDeep(t, d, step)
  {
    assert Up(t, d, 0) == d;
  }

  lemma FilesAreGone(t0: Tree, d0: Disk, t1: Tree, d1: Disk, files: set<Node>, d: int)
    requires Valid(t1) && FilesLoop(t0, d0, t1, d1, files, d, MAX_SUB_FILES_AMOUNT)
    ensures LiveFolder(t1, d) && AllVacant(Slots(t1, d, FileNode(0))) && Deleted(t0, d0, t1, d1, files)
    ensures forall n :: n in files ==> InSubtree(t0, d, n)
  {
    LiveFolderInRange(t1, d);
    assert Up(t0, d, 0) == d;
  }

  /** After the two loops: what they took is below d, and if both succeeded all that was below d is gone. */
  lemma ContentsGone(t0: Tree, d0: Disk, t1: Tree, d1: Disk, t2: Tree, d2: Disk, files: set<Node>, folders: set<Node>,
                     d: int, step: nat, success: bool)
    requires Valid(t0) && Valid(t1) && Valid(t2) && LiveFolder(t0, d) && step <= MAX_FOLDER_DEPTH
    requires FilesLoop(t0, d0, t1, d1, files, d, MAX_SUB_FILES_AMOUNT)
    requires FoldersLoop(t1, d1, t2, d2, folders, d, 0)
    requires success ==> Childless(t2, d) && WithinReach(t1, d, step, folders)
    requires !success ==> TooDeep(t1, d, step)
    ensures Deleted(t0, d0, t2, d2, files + folders) && LiveFolder(t2, d)
    ensures forall n :: n in files + folders ==> InSubtree(t0, d, n) && n != FolderNode(d)
    ensures success ==>
              (forall n :: InSubtree(t0, d, n) && n != FolderNode(d) ==> n in files + folders) && !TooDeep(t0, d, step)
    ensures !success ==> TooDeep(t0, d, step)
  {
    DeletedTwice(t0, d0, t1, d1, t2, d2, files, folders);
    forall n | n in files + folders ensures InSubtree(t0, d, n) && n != FolderNode(d) {
      if n in files {
        assert Up(t0, d, 0) == d;
      } else {
        SubtreeBefore(t0, t1, files, d, n);
      }
    }
    if success {
      forall n | InSubtree(t0, d, n) && n != FolderNode(d) ensures n in files + folders {
        ChildlessLostAll(t0, t2, files + folders, d, n);
      }
      ReachBefore(t0, t1, files, folders, d, step);
      AllWithinReach(t0, d, step, files + folders);
    } else {
      DeepBefore(t0, t1, files, d, step);
    }
  }

  lemma SubtreeBefore(t0: Tree, t1: Tree, gone: set<Node>, d: int, n: Node)
    requires Valid(t0) && Valid(t1) && Pruned(t0, t1, gone) && InSubtree(t1, d, n)
    ensures InSubtree(t0, d, n)
  {
    if n != FolderNode(d) {
      var q := ParentOf(t1, n);
      assert LiveFolder(t1, q);
      var k: nat :| Up(t1, q, k) == d;
      PrunedUp(t0, t1, gone, q, k);
    }
  }

  lemma DeepBefore(t0: Tree, t1: Tree, gone: set<Node>, d: int, step: nat)
    requires Valid(t0) && Valid(t1) && Pruned(t0, t1, gone) && TooDeep(t1, d, step)
    ensures TooDeep(t0, d, step)
  {
    var x, k: nat :| LiveFolder(t1, x) && Up(t1, x, k) == d && step + k > MAX_FOLDER_DEPTH;
    PrunedUp(t0, t1, gone, x, k);
    PrunedLive(t0, t1, gone, x);
  }

  lemma ReachBefore(t0: Tree, t1: Tree, files: set<Node>, folders: set<Node>, d: int, step: nat)
    requires Valid(t0) && Valid(t1) && Pruned(t0, t1, files) && WithinReach(t1, d, step, folders)
    requires forall n :: n in files ==> n.FileNode?
    requires forall n :: n in folders ==> InSubtree(t1, d, n)
    ensures WithinReach(t0, d, step, files + folders)
  {
    forall x, k: nat | FolderNode(x) in files + folders && Up(t0, x, k) == d ensures step + k <= MAX_FOLDER_DEPTH {
      assert FolderNode(x) in folders;
      FolderInSubtree(t1, d, x);
      PrunedUp(t0, t1, files, x, k);
    }
  }

  lemma SubtreeGone(t0: Tree, d0: Disk, t2: Tree, d2: Disk, t3: Tree, d3: Disk, gone: set<Node>, d: int)
    requires Deleted(t0, d0, t2, d2, gone) && Deleted(t2, d2, t3, d3, {FolderNode(d)}) && Live(t2, FolderNode(d))
    ensures Deleted(t0, d0, t3, d3, gone + {FolderNode(d)}) && InSubtree(t0, d, FolderNode(d))
  {
    DeletedTwice(t0, d0, t2, d2, t3, d3, gone, {FolderNode(d)});
  }

  lemma FreedByDeletion(s: VFSEntryStore, man: StorageMan, t: Tree, d: Disk, gone: set<Node>)
    requires SystemValid(s, man) && d.Consistent() && Deleted(t, d, s.View(), DiskUnder(s, man), gone)
    ensures man.freeChunkCount == d.view.free + ChunksIn(d.owned, gone)
  {
    DroppedIsFreed(d, DiskUnder(s, man), gone);
  }

  lemma LeafSubtree(t: Tree, d: int)
    requires Valid(t) && Live(t, FolderNode(d)) && Childless(t, d)
    ensures forall n :: InSubtree(t, d, n) <==> n == FolderNode(d)
  {
    forall n | InSubtree(t, d, n) && n != FolderNode(d) ensures false {
      var q := ParentOf(t, n);
      assert LiveFolder(t, q) && q != d;
      var k: nat :| Up(t, q, k) == d;
      OnlyChildlessBelow(t, d, q, k);
    }
  }

  ghost function DeleteFolderStatus(t: Tree, d: int, force: bool): Status {
    if FolderStatus(t, d) != Success then FolderStatus(t, d)
    else if Childless(t, d) then (if d == ROOT then InvalidRootOperation else Success)
    else if !force then AttemptedToDeleteFolderWithSubEntries
    else if TooDeep(t, d, 0) then RecursiveOperationLimitExceeded
    else if d == ROOT then InvalidRootOperation
    else Success
  }

  lemma RootHoldsAll(t: Tree, n: Node)
    requires Valid(t) && Live(t, n)
    ensures InSubtree(t, ROOT, n) && n != FolderNode(ROOT)
  {
    assert Reaches(t, ParentOf(t, n)) by { assert LiveFolder(t, ParentOf(t, n)); }
    LiveInStore(t, n);
  }

  lemma ChildlessRoot(t: Tree)
    requires Valid(t) && Childless(t, ROOT)
    ensures TakesNothing(t, ROOT, 0) && forall n :: !Live(t, n)
  {
    ChildrenAreSlots(t, ROOT);
    forall n | Live(t, n) ensures false {
      var q := ParentOf(t, n);
      assert LiveFolder(t, q) && q != ROOT;
      assert Reaches(t, q);
      var k: nat :| Up(t, q, k) == ROOT;
      OnlyChildlessBelow(t, ROOT, q, k);
    }
  }

  /** The branch of delete_vfs_folder for a folder without children. */
  method DeleteLeafFolder(s: VFSEntryStore, man: StorageMan, d: int) returns (status: Status, ghost gone: set<Node>)
    requires SystemValid(s, man) && LiveFolder(s.View(), d) && Childless(s.View(), d)
    modifies s.folders, s.foldersMap
    ensures SystemValid(s, man)
    ensures status == if d == ROOT then InvalidRootOperation else Success
    ensures Deleted(old(s.View()), old(DiskUnder(s, man)), s.View(), DiskUnder(s, man), gone)
    ensures status == Success ==> forall n :: n in gone <==> InSubtree(old(s.View()), d, n)
    ensures status != Success ==> gone == {} && TakesNothing(old(s.View()), d, 0) && forall n :: !Live(old(s.View()), n)
    ensures LayoutUnder(s) == old(LayoutUnder(s))
  {
    hide SystemValid, EntryTree.Valid, DiskOf, FilesDropped, Deleted, InSubtree, Childless, Removed, SlotOf, LiveFolder;
    hide TakesNothing, LayoutUnder;
    SystemParts(s, man);
    ghost var t, disk := s.View(), DiskUnder(s, man);
    DeletedNothing(t, disk);
    gone := {};
    if d == ROOT { ChildlessRoot(t); }
    status := DeleteFlatFolder(s, man, d);
    if status != Success { return status, gone; }
    SystemParts(s, man);
    DeletedOne(t, disk, s.View(), DiskUnder(s, man), FolderNode(d), SlotOf(t, FolderNode(d)));
    LeafSubtree(t, d);
    gone := {FolderNode(d)};
  }

  /** What the deletion of folder d takes when it ends with this answer: the subtree of d when it succeeds, everything
      when it is aimed at the root, and part of the subtree when it meets the depth limit; nothing when it is
      refused. */
  ghost predicate DeletionTakes(t: Tree, d: int, status: Status, gone: set<Node>) {
    && (forall n :: n in gone ==> InSubtree(t, d, n))
    && (if status == Success then forall n :: InSubtree(t, d, n) ==> n in gone else FolderNode(d) !in gone)
    && (status == InvalidRootOperation ==> forall n :: Live(t, n) ==> n in gone)
    && (status in {RecursiveOperationLimitExceeded, InvalidRootOperation} ==> (gone == {} <==> TakesNothing(t, d, 0)))
    && (status !in {Success, RecursiveOperationLimitExceeded, InvalidRootOperation} ==> gone == {})
  }

  lemma RefusalTakesNothing(t: Tree, d: int, force: bool)
    ensures FolderStatus(t, d) != Success ==>
              DeleteFolderStatus(t, d, force) == FolderStatus(t, d) && DeletionTakes(t, d, FolderStatus(t, d), {})
    ensures FolderStatus(t, d) == Success && !Childless(t, d) && !force ==>
              && DeleteFolderStatus(t, d, force) == AttemptedToDeleteFolderWithSubEntries
              && DeletionTakes(t, d, AttemptedToDeleteFolderWithSubEntries, {})
  {
    hide Childless, InSubtree, TakesNothing;
  }

  lemma LeafTakes(t: Tree, d: int, force: bool, status: Status, gone: set<Node>)
    requires FolderStatus(t, d) == Success && Childless(t, d)
    requires status == if d == ROOT then InvalidRootOperation else Success
    requires status == Success ==> forall n :: n in gone <==> InSubtree(t, d, n)
    requires status != Success ==> gone == {} && TakesNothing(t, d, 0) && forall n :: !Live(t, n)
    ensures status == DeleteFolderStatus(t, d, force) && DeletionTakes(t, d, status, gone)
  {
    hide FolderStatus, Childless, InSubtree, TakesNothing, Live;
  }

  lemma RecursionTakes(t: Tree, d: int, status: Status, gone: set<Node>)
    requires Valid(t) && FolderStatus(t, d) == Success && !Childless(t, d)
    requires forall n :: n in gone ==> InSubtree(t, d, n)
    requires status == Success <==> d != ROOT && !TooDeep(t, d, 0)
    requires status == Success ==> forall n :: InSubtree(t, d, n) ==> n in gone
    requires status == RecursiveOperationLimitExceeded <==> TooDeep(t, d, 0)
    requires status in {Success, RecursiveOperationLimitExceeded, InvalidRootOperation}
    requires status == InvalidRootOperation ==> forall n :: InSubtree(t, d, n) && n != FolderNode(d) ==> n in gone
    requires status != Success ==> FolderNode(d) !in gone
    requires gone == {} <==> TakesNothing(t, d, 0)
    ensures status == DeleteFolderStatus(t, d, true) && DeletionTakes(t, d, status, gone)
  {
    forall n | Live(t, n) ensures InSubtree(t, ROOT, n) && n != FolderNode(ROOT) { RootHoldsAll(t, n); }
    hide Valid, FolderStatus, Childless, InSubtree, TooDeep, TakesNothing, Live;
  }

  /** A deletion leaves alive exactly what it has not taken, and a successful one takes the subtree with its folder. */
  lemma SubtreeDies(t: Tree, disk: Disk, t': Tree, disk': Disk, d: int, status: Status, gone: set<Node>)
    requires Deleted(t, disk, t', disk', gone) && DeletionTakes(t, d, status, gone)
    ensures status == Success ==> forall n :: Live(t', n) <==> Live(t, n) && !InSubtree(t, d, n)
    ensures forall n :: Live(t', n) ==> Live(t, n) && ParentOf(t', n) == ParentOf(t, n) && NameOf(t', n) == NameOf(t, n)
  {
    hide FilesDropped, Cleared, InSubtree, TakesNothing, Live, Slots;
  }

  /** delete_vfs_folder. When it succeeds, exactly the subtree of d is gone, every other entry and every other file
      content is as it was, and the free count has grown by exactly the chunks of the files in the subtree. Refused or
      failed, it leaves tree and disk valid; only a forced deletion that meets the depth limit, or is aimed at the
      root, takes anything before it fails, and that from the subtree of d. */
  method DeleteVfsFolder(s: VFSEntryStore, man: StorageMan, d: int, force: bool)
    returns (status: Status, ghost gone: set<Node>)
    requires SystemValid(s, man)
    modifies s.files, s.folders, s.filesMap, s.foldersMap, Footprint(man, s.fileData)
    ensures SystemValid(s, man)
    ensures status == DeleteFolderStatus(old(s.View()), d, force)
    ensures Deleted(old(s.View()), old(DiskUnder(s, man)), s.View(), DiskUnder(s, man), gone)
    ensures man.freeChunkCount == old(man.freeChunkCount) + ChunksIn(old(DiskUnder(s, man)).owned, gone)
    ensures DeletionTakes(old(s.View()), d, status, gone)
    ensures status == Success ==>
              forall n :: Live(s.View(), n) <==> Live(old(s.View()), n) && !InSubtree(old(s.View()), d, n)
    ensures forall n :: Live(s.View(), n) ==>
              && Live(old(s.View()), n) && ParentOf(s.View(), n) == ParentOf(old(s.View()), n)
              && NameOf(s.View(), n) == NameOf(old(s.View()), n)
    ensures Thinned(old(LayoutUnder(s)), LayoutUnder(s))
  {
    hide *;
    SystemParts(s, man);
    ghost var t, disk := s.View(), DiskUnder(s, man);
    ThinnedFirst(LayoutUnder(s));
    DeletedNothing(t, disk);
    RefusalTakesNothing(t, d, force);
    gone := {};
    status := ValidateVfsFolder(s, d);
    if status == Success {
      StoreParts(s, man);
      var has := HasSubEntries(s, d);
      if !has {
        status, gone := DeleteLeafFolder(s, man, d);
        LeafTakes(t, d, force, status, gone);
      } else if !force {
        status := AttemptedToDeleteFolderWithSubEntries;
      } else {
        status, gone := DeleteChildrenRecursive(s, man, d, 0);
        RecursionTakes(t, d, status, gone);
      }
    }
    SystemParts(s, man);
    FreedByDeletion(s, man, t, disk, gone);
    SubtreeDies(t, disk, s.View(), DiskUnder(s, man), d, status, gone);
  }
}
