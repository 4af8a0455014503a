/** The answers of the operations on entries, read off the records of the store and the paths of entries. Nothing here
    uses the vocabulary in which the operations are specified, so each statement can be compared with the code by
    itself. */
module Outcomes {
  import opened Settings
  import opened EntryTree
  import opened TreeSteps
  import opened TreeUpdates
  import opened Subtrees
  import opened Entries
  import opened Folders
  import opened EntryStore
  import opened Relocation
  import opened Paths
  import opened PathChanges

  // ---- Folders and names -------------------------------------------------------------

  /** validate_vfs_folder, by the position and the map. */
  lemma FolderAnswers(t: Tree, d: int)
    requires Shape(t)
    ensures FolderStatus(t, d) == Success <==>
              d == VFS_MAX_FOLDERS_AMOUNT || (0 <= d < VFS_MAX_FOLDERS_AMOUNT && t.folderMap[d])
    ensures FolderStatus(t, d) == UninitialisedEntry <==> 0 <= d < VFS_MAX_FOLDERS_AMOUNT && !t.folderMap[d]
    ensures FolderStatus(t, d) == UnknownEntry <==> d < 0 || VFS_MAX_FOLDERS_AMOUNT < d
  {
  }

  /** A name without '\0' and '/' that is neither empty nor too long nor reserved, and that no child of p has, is
      accepted for p: by renames and moves, and by creations when a record and a slot are left. */
  lemma PlainNameIsAccepted(t: Tree, p: int, name: string)
    requires Shape(t) && (p == VFS_MAX_FOLDERS_AMOUNT || (0 <= p < VFS_MAX_FOLDERS_AMOUNT && t.folderMap[p]))
    requires 0 < |name| <= MAX_NAME_LENGTH && '\0' !in name && '/' !in name && name != "root"
    requires forall i :: 0 <= i < |t.files| && t.fileMap[i] && t.files[i].parent == p ==> t.files[i].name != name
    requires forall i :: 0 <= i < |t.folderMap| && t.folderMap[i] && t.folders[i].parent == p ==>
               t.folders[i].name != name
    ensures NameStatus(t, p, name) == Success
    ensures CreateFolderStatus(t, p, name) == if false in t.folderMap && -1 in t.folders[p].subFolders then Success
                                              else NoSpace
    ensures |name| < MAX_NAME_LENGTH ==>
              CreateFileStatus(t, p, name) == if false in t.fileMap && -1 in t.folders[p].subFiles then Success
                                              else NoSpace
    ensures forall n :: Live(t, n) && ParentOf(t, n) == p ==> NameStatus(t, ParentOf(t, n), name) == Success
  {
    NameAnswers(t, p, name);
    FolderAnswers(t, p);
    CStringOfText(name);
    hide NameStatus, FolderStatus;
  }

  lemma NameCodes(t: Tree, p: int, name: string)
    ensures NameStatus(t, p, name) in {Success, DataOverFlow, InsufficientArrayPassed, InvalidCharacterInIdentifier,
                                       IdentifierNotAvailable}
  {
  }

  /** vfs_sub_folder_init in a live folder. */
  lemma CreateFolderAnswers(t: Tree, p: int, name: string)
    requires Shape(t) && (p == VFS_MAX_FOLDERS_AMOUNT || (0 <= p < VFS_MAX_FOLDERS_AMOUNT && t.folderMap[p]))
    ensures var status, verdict := CreateFolderStatus(t, p, name), NameStatus(t, p, name);
            && (status == Success <==> false in t.folderMap && verdict == Success && -1 in t.folders[p].subFolders)
            && (status == NoSpace <==>
                 false !in t.folderMap || (verdict == Success && -1 !in t.folders[p].subFolders))
            && (status !in {Success, NoSpace} ==> status == verdict)
  {
    FolderAnswers(t, p);
    NameCodes(t, p, name);
    hide NameStatus, FolderStatus;
  }

  /** vfs_sub_file_init in a live folder. The name counts up to its first terminator, but for its length. */
  lemma CreateFileAnswers(t: Tree, p: int, name: seq<char>)
    requires Shape(t) && (p == VFS_MAX_FOLDERS_AMOUNT || (0 <= p < VFS_MAX_FOLDERS_AMOUNT && t.folderMap[p]))
    ensures var status, verdict := CreateFileStatus(t, p, name), NameStatus(t, p, CString(name));
            && (status == Success <==>
                 && false in t.fileMap && |name| < MAX_NAME_LENGTH && verdict == Success
                 && -1 in t.folders[p].subFiles)
            && (status == NoSpace <==>
                 || false !in t.fileMap
                 || (|name| < MAX_NAME_LENGTH && verdict == Success && -1 !in t.folders[p].subFiles))
            && (status !in {Success, NoSpace} ==>
                 status == if |name| < MAX_NAME_LENGTH then verdict else InsufficientArrayPassed)
  {
    FolderAnswers(t, p);
    NameCodes(t, p, CString(name));
    hide NameStatus, FolderStatus, CString;
  }

  /** A creation in a folder that is none fails as the check of that folder does. */
  lemma CreateNowhere(t: Tree, p: int, name: string)
    requires Shape(t) && p != VFS_MAX_FOLDERS_AMOUNT && !(0 <= p < VFS_MAX_FOLDERS_AMOUNT && t.folderMap[p])
    ensures CreateFolderStatus(t, p, name) == CreateFileStatus(t, p, name) ==
            if 0 <= p < VFS_MAX_FOLDERS_AMOUNT then UninitialisedEntry else UnknownEntry
  {
    FolderAnswers(t, p);
  }

  // ---- Deleting ----------------------------------------------------------------------

  /** delete_vfs_file on record f of the store. */
  lemma DeleteFileAnswers(t: Tree, f: nat)
    requires Valid(t) && f < VFS_MAX_FILES_AMOUNT
    ensures |t.files| == |t.fileMap| == VFS_MAX_FILES_AMOUNT
    ensures DeleteFileStatus(t, Stored(f)) == Success <==> t.fileMap[f]
    ensures !t.fileMap[f] ==>
              var p := t.files[f].parent;
              DeleteFileStatus(t, Stored(f)) ==
              if p == VFS_MAX_FOLDERS_AMOUNT || (0 <= p < VFS_MAX_FOLDERS_AMOUNT && t.folderMap[p])
              then SearchTargetNotFound
              else if 0 <= p < VFS_MAX_FOLDERS_AMOUNT then UninitialisedEntry else UnknownEntry
    ensures forall p :: DeleteFileStatus(t, Foreign(p)) ==
              if 0 <= p < VFS_MAX_FOLDERS_AMOUNT && !t.folderMap[p] then UninitialisedEntry else UnknownEntry
  {
    forall p ensures DeleteFileStatus(t, Foreign(p)) ==
                     if 0 <= p < VFS_MAX_FOLDERS_AMOUNT && !t.folderMap[p] then UninitialisedEntry else UnknownEntry
    {
      FolderAnswers(t, p);
    }
    FolderAnswers(t, t.files[f].parent);
    LiveFileDeletes(t, Stored(f));
    hide FolderStatus;
  }

  lemma SlotsOfRecord(t: Tree, d: int)
    requires Valid(t) && LiveFolder(t, d)
    ensures 0 <= d < |t.folders|
    ensures |t.folders[d].subFiles| == MAX_SUB_FILES_AMOUNT && |t.folders[d].subFolders| == MAX_SUB_FOLDERS_AMOUNT
    ensures Childless(t, d) <==>
              && (forall i :: 0 <= i < MAX_SUB_FILES_AMOUNT ==> t.folders[d].subFiles[i] == -1)
              && forall i :: 0 <= i < MAX_SUB_FOLDERS_AMOUNT ==> t.folders[d].subFolders[i] == -1
  {
    LiveFolderInRange(t, d);
    SlotAmounts(t, d);
    ChildrenAreSlots(t, d);
    hide Valid, Childless;
  }

  lemma SuccessOnLive(t: Tree, d: int)
    requires Valid(t) && LiveFolder(t, d)
    ensures FolderStatus(t, d) == Success
  {
  }

  /** delete_vfs_folder on a live folder: by its slots, and by the paths below it. */
  lemma DeleteFolderAnswers(t: Tree, d: int, force: bool)
    requires Valid(t) && LiveFolder(t, d)
    ensures 0 <= d < |t.folders|
    ensures |t.folders[d].subFiles| == MAX_SUB_FILES_AMOUNT && |t.folders[d].subFolders| == MAX_SUB_FOLDERS_AMOUNT
    ensures var status := DeleteFolderStatus(t, d, force);
            var empty :=
              && (forall i :: 0 <= i < MAX_SUB_FILES_AMOUNT ==> t.folders[d].subFiles[i] == -1)
              && (forall i :: 0 <= i < MAX_SUB_FOLDERS_AMOUNT ==> t.folders[d].subFolders[i] == -1);
            var deep := exists x :: && LiveFolder(t, x) && FolderPath(t, d) <= FolderPath(t, x)
                                    && |FolderPath(t, x)| - |FolderPath(t, d)| > MAX_PATH_NODES_AMOUNT;
            && (status == Success <==> d != VFS_MAX_FOLDERS_AMOUNT && (empty || (force && !deep)))
            && (status == InvalidRootOperation <==> d == VFS_MAX_FOLDERS_AMOUNT && (empty || (force && !deep)))
            && (status == AttemptedToDeleteFolderWithSubEntries <==> !empty && !force)
            && (status == RecursiveOperationLimitExceeded <==> !empty && force && deep)
  {
    SlotsOfRecord(t, d);
    SuccessOnLive(t, d);
    TooDeepIsLongPath(t, d, 0);
    hide Valid, FolderStatus, Childless, TooDeep, LiveFolder, FolderPath;
  }

  // ---- Moving ------------------------------------------------------------------------

  /** move_file of a live file to a live folder. */
  lemma MoveFileAnswers(t: Tree, f: int, p: int)
    requires Valid(t) && Live(t, FileNode(f)) && LiveFolder(t, p)
    ensures 0 <= f < |t.files| && 0 <= p < |t.folders|
    ensures var status, verdict := MoveFileStatus(t, f, p), NameStatus(t, p, t.files[f].name);
            && (status == Success <==> verdict == Success && -1 in t.folders[p].subFiles)
            && (status == NoSpace <==> verdict == Success && -1 !in t.folders[p].subFiles)
            && (verdict != Success ==> status == verdict)
  {
    SlotsOfRecord(t, p);
    NameAnswers(t, p, t.files[f].name);
    hide NameStatus, Valid;
  }

  /** A folder lies within another exactly when the path of the other begins its own. */
  lemma BelowIsPrefix(t: Tree, d: int, p: int)
    requires Valid(t) && Live(t, FolderNode(d)) && LiveFolder(t, d) && LiveFolder(t, p)
    ensures Below(t, d, p) <==> FolderPath(t, d) <= FolderPath(t, p)
  {
    hide *;
    RootPath(t);
    FolderOfEntry(t, d);
    if FolderPath(t, d) <= FolderPath(t, p) {
      FolderPathLength(t, d);
      FolderPathLength(t, p);
      var x := FolderOfPrefix(t, p, |FolderPath(t, d)|);
      assert FolderPath(t, x) == FolderPath(t, p)[..|FolderPath(t, d)|] == FolderPath(t, d);
      OneFolderPath(t, x, d);
      BelowBy(t, d, p, Depth(t, p) - |FolderPath(t, d)|);
    }
    PrefixIfBelow(t, d, p);
  }

  lemma BelowBy(t: Tree, d: int, p: int, k: nat)
    requires Up(t, p, k) == d
    ensures Below(t, d, p)
  {
  }

  lemma PrefixIfBelow(t: Tree, d: int, p: int)
    requires Valid(t) && LiveFolder(t, d) && LiveFolder(t, p)
    ensures Below(t, d, p) ==> FolderPath(t, d) <= FolderPath(t, p)
  {
    if Below(t, d, p) {
      var k: nat :| Up(t, p, k) == d;
      PathThroughFolder(t, p, d, k);
    }
  }

  lemma SearchIsShort(t: Tree, p: int, d: int)
    requires Valid(t) && LiveFolder(t, d) && LiveFolder(t, p)
    ensures WithinSearch(t, p, d, 0) ==> |FolderPath(t, p)| - |FolderPath(t, d)| < MAX_PATH_NODES_AMOUNT
  {
    if WithinSearch(t, p, d, 0) {
      var k: nat :| Up(t, p, k) == d && 0 + k < MAX_FOLDER_DEPTH;
      PathThroughFolder(t, p, d, k);
    }
  }

  /** move_folder of a live folder to a live folder: by the slots of the target, and by paths. Of the two problems that
      the search for cycles may meet it reports one that is there, a cycle only where the target is near enough. */
  lemma MoveFolderAnswers(t: Tree, d: int, p: int)
    requires Valid(t) && Live(t, FolderNode(d)) && LiveFolder(t, d) && LiveFolder(t, p)
    ensures 0 <= d < |t.folders| && 0 <= p < |t.folders|
    ensures var status, verdict := MoveFolderStatus(t, d, p), NameStatus(t, p, t.folders[d].name);
            var inside := FolderPath(t, d) <= FolderPath(t, p);
            var deep := exists x :: && LiveFolder(t, x) && FolderPath(t, d) <= FolderPath(t, x)
                                    && 1 + |FolderPath(t, x)| - |FolderPath(t, d)| > MAX_PATH_NODES_AMOUNT;
            && (status == Success <==> verdict == Success && !inside && !deep && -1 in t.folders[p].subFolders)
            && (status == NoSpace <==> verdict == Success && !inside && !deep && -1 !in t.folders[p].subFolders)
            && (verdict != Success ==> status == verdict)
            && (verdict == Success && (inside || deep) ==>
                 status in {AttemptedToEnforceCyclicRelation, RecursiveOperationLimitExceeded})
            && (status == AttemptedToEnforceCyclicRelation ==>
                 inside && |FolderPath(t, p)| - |FolderPath(t, d)| < MAX_PATH_NODES_AMOUNT)
            && (status == RecursiveOperationLimitExceeded ==> deep)
  {
    hide *;
    SlotsOfRecord(t, d);
    SlotsOfRecord(t, p);
    CycleAnswers(t, p, d, 0);
    BelowIsPrefix(t, d, p);
    TooDeepIsLongPath(t, d, 1);
    SearchIsShort(t, p, d);
    LimitIsPositive();
    MoveFolderIs(t, d, p);
    NameCodes(t, p, t.folders[d].name);
  }

  lemma LimitIsPositive()
    ensures 0 <= MAX_FOLDER_DEPTH
  {
  }

  lemma MoveFolderIs(t: Tree, d: int, p: int)
    requires 0 <= d < |t.folders| && 0 <= p < |t.folders|
    ensures var verdict, cycle := NameStatus(t, p, t.folders[d].name), CycleStatus(t, p, d, 0);
            MoveFolderStatus(t, d, p) ==
            if verdict != Success then verdict
            else if cycle != Success then cycle
            else if -1 in t.folders[p].subFolders then Success else NoSpace
  {
    hide NameStatus, CycleStatus;
  }
}
