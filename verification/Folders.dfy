/** Names, slots and links of folders (system/folders.c). */
module Folders {
  import opened Settings
  import opened EntryTree
  import opened TreeSteps
  import opened TreeUpdates
  import opened Subtrees
  import opened Entries

  // ---- Slot searches -----------------------------------------------------------------

  /** The first position of v in slots, |slots| when there is none. */
  ghost function IndexIn(slots: seq<int>, v: int): (i: nat)
    ensures i <= |slots|
    ensures forall j :: 0 <= j < i ==> slots[j] != v
    ensures i < |slots| ==> slots[i] == v
  {
    if slots == [] || slots[0] == v then 0 else 1 + IndexIn(slots[1..], v)
  }

  /** get_available_sub_file_position and get_available_sub_folder_position */
  method GetAvailablePosition(slots: seq<int>) returns (status: Status, index: nat)
    ensures status == if NULL in slots then Success else NoSpace
    ensures status == Success ==> Vacant(slots, index) && index == IndexIn(slots, NULL)
  {
    for i := 0 to |slots|
      invariant forall j :: 0 <= j < i ==> slots[j] != NULL
    {
      if slots[i] == NULL {
        return Success, i;
      }
    }
    return NoSpace, |slots|;
  }

  /** find_sub_file_index and find_sub_folder_index */
  method FindIndex(slots: seq<int>, v: int) returns (status: Status, index: nat)
    ensures status == if v in slots then Success else SearchTargetNotFound
    ensures status == Success ==> index == IndexIn(slots, v) < |slots|
  {
    for i := 0 to |slots|
      invariant forall j :: 0 <= j < i ==> slots[j] != v
    {
      if slots[i] == v {
        return Success, i;
      }
    }
    return SearchTargetNotFound, |slots|;
  }

  lemma IndexIsSlot(t: Tree, n: Node)
    requires Valid(t) && Live(t, n)
    ensures n.index in Slots(t, ParentOf(t, n), n) && IndexIn(Slots(t, ParentOf(t, n), n), n.index) == SlotOf(t, n)
  {
    assert Slots(t, ParentOf(t, n), n)[SlotOf(t, n)] == n.index;
  }

  // ---- Names -------------------------------------------------------------------------

  /** The verdict on name for a child of p. */
  ghost function NameStatus(t: Tree, p: int, name: string): Status {
    if |name| > MAX_NAME_LENGTH then DataOverFlow
    else if |name| == 0 then InsufficientArrayPassed
    else if !CharsValid(name) then InvalidCharacterInIdentifier
    else if name == ROOT_NAME || !Unused(t, p, name) then IdentifierNotAvailable
    else Success
  }

  /** A name passes exactly when it is valid and free among files and folders alike. */
  lemma NameStatusIsNameFree(t: Tree, p: int, name: string)
    ensures NameStatus(t, p, name) == Success <==> NameFree(t, p, name)
  {
  }

  /** The answers of the name check, read off the records of the store. Every character but '\0' and '/' is fine. */
  lemma NameAnswers(t: Tree, p: int, name: string)
    requires Shape(t)
    ensures var status := NameStatus(t, p, name);
            var taken :=
              || name == "root"
              || (exists i :: 0 <= i < |t.files| && t.fileMap[i] && t.files[i] == FileEntry(name, p))
              || (exists i :: 0 <= i < |t.folderMap| && t.folderMap[i]
                              && t.folders[i].parent == p && t.folders[i].name == name);
            && (status == Success <==> 0 < |name| <= MAX_NAME_LENGTH && '\0' !in name && '/' !in name && !taken)
            && (status == DataOverFlow <==> |name| > MAX_NAME_LENGTH)
            && (status == InsufficientArrayPassed <==> |name| == 0)
            && (status == InvalidCharacterInIdentifier <==>
                 0 < |name| <= MAX_NAME_LENGTH && ('\0' in name || '/' in name))
            && (status == IdentifierNotAvailable <==>
                 0 < |name| <= MAX_NAME_LENGTH && '\0' !in name && '/' !in name && taken)
  {
    if !Unused(t, p, name) {
      var m :| Live(t, m) && ParentOf(t, m) == p && NameOf(t, m) == name;
      if m.FileNode? {
        assert t.fileMap[m.index] && t.files[m.index] == FileEntry(name, p);
      } else {
        assert t.folderMap[m.index] && t.folders[m.index].parent == p && t.folders[m.index].name == name;
      }
    } else {
      forall i | 0 <= i < |t.files| && t.fileMap[i] ensures t.files[i] != FileEntry(name, p) {
        assert Live(t, FileNode(i));
      }
      forall i | 0 <= i < |t.folderMap| && t.folderMap[i] && t.folders[i].parent == p
        ensures t.folders[i].name != name
      {
        assert Live(t, FolderNode(i));
      }
    }
  }

  /** name_chars_are_valid */
  method NameCharsAreValid(name: string) returns (valid: bool)
    ensures valid <==> CharsValid(name)
  {
    for i := 0 to |name|
      invariant CharsValid(name[..i])
    {
      if name[i] == NUL || name[i] == PATH_DELIMITER { return false; }
    }
    assert name[..|name|] == name;
    return true;
  }

  /** The children of p of the kind of m in its first i slots have other names than name. */
  ghost predicate Checked(t: Tree, p: int, m: Node, name: string, i: nat)
    requires i <= |Slots(t, p, m)|
  {
    forall j :: 0 <= j < i && Slots(t, p, m)[j] != NULL ==> NameOf(t, SameKindNode(m, Slots(t, p, m)[j])) != name
  }

  lemma SlotIsChild(t: Tree, p: int, m: Node, j: nat)
    requires Valid(t) && LiveFolder(t, p) && j < |Slots(t, p, m)| && Slots(t, p, m)[j] != NULL
    ensures var n := SameKindNode(m, Slots(t, p, m)[j]);
            && Live(t, n) && ParentOf(t, n) == p && Shape(t) && InStore(t, n) && CharsValid(NameOf(t, n))
  {
    var n := SameKindNode(m, Slots(t, p, m)[j]);
    assert Slots(t, p, n) == Slots(t, p, m);
    assert HasSlot(t, p, n);
  }

  lemma AllChecked(t: Tree, p: int, name: string)
    requires Valid(t) && LiveFolder(t, p)
    requires Checked(t, p, FileNode(0), name, |Slots(t, p, FileNode(0))|)
    requires Checked(t, p, FolderNode(0), name, |Slots(t, p, FolderNode(0))|)
    ensures Unused(t, p, name)
  {
    forall m | Live(t, m) && ParentOf(t, m) == p ensures NameOf(t, m) != name {
      assert HasSlot(t, p, m);
      var slots := Slots(t, p, m);
      var j :| 0 <= j < |slots| && slots[j] == m.index;
      if m.FileNode? {
        assert slots == Slots(t, p, FileNode(0)) && SameKindNode(FileNode(0), slots[j]) == m;
      } else {
        assert slots == Slots(t, p, FolderNode(0)) && SameKindNode(FolderNode(0), slots[j]) == m;
      }
    }
  }

  lemma ClashFound(t: Tree, p: int, m: Node, j: nat, name: string)
    requires Valid(t) && LiveFolder(t, p) && j < |Slots(t, p, m)| && Slots(t, p, m)[j] != NULL
    requires NameOf(t, SameKindNode(m, Slots(t, p, m)[j])) == name
    ensures !Unused(t, p, name)
  {
    SlotIsChild(t, p, m, j);
  }

  /** sub_entry_name_is_unique: looks through the files of p, then through its folders. */
  method SubEntryNameIsUnique(s: VFSEntryStore, p: int, name: string) returns (unique: bool)
    requires s.Valid() && LiveFolder(s.View(), p) && name != [] && NUL !in name
    ensures unique <==> Unused(s.View(), p, name)
  {
    hide EntryTree.Valid, Unused;
    ghost var t := s.View();
    CStringOfText(name);
    LiveFolderInRange(t, p);
    for i := 0 to MAX_SUB_FILES_AMOUNT
      invariant Checked(t, p, FileNode(0), name, i)
    {
      if s.folders[p].subFiles[i] == NULL { continue; }
      SlotIsChild(t, p, FileNode(0), i);
      var status, equal := NameEq(s.files[s.folders[p].subFiles[i]].name, name);
      if equal {
        ClashFound(t, p, FileNode(0), i, name);
        return false;
      }
    }
    for i := 0 to MAX_SUB_FOLDERS_AMOUNT
      invariant Checked(t, p, FolderNode(0), name, i)
    {
      if s.folders[p].subFolders[i] == NULL { continue; }
      SlotIsChild(t, p, FolderNode(0), i);
      var status, equal := NameEq(s.folders[s.folders[p].subFolders[i]].name, name);
      if equal {
        ClashFound(t, p, FolderNode(0), i, name);
        return false;
      }
    }
    AllChecked(t, p, name);
    return true;
  }

  /** validate_sub_entry_name */
  method ValidateSubEntryName(s: VFSEntryStore, p: int, name: string) returns (status: Status)
    requires s.Valid() && LiveFolder(s.View(), p)
    ensures status == NameStatus(s.View(), p, name)
  {
    if |name| > MAX_NAME_LENGTH { return DataOverFlow; }
    if |name| == 0 { return InsufficientArrayPassed; }
    var valid := NameCharsAreValid(name);
    if !valid { return InvalidCharacterInIdentifier; }
    if |name| == |ROOT_NAME| {
      if name == ROOT_NAME { return IdentifierNotAvailable; }
    }
    var unique := SubEntryNameIsUnique(s, p, name);
    if !unique { return IdentifierNotAvailable; }
    return Success;
  }

  /** set_entry_name: copies name up to its end or its first terminator. */
  method SetEntryName(name: seq<char>) returns (text: string)
    ensures text == CString(name)
  {
    text := [];
    for i := 0 to |name|
      invariant text == name[..i] && NUL !in name[..i]
    {
      if name[i] == NUL {
        CStringIs(name, i);
        return;
      }
      text := text + [name[i]];
    }
    CStringIs(name, |name|);
  }

  // ---- Links -------------------------------------------------------------------------

  lemma ChildrenAreSlots(t: Tree, d: int)
    requires Valid(t) && LiveFolder(t, d)
    ensures Childless(t, d) <==> AllVacant(Slots(t, d, FileNode(0))) && AllVacant(Slots(t, d, FolderNode(0)))
  {
    if Childless(t, d) {
      forall m: Node, j: nat | j < |Slots(t, d, m)| ensures Slots(t, d, m)[j] == NULL {
        if Slots(t, d, m)[j] != NULL { SlotIsChild(t, d, m, j); }
      }
    }
    if AllVacant(Slots(t, d, FileNode(0))) && AllVacant(Slots(t, d, FolderNode(0))) {
      forall m | Live(t, m) ensures ParentOf(t, m) != d {
        assert Slots(t, d, m) == Slots(t, d, if m.FileNode? then FileNode(0) else FolderNode(0));
        assert HasSlot(t, d, m) <==> ParentOf(t, m) == d;
      }
    }
  }

  /** has_sub_entries */
  method HasSubEntries(s: VFSEntryStore, d: int) returns (has: bool)
    requires s.Valid() && LiveFolder(s.View(), d)
    ensures has <==> !Childless(s.View(), d)
  {
    ghost var t := s.View();
    LiveFolderInRange(t, d);
    ChildrenAreSlots(t, d);
    hide EntryTree.Valid, Childless;
    for i := 0 to MAX_SUB_FILES_AMOUNT
      invariant forall j :: 0 <= j < i ==> s.folders[d].subFiles[j] == NULL
    {
      if s.folders[d].subFiles[i] != NULL { return true; }
    }
    for i := 0 to MAX_SUB_FOLDERS_AMOUNT
      invariant forall j :: 0 <= j < i ==> s.folders[d].subFolders[j] == NULL
    {
      if s.folders[d].subFolders[i] != NULL { return true; }
    }
    return false;
  }

  /** Slot i of folder p cleared and the parent link of its child d cut. */
  ghost function Cut(folders: seq<Folder>, p: int, d: int, i: nat): seq<Folder>
    requires 0 <= p < |folders| && 0 <= d < |folders| && i < |folders[p].subFolders|
  {
    var folders' := folders[p := folders[p].(subFolders := folders[p].subFolders[i := NULL])];
    folders'[d := folders'[d].(parent := NULL)]
  }

  lemma UnlinkedFolderIs(t: Tree, d: int)
    requires Valid(t) && Live(t, FolderNode(d))
    ensures 0 <= d < |t.folders| && 0 <= t.folders[d].parent < |t.folders|
    ensures var p := t.folders[d].parent; var slots := t.folders[p].subFolders; var i := IndexIn(slots, d);
            d in slots && i < |slots| && Unlinked(t, FolderNode(d)) == t.(folders := Cut(t.folders, p, d, i))
  {
    LiveEntry(t, FolderNode(d));
    IndexIsSlot(t, FolderNode(d));
    hide Valid, SlotOf;
  }

  /** The assignments of unlink_sub_folder. */
  method CutFolder(s: VFSEntryStore, p: int, d: int, i: nat)
    requires s.Wired() && 0 <= p < s.folders.Length && 0 <= d < s.folders.Length && i < MAX_SUB_FOLDERS_AMOUNT
    modifies s.folders
    ensures s.Wired() && |old(s.View()).folders| == s.folders.Length && i < |old(s.View()).folders[p].subFolders|
    ensures s.View() == old(s.View()).(folders := Cut(old(s.View()).folders, p, d, i))
  {
    ghost var t := s.View();
    s.folders[p] := s.folders[p].(subFolders := s.folders[p].subFolders[i := NULL]);
    s.folders[d] := s.folders[d].(parent := NULL);
    assert s.View().folders == Cut(t.folders, p, d, i);
  }

  lemma FoldersInArray(s: VFSEntryStore, d: int)
    requires s.Valid() && LiveFolder(s.View(), d)
    ensures s.Wired() && s.View().folders == s.folders[..]
    ensures 0 <= d < s.folders.Length && (s.folders[d].isRoot <==> d == ROOT)
    ensures d != ROOT ==> Live(s.View(), FolderNode(d))
    ensures forall p :: 0 <= p < s.folders.Length ==> |s.folders[p].subFolders| == MAX_SUB_FOLDERS_AMOUNT
  {
    LiveFolderInRange(s.View(), d);
    assert IsRoot(s.View(), d) <==> d == ROOT;
  }

  /** Slot i of folder p cleared, and the parent link of file f cut. */
  ghost function CutFromTree(t: Tree, p: int, f: int, i: nat): Tree
    requires 0 <= p < |t.folders| && 0 <= f < |t.files| && i < |t.folders[p].subFiles|
  {
    t.(folders := t.folders[p := t.folders[p].(subFiles := t.folders[p].subFiles[i := NULL])],
       files := t.files[f := t.files[f].(parent := NULL)])
  }

  lemma UnlinkedFileIs(t: Tree, f: int)
    requires Valid(t) && Live(t, FileNode(f))
    ensures 0 <= f < |t.files| && 0 <= t.files[f].parent < |t.folders|
    ensures var p := t.files[f].parent; var slots := t.folders[p].subFiles; var i := IndexIn(slots, f);
            f in slots && i < |slots| && Unlinked(t, FileNode(f)) == CutFromTree(t, p, f, i)
  {
    LiveEntry(t, FileNode(f));
    IndexIsSlot(t, FileNode(f));
    hide Valid, SlotOf;
  }

  lemma DeadFileHasNoSlot(t: Tree, f: int)
    requires Valid(t) && 0 <= f < VFS_MAX_FILES_AMOUNT && !Live(t, FileNode(f))
    requires LiveFolder(t, ParentOf(t, FileNode(f)))
    ensures f < |t.files| && 0 <= t.files[f].parent < |t.folders| && f !in t.folders[t.files[f].parent].subFiles
  {
    LiveFolderInRange(t, ParentOf(t, FileNode(f)));
    assert !HasSlot(t, ParentOf(t, FileNode(f)), FileNode(f));
  }

  /** The assignments of unlink_sub_file. */
  method CutFile(s: VFSEntryStore, p: int, f: int, i: nat)
    requires s.Wired() && 0 <= p < s.folders.Length && 0 <= f < s.files.Length && i < MAX_SUB_FILES_AMOUNT
    modifies s.files, s.folders
    ensures s.Wired() && |old(s.View()).folders| == s.folders.Length && |old(s.View()).files| == s.files.Length
    ensures i < |old(s.View()).folders[p].subFiles| && s.View() == CutFromTree(old(s.View()), p, f, i)
  {
    ghost var t := s.View();
    s.folders[p] := s.folders[p].(subFiles := s.folders[p].subFiles[i := NULL]);
    s.files[f] := s.files[f].(parent := NULL);
    assert s.View() == CutFromTree(t, p, f, i);
  }

  lemma FilesInArray(s: VFSEntryStore, f: int)
    requires s.Valid() && 0 <= f < VFS_MAX_FILES_AMOUNT
    ensures s.Wired() && Valid(s.View()) && f < s.files.Length && |s.View().files| == s.files.Length
    ensures s.View().files[f] == s.files[f] && ParentOf(s.View(), FileNode(f)) == s.files[f].parent
    ensures |s.View().folders| == s.folders.Length
    ensures Live(s.View(), FileNode(f)) ==> LiveFolder(s.View(), s.files[f].parent)
    ensures forall p :: LiveFolder(s.View(), p) ==>
              && 0 <= p < s.folders.Length && s.View().folders[p] == s.folders[p]
              && |s.folders[p].subFiles| == MAX_SUB_FILES_AMOUNT
    ensures !LiveFolder(s.View(), NULL)
  {
    if Live(s.View(), FileNode(f)) { LiveEntry(s.View(), FileNode(f)); }
    forall p | LiveFolder(s.View(), p) ensures 0 <= p < s.folders.Length { LiveFolderInRange(s.View(), p); }
  }

  /** unlink_sub_file. A file that is not live is in no slot of the folder its parent link names. */
  method UnlinkSubFile(s: VFSEntryStore, f: int) returns (status: Status)
    requires s.Valid() && 0 <= f < VFS_MAX_FILES_AMOUNT
    requires var p := ParentOf(s.View(), FileNode(f)); p == NULL || LiveFolder(s.View(), p)
    modifies s.files, s.folders
    ensures s.Wired()
    ensures status == if old(Live(s.View(), FileNode(f))) then Success
                      else if old(ParentOf(s.View(), FileNode(f))) == NULL then NullPointerPassed
                      else SearchTargetNotFound
    ensures s.View() == if status == Success then old(Unlinked(s.View(), FileNode(f))) else old(s.View())
  {
    hide *;
    ghost var t, n := s.View(), FileNode(f);
    FilesInArray(s, f);
    var p := s.files[f].parent;
    if p == NULL { return NullPointerPassed; }
    if Live(t, n) { UnlinkedFileIs(t, f); } else { DeadFileHasNoSlot(t, f); }
    var i;
    status, i := FindIndex(s.folders[p].subFiles, f);
    if status != Success { return status; }
    CutFile(s, p, f, i);
    return Success;
  }

  /** unlink_sub_folder */
  method UnlinkSubFolder(s: VFSEntryStore, d: int, force: bool) returns (status: Status)
    requires s.Valid() && LiveFolder(s.View(), d)
    modifies s.folders
    ensures s.Wired()
    ensures status == (if d == ROOT then InvalidRootOperation
                       else if !old(Childless(s.View(), d)) && !force then AttemptedToDeleteFolderWithSubEntries
                       else Success)
    ensures status != Success ==> s.View() == old(s.View())
    ensures status == Success ==>
              Live(old(s.View()), FolderNode(d)) && s.View() == old(Unlinked(s.View(), FolderNode(d)))
  {
    FoldersInArray(s, d);
    hide *;
    if s.folders[d].isRoot { return InvalidRootOperation; }
    UnlinkedFolderIs(s.View(), d);
    var has := HasSubEntries(s, d);
    if has && !force { return AttemptedToDeleteFolderWithSubEntries; }
    var p := s.folders[d].parent;
    var i;
    status, i := FindIndex(s.folders[p].subFolders, d);
    if status != Success { return status; }
    CutFolder(s, p, d, i);
    return Success;
  }

  // ---- What folders hold -------------------------------------------------------------

  lemma SlotsInArray(s: VFSEntryStore, d: int)
    requires s.Wired() && Valid(s.View()) && LiveFolder(s.View(), d)
    ensures 0 <= d < s.folders.Length
    ensures |s.folders[d].subFiles| == MAX_SUB_FILES_AMOUNT && Slots(s.View(), d, FileNode(0)) == s.folders[d].subFiles
    ensures |s.folders[d].subFolders| == MAX_SUB_FOLDERS_AMOUNT
    ensures Slots(s.View(), d, FolderNode(0)) == s.folders[d].subFolders
  {
    LiveFolderInRange(s.View(), d);
  }

  lemma FolderInSlot(t: Tree, d: int, i: nat)
    requires Valid(t) && LiveFolder(t, d) && i < |Slots(t, d, FolderNode(0))| && Slots(t, d, FolderNode(0))[i] != NULL
    ensures var c := Slots(t, d, FolderNode(0))[i];
            && Live(t, FolderNode(c)) && ParentOf(t, FolderNode(c)) == d && LiveFolder(t, c)
            && c != ROOT && InSubtree(t, c, FolderNode(c))
  {
    SlotIsChild(t, d, FolderNode(0), i);
    ChildIsFolder(t, Slots(t, d, FolderNode(0))[i]);
  }

  lemma FileInSlot(t: Tree, d: int, i: nat)
    requires Valid(t) && LiveFolder(t, d) && i < |Slots(t, d, FileNode(0))| && Slots(t, d, FileNode(0))[i] != NULL
    ensures var f := Slots(t, d, FileNode(0))[i];
            0 <= f < VFS_MAX_FILES_AMOUNT && Live(t, FileNode(f)) && ParentOf(t, FileNode(f)) == d
  {
    SlotIsChild(t, d, FileNode(0), i);
  }

  lemma SlotsOfKind(t: Tree, p: int, i: nat)
    ensures Slots(t, p, FileNode(i)) == Slots(t, p, FileNode(0))
  {
  }

  lemma ValidNameIsText(t: Tree, p: int, name: string)
    requires NameStatus(t, p, name) == Success
    ensures CString(name) == name
  {
    CStringOfText(name);
  }
}
