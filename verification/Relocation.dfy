/** Renaming and moving entries (system/entry_relocation.c). */
module Relocation {
  import opened Settings
  import opened EntryTree
  import opened TreeSteps
  import opened TreeUpdates
  import opened Subtrees
  import opened Entries
  import opened Folders

  // ---- Renaming ----------------------------------------------------------------------

  lemma FileNameInArray(s: VFSEntryStore, f: int)
    requires s.Valid() && Live(s.View(), FileNode(f))
    ensures s.Wired() && Valid(s.View()) && 0 <= f < s.files.Length && InStore(s.View(), FileNode(f))
    ensures ParentOf(s.View(), FileNode(f)) == s.files[f].parent && NameOf(s.View(), FileNode(f)) == s.files[f].name
    ensures LiveFolder(s.View(), s.files[f].parent)
  {
    LiveEntry(s.View(), FileNode(f));
  }

  lemma FolderNameInArray(s: VFSEntryStore, d: int)
    requires s.Valid() && LiveFolder(s.View(), d)
    ensures s.Wired() && Valid(s.View()) && 0 <= d < s.folders.Length && (s.folders[d].isRoot <==> d == ROOT)
    ensures ParentOf(s.View(), FolderNode(d)) == s.folders[d].parent
    ensures NameOf(s.View(), FolderNode(d)) == s.folders[d].name
    ensures d != ROOT ==>
              && Live(s.View(), FolderNode(d)) && InStore(s.View(), FolderNode(d))
              && LiveFolder(s.View(), s.folders[d].parent)
  {
    LiveFolderInRange(s.View(), d);
    assert IsRoot(s.View(), d) <==> d == ROOT;
    if d != ROOT { LiveEntry(s.View(), FolderNode(d)); }
  }

  method WriteFileName(s: VFSEntryStore, f: int, name: string)
    requires s.Wired() && InStore(s.View(), FileNode(f))
    modifies s.files
    ensures s.Wired() && InStore(old(s.View()), FileNode(f)) && s.View() == PutName(old(s.View()), FileNode(f), name)
  {
    ghost var t := s.View();
    s.files[f] := s.files[f].(name := name);
    assert s.View() == PutName(t, FileNode(f), name);
  }

  method WriteFolderName(s: VFSEntryStore, d: int, name: string)
    requires s.Wired() && InStore(s.View(), FolderNode(d))
    modifies s.folders
    ensures s.Wired() && InStore(old(s.View()), FolderNode(d))
    ensures s.View() == PutName(old(s.View()), FolderNode(d), name)
  {
    ghost var t := s.View();
    s.folders[d] := s.folders[d].(name := name);
    assert s.View() == PutName(t, FolderNode(d), name);
  }

  lemma StoreFromParts(s: VFSEntryStore)
    requires s.Wired() && Valid(s.View())
    ensures s.Valid()
  {
  }

  lemma NameOfLength(t: Tree, p: int, name: string)
    requires NameStatus(t, p, name) == Success
    ensures |name| <= MAX_NAME_LENGTH && NameFree(t, p, name) && CString(name) == name
  {
    ValidNameIsText(t, p, name);
  }

  /** rename_file. The name buffer of a file holds one character less than validate_sub_entry_name lets through, so a
      name of exactly MAX_NAME_LENGTH must not be passed where it would be accepted. */
  method RenameFile(s: VFSEntryStore, f: int, name: string) returns (status: Status)
    requires s.Valid() && Live(s.View(), FileNode(f))
    requires |name| == MAX_NAME_LENGTH ==> NameStatus(s.View(), ParentOf(s.View(), FileNode(f)), name) != Success
    modifies s.files
    ensures s.Valid()
    ensures status == NameStatus(old(s.View()), ParentOf(old(s.View()), FileNode(f)), name)
    ensures status != Success ==> s.View() == old(s.View())
    ensures status == Success ==> Renamed(old(s.View()), s.View(), FileNode(f), name)
  {
    hide *;
    ghost var t, n := s.View(), FileNode(f);
    FileNameInArray(s, f);
    status := ValidateSubEntryName(s, s.files[f].parent, name);
    if status != Success { return status; }
    NameOfLength(t, ParentOf(t, n), name);
    RenamedBy(t, n, name);
    var text := SetEntryName(name);
    WriteFileName(s, f, text);
    RenamedValid(t, s.View(), n, name);
    StoreFromParts(s);
    return Success;
  }

  /** rename_folder */
  method RenameFolder(s: VFSEntryStore, d: int, name: string) returns (status: Status)
    requires s.Valid() && LiveFolder(s.View(), d)
    modifies s.folders
    ensures s.Valid()
    ensures status == if d == ROOT then InvalidRootOperation
                      else NameStatus(old(s.View()), ParentOf(old(s.View()), FolderNode(d)), name)
    ensures status != Success ==> s.View() == old(s.View())
    ensures status == Success ==> Renamed(old(s.View()), s.View(), FolderNode(d), name)
  {
    hide *;
    ghost var t, n := s.View(), FolderNode(d);
    FolderNameInArray(s, d);
    if s.folders[d].isRoot { return InvalidRootOperation; }
    status := ValidateSubEntryName(s, s.folders[d].parent, name);
    if status != Success { return status; }
    NameOfLength(t, ParentOf(t, n), name);
    RenamedBy(t, n, name);
    var text := SetEntryName(name);
    WriteFolderName(s, d, text);
    RenamedValid(t, s.View(), n, name);
    StoreFromParts(s);
    return Success;
  }

  // ---- Moving ------------------------------------------------------------------------

  /** A child keeps its name, so a folder that has the name free is not its parent. */
  lemma NotTheParent(t: Tree, n: Node, p: int)
    requires Valid(t) && Live(t, n) && NameFree(t, p, NameOf(t, n))
    ensures p != ParentOf(t, n)
  {
  }

  method LinkFile(s: VFSEntryStore, f: int, p: int, index: nat)
    requires s.Wired() && InStore(s.View(), FileNode(f)) && 0 <= p < s.folders.Length && index < MAX_SUB_FILES_AMOUNT
    modifies s.files, s.folders
    ensures s.Wired() && 0 <= p < |old(s.View()).folders| && index < |Slots(old(s.View()), p, FileNode(f))|
    ensures var t1 := PutSlot(old(s.View()), p, FileNode(f), index, f);
            InStore(t1, FileNode(f)) && s.View() == PutParent(t1, FileNode(f), p)
  {
    ghost var t := s.View();
    s.folders[p] := s.folders[p].(subFiles := s.folders[p].subFiles[index := f]);
    s.files[f] := s.files[f].(parent := p);
    assert s.View() == PutParent(PutSlot(t, p, FileNode(f), index, f), FileNode(f), p);
  }

  method LinkFolder(s: VFSEntryStore, d: int, p: int, index: nat)
    requires s.Wired() && InStore(s.View(), FolderNode(d))
    requires 0 <= p < s.folders.Length && index < MAX_SUB_FOLDERS_AMOUNT
    modifies s.folders
    ensures s.Wired() && 0 <= p < |old(s.View()).folders| && index < |Slots(old(s.View()), p, FolderNode(d))|
    ensures var t1 := PutSlot(old(s.View()), p, FolderNode(d), index, d);
            InStore(t1, FolderNode(d)) && s.View() == PutParent(t1, FolderNode(d), p)
  {
    ghost var t := s.View();
    s.folders[p] := s.folders[p].(subFolders := s.folders[p].subFolders[index := d]);
    s.folders[d] := s.folders[d].(parent := p);
    assert s.View() == PutParent(PutSlot(t, p, FolderNode(d), index, d), FolderNode(d), p);
  }

  /** What relinking an entry needs and does, on the tree. */
  lemma RelinkingFacts(t: Tree, n: Node, p: int, index: nat)
    requires Valid(t) && Live(t, n) && LiveFolder(t, p) && Vacant(Slots(t, p, n), index) && NameFree(t, p, NameOf(t, n))
    ensures p != ParentOf(t, n) && 0 <= p < |t.folders| && index < SlotsAmount(n) && LiveFolder(t, ParentOf(t, n))
    ensures InStore(Unlinked(t, n), n) && |Unlinked(t, n).folders| == |t.folders|
    ensures 0 <= p < |Unlinked(t, n).folders| && index < |Slots(Unlinked(t, n), p, n)|
    ensures InStore(PutSlot(Unlinked(t, n), p, n, index, n.index), n)
    ensures var t' := PutParent(PutSlot(Unlinked(t, n), p, n, index, n.index), n, p);
            Moved(t, t', n, SlotOf(t, n), p, index)
  {
    NotTheParent(t, n, p);
    LiveFolderInStore(t, p);
    MovedBy(t, n, p, index);
    hide Moved, Unlinked, PutSlot, PutParent, Valid, SlotOf, NameFree, Live, LiveFolder;
    LiveEntry(t, n);
    UnlinkedEffect(t, n);
    RelinkedIs(t, n, p, index);
  }

  lemma FileRange(t: Tree, f: int)
    requires Valid(t) && Live(t, FileNode(f))
    ensures 0 <= f < VFS_MAX_FILES_AMOUNT
  {
  }

  /** The second half of move_file: unlinks file f and links it to the vacant slot index of p. */
  method RelinkFile(s: VFSEntryStore, f: int, p: int, index: nat) returns (status: Status)
    requires s.Valid() && Live(s.View(), FileNode(f)) && LiveFolder(s.View(), p)
    requires Vacant(Slots(s.View(), p, FileNode(f)), index) && NameFree(s.View(), p, NameOf(s.View(), FileNode(f)))
    modifies s.files, s.folders
    ensures status == Success && s.Valid()
    ensures Moved(old(s.View()), s.View(), FileNode(f), SlotOf(old(s.View()), FileNode(f)), p, index)
  {
    hide *;
    ghost var t, n := s.View(), FileNode(f);
    FileNameInArray(s, f);
    FolderNameInArray(s, p);
    FileRange(t, f);
    RelinkingFacts(t, n, p, index);
    SlotsAmounts();
    status := UnlinkSubFile(s, f);
    LinkFile(s, f, p, index);
    MovedValid(t, s.View(), n, SlotOf(t, n), p, index);
    StoreFromParts(s);
  }

  lemma SlotsAmounts()
    ensures forall i ::
              SlotsAmount(FileNode(i)) == MAX_SUB_FILES_AMOUNT && SlotsAmount(FolderNode(i)) == MAX_SUB_FOLDERS_AMOUNT
  {
  }

  /** move_file: the file leaves its slot for the first vacant one of p. */
  method MoveFile(s: VFSEntryStore, f: int, p: int) returns (status: Status)
    requires s.Valid() && Live(s.View(), FileNode(f)) && LiveFolder(s.View(), p)
    modifies s.files, s.folders
    ensures s.Valid()
    ensures status == MoveFileStatus(old(s.View()), f, p)
    ensures status != Success ==> s.View() == old(s.View())
    ensures status == Success ==>
              var t, n := old(s.View()), FileNode(f);
              Moved(t, s.View(), n, SlotOf(t, n), p, IndexIn(Slots(t, p, FileNode(0)), NULL))
  {
    hide *;
    ghost var t, n := s.View(), FileNode(f);
    FileNameInArray(s, f);
    SlotsInArray(s, p);
    SlotsOfKind(t, p, f);
    MoveFileStatusIs(t, f, p);
    status := ValidateSubEntryName(s, p, s.files[f].name);
    if status != Success { return status; }
    var index;
    status, index := GetAvailablePosition(s.folders[p].subFiles);
    if status != Success { return status; }
    NameStatusIsNameFree(t, p, NameOf(t, n));
    status := RelinkFile(s, f, p, index);
  }

  ghost function MoveFileStatus(t: Tree, f: int, p: int): Status {
    if NameStatus(t, p, NameOf(t, FileNode(f))) != Success then NameStatus(t, p, NameOf(t, FileNode(f)))
    else if NULL !in Slots(t, p, FileNode(0)) then NoSpace
    else Success
  }

  lemma MoveFileStatusIs(t: Tree, f: int, p: int)
    ensures MoveFileStatus(t, f, p) ==
            if NameStatus(t, p, NameOf(t, FileNode(f))) != Success then NameStatus(t, p, NameOf(t, FileNode(f)))
            else if NULL !in Slots(t, p, FileNode(0)) then NoSpace
            else Success
  {
  }

  lemma BelowViaChild(t: Tree, d: int, x: int, k: nat) returns (c: int)
    requires Valid(t) && LiveFolder(t, d) && LiveFolder(t, x) && Up(t, x, k) == d && 0 < k
    ensures Live(t, FolderNode(c)) && ParentOf(t, FolderNode(c)) == d && Up(t, x, k - 1) == c
  {
    hide *;
    c := Up(t, x, k - 1);
    UpAdd(t, x, k - 1, 1);
    ChildOnTheWay(t, d, c, x, k - 1);
  }

  lemma ChildOnTheWay(t: Tree, d: int, c: int, x: int, k: nat)
    requires Valid(t) && LiveFolder(t, d) && LiveFolder(t, x) && Up(t, x, k) == c && Up(t, c, 1) == d
    ensures Live(t, FolderNode(c)) && ParentOf(t, FolderNode(c)) == d
  {
    assert 0 <= c < |t.folders| && Up(t, t.folders[c].parent, 0) == d by { LiveFolderInRange(t, d); }
    AncestorsLive(t, x, k);
    hide Up;
    if c == ROOT { LiveFolderInRange(t, d); }
  }

  /** The first i folder slots of d hold no folder that p is below, and none with anything too deep below it. */
  ghost predicate Searched(t: Tree, p: int, d: int, step: nat, i: nat)
    requires i <= |Slots(t, d, FolderNode(0))|
  {
    forall j :: 0 <= j < i && Slots(t, d, FolderNode(0))[j] != NULL ==>
      !Below(t, Slots(t, d, FolderNode(0))[j], p) && !TooDeep(t, Slots(t, d, FolderNode(0))[j], step + 2)
  }

  lemma NothingSearched(t: Tree, p: int, d: int, step: nat)
    ensures Searched(t, p, d, step, 0)
  {
  }

  lemma OneMoreSearched(t: Tree, p: int, d: int, step: nat, i: nat)
    requires i < |Slots(t, d, FolderNode(0))| && Searched(t, p, d, step, i)
    requires var c := Slots(t, d, FolderNode(0))[i]; c != NULL ==> !Below(t, c, p) && !TooDeep(t, c, step + 2)
    ensures Searched(t, p, d, step, i + 1)
  {
    hide Below, TooDeep;
  }

  lemma NothingFound(t: Tree, p: int, d: int, step: nat)
    requires Valid(t) && LiveFolder(t, d) && LiveFolder(t, p) && p != d && step < MAX_FOLDER_DEPTH
    requires Searched(t, p, d, step, |Slots(t, d, FolderNode(0))|)
    ensures !Below(t, d, p) && !TooDeep(t, d, step + 1)
  {
    forall k: nat ensures Up(t, p, k) != d {
      if Up(t, p, k) == d {
        var c := BelowViaChild(t, d, p, k);
        ChildHasSlot(t, d, c);
        assert Below(t, c, p);
      }
    }
    forall x, k: nat | LiveFolder(t, x) && Up(t, x, k) == d ensures step + 1 + k <= MAX_FOLDER_DEPTH {
      if 0 < k {
        var c := BelowViaChild(t, d, x, k);
        ChildHasSlot(t, d, c);
        assert Up(t, x, k - 1) == c;
        assert !(step + 2 + (k - 1) > MAX_FOLDER_DEPTH);
      }
    }
  }

  lemma ChildHasSlot(t: Tree, d: int, c: int)
    requires Valid(t) && LiveFolder(t, d) && Live(t, FolderNode(c)) && ParentOf(t, FolderNode(c)) == d
    ensures c != NULL && exists j :: 0 <= j < |Slots(t, d, FolderNode(0))| && Slots(t, d, FolderNode(0))[j] == c
  {
    assert HasSlot(t, d, FolderNode(c));
    assert Slots(t, d, FolderNode(c)) == Slots(t, d, FolderNode(0));
  }

  lemma FoundBelow(t: Tree, p: int, d: int, c: int, step: nat)
    requires Valid(t) && Live(t, FolderNode(c)) && ParentOf(t, FolderNode(c)) == d
    ensures Below(t, c, p) ==> Below(t, d, p)
    ensures TooDeep(t, c, step + 2) ==> TooDeep(t, d, step + 1)
  {
    if Below(t, c, p) {
      var k: nat :| Up(t, p, k) == c;
      UpOne(t, p, k, c);
    }
    if TooDeep(t, c, step + 2) {
      var x, k: nat :| LiveFolder(t, x) && Up(t, x, k) == c && step + 2 + k > MAX_FOLDER_DEPTH;
      UpOne(t, x, k, c);
      assert step + 1 + (k + 1) > MAX_FOLDER_DEPTH;
    }
  }

  /** The answer of a search that enters folder d at this step, depth first and in the order of the slots: the first of
      the two problems that it meets decides. */
  ghost function CycleStatus(t: Tree, p: int, d: int, step: nat): Status
    decreases if step >= MAX_FOLDER_DEPTH then 0 else MAX_FOLDER_DEPTH - step, 0, 0
  {
    if step >= MAX_FOLDER_DEPTH then RecursiveOperationLimitExceeded
    else if p == d then AttemptedToEnforceCyclicRelation
    else FirstRefusal(t, p, Slots(t, d, FolderNode(0)), step + 1)
  }

  ghost function FirstRefusal(t: Tree, p: int, slots: seq<int>, step: nat): Status
    decreases if step >= MAX_FOLDER_DEPTH then 0 else MAX_FOLDER_DEPTH - step, 1, |slots|
  {
    if slots == [] then Success
    else if slots[0] != NULL && CycleStatus(t, p, slots[0], step) != Success then CycleStatus(t, p, slots[0], step)
    else FirstRefusal(t, p, slots[1..], step)
  }

  lemma NextRefusal(t: Tree, p: int, slots: seq<int>, step: nat, i: nat)
    requires i < |slots|
    ensures FirstRefusal(t, p, slots[i..], step) ==
            if slots[i] != NULL && CycleStatus(t, p, slots[i], step) != Success then CycleStatus(t, p, slots[i], step)
            else FirstRefusal(t, p, slots[i + 1..], step)
  {
    assert slots[i..][0] == slots[i] && slots[i..][1..] == slots[i + 1..];
  }

  lemma NoRefusal(t: Tree, p: int, slots: seq<int>, step: nat)
    ensures slots[0..] == slots && FirstRefusal(t, p, slots[|slots|..], step) == Success
  {
  }

  lemma CycleStatusIs(t: Tree, p: int, d: int, step: nat)
    ensures CycleStatus(t, p, d, step) ==
            if step >= MAX_FOLDER_DEPTH then RecursiveOperationLimitExceeded
            else if p == d then AttemptedToEnforceCyclicRelation
            else FirstRefusal(t, p, Slots(t, d, FolderNode(0)), step + 1)
  {
  }

  lemma HereAlready(t: Tree, d: int, step: nat)
    requires LiveFolder(t, d)
    ensures Below(t, d, d) && (step >= MAX_FOLDER_DEPTH ==> TooDeep(t, d, step + 1))
  {
    assert Up(t, d, 0) == d;
    assert step >= MAX_FOLDER_DEPTH ==> step + 1 + 0 > MAX_FOLDER_DEPTH;
  }

  /** p is so close below d that a search which enters d at this step looks at it. */
  ghost predicate WithinSearch(t: Tree, p: int, d: int, step: nat) {
    exists k: nat :: Up(t, p, k) == d && step + k < MAX_FOLDER_DEPTH
  }

  lemma FoundHere(t: Tree, p: int, step: nat)
    requires step < MAX_FOLDER_DEPTH
    ensures WithinSearch(t, p, p, step)
  {
    assert Up(t, p, 0) == p && step + 0 < MAX_FOLDER_DEPTH;
  }

  lemma FoundAbove(t: Tree, p: int, d: int, c: int, step: nat)
    requires Valid(t) && Live(t, FolderNode(c)) && ParentOf(t, FolderNode(c)) == d && WithinSearch(t, p, c, step + 1)
    ensures WithinSearch(t, p, d, step)
  {
    var k: nat :| Up(t, p, k) == c && step + 1 + k < MAX_FOLDER_DEPTH;
    UpOne(t, p, k, c);
    assert step + (k + 1) < MAX_FOLDER_DEPTH;
  }

  /** What the search finds. It succeeds exactly when p is not in the subtree of d and no folder lies MAX_FOLDER_DEPTH
      or more levels below the one where the search started, so the depth limit never hides a cycle. */
  lemma {:induction false} CycleAnswers(t: Tree, p: int, d: int, step: nat)
    requires Valid(t) && LiveFolder(t, d) && LiveFolder(t, p) && step <= MAX_FOLDER_DEPTH
    ensures CycleStatus(t, p, d, step) == Success <==> !Below(t, d, p) && !TooDeep(t, d, step + 1)
    ensures CycleStatus(t, p, d, step) == AttemptedToEnforceCyclicRelation ==>
              Below(t, d, p) && WithinSearch(t, p, d, step)
    ensures CycleStatus(t, p, d, step) == RecursiveOperationLimitExceeded ==> TooDeep(t, d, step + 1)
    ensures CycleStatus(t, p, d, step) in {Success, AttemptedToEnforceCyclicRelation, RecursiveOperationLimitExceeded}
    decreases MAX_FOLDER_DEPTH - step
  {
    hide *;
    HereAlready(t, d, step);
    CycleStatusIs(t, p, d, step);
    if step < MAX_FOLDER_DEPTH && p == d {
      FoundHere(t, p, step);
    } else if step < MAX_FOLDER_DEPTH {
      var slots := Slots(t, d, FolderNode(0));
      NothingSearched(t, p, d, step);
      NoRefusal(t, p, slots, step + 1);
      for i := 0 to |slots|
        invariant Searched(t, p, d, step, i)
        invariant FirstRefusal(t, p, slots, step + 1) == FirstRefusal(t, p, slots[i..], step + 1)
      {
        NextRefusal(t, p, slots, step + 1, i);
        var c := slots[i];
        if c != NULL {
          FolderInSlot(t, d, i);
          FoundBelow(t, p, d, c, step);
          CycleAnswers(t, p, c, step + 1);
          if CycleStatus(t, p, c, step + 1) == AttemptedToEnforceCyclicRelation { FoundAbove(t, p, d, c, step); }
          if CycleStatus(t, p, c, step + 1) != Success { return; }
        }
        OneMoreSearched(t, p, d, step, i);
      }
      NothingFound(t, p, d, step);
    }
  }

  lemma {:induction false} SkippedSlots(t: Tree, p: int, slots: seq<int>, step: nat, i: nat)
    requires i <= |slots|
    requires forall j :: 0 <= j < i && slots[j] != NULL ==> CycleStatus(t, p, slots[j], step) == Success
    ensures FirstRefusal(t, p, slots, step) == FirstRefusal(t, p, slots[i..], step)
  {
    hide *;
    NoRefusal(t, p, slots, step);
    if i > 0 {
      SkippedSlots(t, p, slots, step, i - 1);
      NextRefusal(t, p, slots, step, i - 1);
    }
  }

  /** Slots are searched in their order: the first one below which there is a problem decides, and it reports the only
      kind of problem there is. */
  lemma FirstProblemDecides(t: Tree, p: int, d: int, step: nat, i: nat)
    requires Valid(t) && LiveFolder(t, d) && LiveFolder(t, p) && p != d && step < MAX_FOLDER_DEPTH
    requires i < |Slots(t, d, FolderNode(0))| && Slots(t, d, FolderNode(0))[i] != NULL
    requires forall j :: 0 <= j < i && Slots(t, d, FolderNode(0))[j] != NULL ==>
               && !Below(t, Slots(t, d, FolderNode(0))[j], p)
               && !TooDeep(t, Slots(t, d, FolderNode(0))[j], step + 2)
    ensures var c := Slots(t, d, FolderNode(0))[i];
            && (Below(t, c, p) && !TooDeep(t, c, step + 2) ==>
                 CycleStatus(t, p, d, step) == AttemptedToEnforceCyclicRelation)
            && (!Below(t, c, p) && TooDeep(t, c, step + 2) ==>
                 CycleStatus(t, p, d, step) == RecursiveOperationLimitExceeded)
  {
    hide *;
    var slots := Slots(t, d, FolderNode(0));
    CycleStatusIs(t, p, d, step);
    forall j | 0 <= j < i && slots[j] != NULL ensures CycleStatus(t, p, slots[j], step + 1) == Success {
      FolderInSlot(t, d, j);
      CycleAnswers(t, p, slots[j], step + 1);
    }
    SkippedSlots(t, p, slots, step + 1, i);
    NextRefusal(t, p, slots, step + 1, i);
    FolderInSlot(t, d, i);
    CycleAnswers(t, p, slots[i], step + 1);
  }

  /** validate_no_cyclic_move succeeds exactly when p is not in the subtree of d and no folder lies MAX_FOLDER_DEPTH or
      more levels below the one where the search started; so the depth limit never hides a cycle. */
  method ValidateNoCyclicMove(s: VFSEntryStore, p: int, d: int, step: nat) returns (status: Status)
    requires s.Valid() && LiveFolder(s.View(), d) && LiveFolder(s.View(), p) && step <= MAX_FOLDER_DEPTH
    ensures status == CycleStatus(s.View(), p, d, step)
    ensures status == Success <==> !Below(s.View(), d, p) && !TooDeep(s.View(), d, step + 1)
    ensures status == AttemptedToEnforceCyclicRelation ==> Below(s.View(), d, p)
    ensures status == RecursiveOperationLimitExceeded ==> TooDeep(s.View(), d, step + 1)
    ensures status in {Success, AttemptedToEnforceCyclicRelation, RecursiveOperationLimitExceeded}
    decreases MAX_FOLDER_DEPTH - step
  {
    hide *;
    ghost var t := s.View();
    StoreIsValid(s);
    CycleAnswers(t, p, d, step);
    CycleStatusIs(t, p, d, step);
    if step >= MAX_FOLDER_DEPTH { return RecursiveOperationLimitExceeded; }
    if p == d { return AttemptedToEnforceCyclicRelation; }
    SlotsInArray(s, d);
    ghost var slots := Slots(t, d, FolderNode(0));
    NoRefusal(t, p, slots, step + 1);
    for i := 0 to MAX_SUB_FOLDERS_AMOUNT
      invariant FirstRefusal(t, p, slots, step + 1) == FirstRefusal(t, p, slots[i..], step + 1)
    {
      NextRefusal(t, p, slots, step + 1, i);
      var c := s.folders[d].subFolders[i];
      if c != NULL {
        FolderInSlot(t, d, i);
        status := ValidateNoCyclicMove(s, p, c, step + 1);
        if status != Success { return status; }
      }
    }
    return Success;
  }

  lemma StoreIsValid(s: VFSEntryStore)
    requires s.Valid()
    ensures s.Wired() && Valid(s.View())
  {
  }

  /** When a folder may move. */
  ghost predicate MoveFolderAllowed(t: Tree, d: int, p: int) {
    && NameStatus(t, p, NameOf(t, FolderNode(d))) == Success
    && !Below(t, d, p) && !TooDeep(t, d, 1) && NULL in Slots(t, p, FolderNode(0))
  }

  ghost function MoveFolderStatus(t: Tree, d: int, p: int): Status {
    if NameStatus(t, p, NameOf(t, FolderNode(d))) != Success then NameStatus(t, p, NameOf(t, FolderNode(d)))
    else if CycleStatus(t, p, d, 0) != Success then CycleStatus(t, p, d, 0)
    else if NULL !in Slots(t, p, FolderNode(0)) then NoSpace
    else Success
  }

  lemma MoveFolderStatusIs(t: Tree, d: int, p: int)
    ensures MoveFolderStatus(t, d, p) ==
            if NameStatus(t, p, NameOf(t, FolderNode(d))) != Success then NameStatus(t, p, NameOf(t, FolderNode(d)))
            else if CycleStatus(t, p, d, 0) != Success then CycleStatus(t, p, d, 0)
            else if NULL !in Slots(t, p, FolderNode(0)) then NoSpace
            else Success
    ensures MoveFolderAllowed(t, d, p) <==>
            && NameStatus(t, p, NameOf(t, FolderNode(d))) == Success
            && !Below(t, d, p) && !TooDeep(t, d, 1) && NULL in Slots(t, p, FolderNode(0))
  {
  }

  lemma RootHasNoFreeName(t: Tree, p: int)
    requires Valid(t)
    ensures NameStatus(t, p, NameOf(t, FolderNode(ROOT))) != Success
  {
  }

  /** The second half of move_folder: unlinks folder d and links it to the vacant slot index of p. */
  method RelinkFolder(s: VFSEntryStore, d: int, p: int, index: nat) returns (status: Status)
    requires s.Valid() && Live(s.View(), FolderNode(d)) && LiveFolder(s.View(), d) && d != ROOT
    requires LiveFolder(s.View(), p) && !Below(s.View(), d, p)
    requires Vacant(Slots(s.View(), p, FolderNode(d)), index) && NameFree(s.View(), p, NameOf(s.View(), FolderNode(d)))
    modifies s.folders
    ensures status == Success && s.Valid()
    ensures Moved(old(s.View()), s.View(), FolderNode(d), SlotOf(old(s.View()), FolderNode(d)), p, index)
  {
    hide *;
    ghost var t, n := s.View(), FolderNode(d);
    FolderNameInArray(s, p);
    RelinkingFacts(t, n, p, index);
    SlotsAmounts();
    status := UnlinkSubFolder(s, d, true);
    LinkFolder(s, d, p, index);
    MovedValid(t, s.View(), n, SlotOf(t, n), p, index);
    StoreFromParts(s);
  }

  /** move_folder: moves folder d with its subtree to the first vacant slot of p, exactly when its name is free in p, p
      is not in its subtree, the subtree is within the depth limit and p has a vacant slot; the root never moves. Every
      folder still reaches the root afterwards. */
  method MoveFolder(s: VFSEntryStore, d: int, p: int) returns (status: Status)
    requires s.Valid() && LiveFolder(s.View(), d) && LiveFolder(s.View(), p)
    modifies s.folders
    ensures s.Valid()
    ensures status == MoveFolderStatus(old(s.View()), d, p)
    ensures status == Success <==> MoveFolderAllowed(old(s.View()), d, p)
    ensures status != Success ==> s.View() == old(s.View())
    ensures status == Success ==>
              var t, n := old(s.View()), FolderNode(d);
              && Live(t, n) && !Below(t, d, p)
              && Moved(t, s.View(), n, SlotOf(t, n), p, IndexIn(Slots(t, p, FolderNode(0)), NULL))
  {
    hide *;
    ghost var t, n := s.View(), FolderNode(d);
    FolderNameInArray(s, d);
    SlotsInArray(s, p);
    MoveFolderStatusIs(t, d, p);
    RootHasNoFreeName(t, p);
    status := ValidateSubEntryName(s, p, s.folders[d].name);
    if status != Success { return status; }
    status := ValidateNoCyclicMove(s, p, d, 0);
    if status != Success { return status; }
    var index;
    status, index := GetAvailablePosition(s.folders[p].subFolders);
    if status != Success { return status; }
    NameStatusIsNameFree(t, p, NameOf(t, n));
    FolderSlots(t, p, d);
    status := RelinkFolder(s, d, p, index);
  }

  lemma FolderSlots(t: Tree, p: int, d: int)
    ensures Slots(t, p, FolderNode(d)) == Slots(t, p, FolderNode(0))
  {
  }
}
