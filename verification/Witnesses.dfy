/** Trees on which the code does less than its comments promise: the inputs behind the conditions of the other
    modules. */
module Witnesses {
  import opened Settings
  import opened EntryTree
  import opened TreeSteps
  import opened TreeUpdates
  import opened Subtrees
  import opened Entries
  import opened Folders
  import opened EntryStore
  import opened Paths
  import opened PathUtils
  import opened Navigation

  // ---- Chains of folders -------------------------------------------------------------

  /** The folder in position i when the positions below n are chained. */
  ghost function ChainFolder(n: nat, i: nat): Folder {
    Folder(if i < n then ChainParent(i) else NULL, i == ROOT,
           if i == ROOT then ROOT_NAME else if i < n then "a" else [],
           NoEntries(MAX_SUB_FILES_AMOUNT),
           NoEntries(MAX_SUB_FOLDERS_AMOUNT)[0 := ChainChild(n, i)])
  }

  ghost function ChainParent(i: nat): int {
    if i == 0 then ROOT else i - 1
  }

  ghost function ChainChild(n: nat, i: nat): int {
    if i == ROOT then (if 0 < n then 0 else NULL) else if i + 1 < n then i + 1 else NULL
  }

  /** n folders, each in the one before, the first below the root. */
  ghost function Chain(n: nat): Tree {
    Tree(seq(VFS_MAX_FILES_AMOUNT, _ => FileEntry([], NULL)),
         seq(VFS_MAX_FOLDERS_AMOUNT + 1, i requires 0 <= i => ChainFolder(n, i)),
         seq(VFS_MAX_FILES_AMOUNT, _ => false),
         seq(VFS_MAX_FOLDERS_AMOUNT, i => i < n))
  }

  lemma ChainIs(n: nat)
    requires n <= VFS_MAX_FOLDERS_AMOUNT
    ensures forall m: Node :: Live(Chain(n), m) <==> m.FolderNode? && 0 <= m.index < n
    ensures forall i :: 0 <= i < n ==>
              ParentOf(Chain(n), FolderNode(i)) == ChainParent(i) && NameOf(Chain(n), FolderNode(i)) == "a"
    ensures forall i :: 0 <= i < n ==> Slots(Chain(n), i, FileNode(0)) == NoEntries(MAX_SUB_FILES_AMOUNT)
    ensures forall i :: 0 <= i < n || i == ROOT ==>
              Slots(Chain(n), i, FolderNode(0)) == NoEntries(MAX_SUB_FOLDERS_AMOUNT)[0 := ChainChild(n, i)]
  {
    hide ChainFolder, ChainParent, ChainChild;
    forall i | 0 <= i <= ROOT ensures Chain(n).folders[i] == ChainFolder(n, i) {}
    forall i: nat ensures ChainFolder(n, i).subFiles == NoEntries(MAX_SUB_FILES_AMOUNT) { ChainFolderIs(n, i); }
    forall i: nat ensures ChainFolder(n, i).subFolders == NoEntries(MAX_SUB_FOLDERS_AMOUNT)[0 := ChainChild(n, i)] {
      ChainFolderIs(n, i);
    }
    forall i | 0 <= i < n 
      ensures ChainFolder(n, i).parent == ChainParent(i) && ChainFolder(n, i).name == "a"
    {
      ChainFolderIs(n, i);
    }
  }

  lemma ChainFolderIs(n: nat, i: nat)
    ensures var f := ChainFolder(n, i);
            && f.subFiles == NoEntries(MAX_SUB_FILES_AMOUNT)
            && f.subFolders == NoEntries(MAX_SUB_FOLDERS_AMOUNT)[0 := ChainChild(n, i)]
            && f.parent == (if i < n then ChainParent(i) else NULL) && f.isRoot == (i == ROOT)
            && (i < n <= VFS_MAX_FOLDERS_AMOUNT ==> f.name == "a")
  {
  }

  /** The assignments that create the next folder of a chain. */
  lemma ChainNext(n: nat)
    requires n < VFS_MAX_FOLDERS_AMOUNT
    ensures var t, p, f := Chain(n), ChainParent(n), NewFolder("a", ChainParent(n));
            && 0 <= n < |t.folders| && 0 <= p < |t.folders| && n != p && 0 < |t.folders[p].subFolders|
            && InStore(FolderPlaced(t, n, p, 0, f), FolderNode(n))
            && Chain(n + 1) == PutMark(FolderPlaced(t, n, p, 0, f), FolderNode(n), true)
  {
    var t, p, f := Chain(n), ChainParent(n), NewFolder("a", ChainParent(n));
    var t' := FolderPlaced(t, n, p, 0, f);
    forall i | 0 <= i < |t.folders| ensures Chain(n + 1).folders[i] == t'.folders[i] {
      NextInChain(n, i);
    }
    assert Chain(n + 1).folders == t'.folders;
    assert Chain(n + 1).folderMap == t.folderMap[n := true];
  }

  lemma NextInChain(n: nat, i: nat)
    requires n < VFS_MAX_FOLDERS_AMOUNT && i <= ROOT
    ensures ChainFolder(n + 1, i) ==
            if i == n then NewFolder("a", ChainParent(n))
            else if i == ChainParent(n)
            then ChainFolder(n, i).(subFolders := ChainFolder(n, i).subFolders[0 := n])
            else ChainFolder(n, i)
  {
    if i == n { assert NoEntries(MAX_SUB_FOLDERS_AMOUNT)[0 := NULL] == NoEntries(MAX_SUB_FOLDERS_AMOUNT); }
  }

  lemma NothingInLast(n: nat)
    requires n < VFS_MAX_FOLDERS_AMOUNT && Valid(Chain(n))
    ensures LiveFolder(Chain(n), ChainParent(n)) && Vacant(Slots(Chain(n), ChainParent(n), FolderNode(n)), 0)
    ensures NameFree(Chain(n), ChainParent(n), "a")
  {
    ChainIs(n);
    hide Valid, Chain;
  }

  /** A chain grows by an ordinary creation of a folder. */
  lemma ChainGrows(n: nat)
    requires n < VFS_MAX_FOLDERS_AMOUNT && Valid(Chain(n))
    ensures CreateFolderStatus(Chain(n), ChainParent(n), "a") == Success && FirstFree(Chain(n).folderMap, n)
    ensures Added(Chain(n), Chain(n + 1), FolderNode(n), ChainParent(n), 0, "a") && Valid(Chain(n + 1))
  {
    var t, p, f := Chain(n), ChainParent(n), NewFolder("a", ChainParent(n));
    ChainIs(n);
    ChainNext(n);
    NothingInLast(n);
    NewFolderIs("a", p);
    assert FirstFree(t.folderMap, n) && t.folderMap[n] == false;
    hide Valid, Chain, Added, NewFolder, ChainParent, NameFree, FolderPlaced, PutMark;
    AddedFolderBy(t, n, p, 0, f);
    AddedValid(t, Chain(n + 1), FolderNode(n), p, 0, "a");
    CreateFolderStatusIs(t, p, "a");
    NameStatusIsNameFree(t, p, "a");
    hide NameStatus;
    assert NULL in Slots(t, p, FolderNode(0)) by { assert Slots(t, p, FolderNode(0)) == Slots(t, p, FolderNode(n)); }
  }

  lemma RootAloneValid(t: Tree)
    requires Shape(t) && Roots(t) && (forall n :: !Live(t, n)) && forall n :: AllVacant(Slots(t, ROOT, n))
    ensures Valid(t)
  {
    hide Shape, Roots;
    assert Up(t, ROOT, 0) == ROOT;
  }

  lemma ChainStarts()
    ensures Valid(Chain(0))
  {
    var t := Chain(0);
    forall n ensures AllVacant(Slots(t, ROOT, n)) {}
    assert Shape(t) by {
      forall d, n | 0 <= d < |t.folders| ensures |Slots(t, d, n)| == SlotsAmount(n) {
        assert t.folders[d] == ChainFolder(0, d);
      }
    }
    hide Valid;
    RootAloneValid(t);
  }

  lemma {:induction false} ChainValid(n: nat)
    requires n <= VFS_MAX_FOLDERS_AMOUNT
    ensures Valid(Chain(n))
  {
    hide *;
    if n == 0 {
      ChainStarts();
    } else {
      ChainValid(n - 1);
      ChainGrows(n - 1);
    }
  }

  lemma {:induction false} ChainUp(n: nat, x: nat, k: nat)
    requires x < n <= VFS_MAX_FOLDERS_AMOUNT && k <= x + 1
    ensures Up(Chain(n), x, k) == if k == x + 1 then ROOT else x - k
    decreases k
  {
    if 1 < k { ChainUp(n, x - 1, k - 1); }
  }

  // ---- Deletions that fail -----------------------------------------------------------

  lemma {:induction false} ChainTakesNothing(n: nat, k: nat)
    requires n == MAX_FOLDER_DEPTH + 2 <= VFS_MAX_FOLDERS_AMOUNT && k < n
    ensures TakesNothing(Chain(n), k, k)
    decreases n - k
  {
    ChainIs(n);
    hide *;
    if k > MAX_FOLDER_DEPTH {
      NothingBelowLimit(Chain(n), k, k);
    } else {
      ChainTakesNothing(n, k + 1);
      ChainSlots(n, k);
      FoldersTakeNothingIs(Chain(n), k, k);
      TakesNothingIs(Chain(n), k, k);
    }
  }

  lemma ChainSlots(n: nat, k: nat)
    requires k + 1 < n <= VFS_MAX_FOLDERS_AMOUNT
    ensures AllVacant(Slots(Chain(n), k, FileNode(0))) && !AllVacant(Slots(Chain(n), k, FolderNode(0)))
    ensures var slots := Slots(Chain(n), k, FolderNode(0));
            0 < |slots| && slots[0] == k + 1 && FirstOccupied(slots) == 0
  {
    ChainIs(n);
    FirstOccupiedIs(Slots(Chain(n), k, FolderNode(0)), 0);
    assert Slots(Chain(n), k, FolderNode(0))[0] == k + 1;
  }

  lemma ChainTooDeep(n: nat)
    requires n == MAX_FOLDER_DEPTH + 2 <= VFS_MAX_FOLDERS_AMOUNT
    ensures LiveFolder(Chain(n), 0) && !Childless(Chain(n), 0) && TooDeep(Chain(n), 0, 0)
    ensures LiveFolder(Chain(n), n - 1) && Up(Chain(n), n - 1, n - 1) == 0
  {
    ChainIs(n);
    ChainUp(n, n - 1, n - 1);
    hide Chain, Up;
    assert Live(Chain(n), FolderNode(1)) && ParentOf(Chain(n), FolderNode(1)) == 0;
    assert LiveFolder(Chain(n), n - 1) && 0 + (n - 1) > MAX_FOLDER_DEPTH;
  }

  /** A forced deletion that meets the depth limit need not have taken anything: here it goes straight down to the
      limit. */
  lemma DeepDeletionTakesNothing(gone: set<Node>)
    requires MAX_FOLDER_DEPTH + 2 <= VFS_MAX_FOLDERS_AMOUNT
    ensures var t := Chain(MAX_FOLDER_DEPTH + 2);
            && Valid(t) && DeleteFolderStatus(t, 0, true) == RecursiveOperationLimitExceeded && TakesNothing(t, 0, 0)
            && (DeletionTakes(t, 0, RecursiveOperationLimitExceeded, gone) ==> gone == {})
  {
    var n: nat := MAX_FOLDER_DEPTH + 2;
    ChainValid(n);
    ChainTooDeep(n);
    ChainTakesNothing(n, 0);
    hide Valid, Chain, TooDeep, Childless, TakesNothing;
  }

  ghost predicate FileFits(t: Tree, p: int) {
    0 < |t.files| == |t.fileMap| && 0 <= p < |t.folders| && 0 < |t.folders[p].subFiles|
  }

  /** File 0, called f, in folder p. */
  ghost function WithFile(t: Tree, p: int): Tree
    requires FileFits(t, p)
  {
    PutMark(FilePlaced(t, 0, 0, FileEntry("f", p)), FileNode(0), true)
  }

  lemma FileIsAdded(n: nat, p: int)
    requires n <= VFS_MAX_FOLDERS_AMOUNT && (0 <= p < n || p == ROOT) && 1 < MAX_NAME_LENGTH
    ensures Valid(Chain(n)) && LiveFolder(Chain(n), p) && FileFits(Chain(n), p)
    ensures Added(Chain(n), WithFile(Chain(n), p), FileNode(0), p, 0, "f") && Valid(WithFile(Chain(n), p))
  {
    ChainValid(n);
    ChainIs(n);
    var t := Chain(n);
    assert Slots(t, p, FileNode(0)) == NoEntries(MAX_SUB_FILES_AMOUNT);
    assert NameFree(t, p, "f") by { hide Chain; }
    hide Valid, Chain, NameFree, Added, FilePlaced, PutMark;
    AddedFileBy(t, 0, 0, FileEntry("f", p));
    AddedValid(t, WithFile(t, p), FileNode(0), p, 0, "f");
  }

  lemma StillTooDeep(t: Tree, t': Tree, n: Node, p: int, s: nat, name: string, d: int, x: int, k: nat)
    requires Valid(t) && Added(t, t', n, p, s, name) && LiveFolder(t, x) && Up(t, x, k) == d && k > MAX_FOLDER_DEPTH
    ensures TooDeep(t', d, 0)
  {
    assert |t'.folders| == |t.folders|;
    forall e | LiveFolder(t, e) ensures ParentOf(t', FolderNode(e)) == ParentOf(t, FolderNode(e)) {}
    SameAncestors(t, t', x, k);
    assert LiveFolder(t', x) && 0 + k > MAX_FOLDER_DEPTH;
  }

  lemma OccupiedTakesSomething(t: Tree, d: int)
    requires 0 < |Slots(t, d, FileNode(0))| && Slots(t, d, FileNode(0))[0] != NULL
    ensures !TakesNothing(t, d, 0)
  {
    TakesNothingIs(t, d, 0);
    hide TakesNothing;
  }

  /** It may also have taken part of the subtree: with one file in the topmost folder something is gone, and the folder
      is not. */
  lemma DeepDeletionTakesPart(gone: set<Node>)
    requires MAX_FOLDER_DEPTH + 2 <= VFS_MAX_FOLDERS_AMOUNT && 1 < MAX_NAME_LENGTH
    ensures FileFits(Chain(MAX_FOLDER_DEPTH + 2), 0)
    ensures var t := WithFile(Chain(MAX_FOLDER_DEPTH + 2), 0);
            && Valid(t) && DeleteFolderStatus(t, 0, true) == RecursiveOperationLimitExceeded && !TakesNothing(t, 0, 0)
            && (DeletionTakes(t, 0, RecursiveOperationLimitExceeded, gone) ==> gone != {} && FolderNode(0) !in gone)
  {
    var n: nat := MAX_FOLDER_DEPTH + 2;
    FileIsAdded(n, 0);
    ChainTooDeep(n);
    var t0, t := Chain(n), WithFile(Chain(n), 0);
    hide Chain, WithFile;
    StillTooDeep(t0, t, FileNode(0), 0, 0, "f", 0, n - 1, n - 1);
    assert Live(t, FileNode(0)) && ParentOf(t, FileNode(0)) == 0 && Slots(t, 0, FileNode(0))[0] == 0;
    assert LiveFolder(t, 0) && LiveFolder(t0, 0);
    OccupiedTakesSomething(t, 0);
    hide Valid, TooDeep, TakesNothing, Added;
  }

  /** A forced deletion of the root takes everything and fails all the same. */
  lemma RootDeletionTakesAll(gone: set<Node>)
    ensures var t := Chain(1);
            && Valid(t) && Live(t, FolderNode(0)) && DeleteFolderStatus(t, ROOT, true) == InvalidRootOperation
            && (DeletionTakes(t, ROOT, InvalidRootOperation, gone) ==> FolderNode(0) in gone)
  {
    var t := Chain(1);
    ChainValid(1);
    ChainIs(1);
    forall x, k: nat | LiveFolder(t, x) && Up(t, x, k) == ROOT ensures k <= MAX_FOLDER_DEPTH {
      if x == ROOT { assert Up(t, ROOT, 0) == ROOT; } else { ChainUp(1, 0, 1); }
      OneDepth(t, x, if x == ROOT then 0 else 1, k);
    }
    assert !TooDeep(t, ROOT, 0);
    assert !Childless(t, ROOT) by { assert ParentOf(t, FolderNode(0)) == ROOT; }
    hide Valid, Chain, TooDeep, Childless, TakesNothing;
  }

  // ---- Paths that are too long for their array ---------------------------------------

  /** An entry with MAX_PATH_NODES_AMOUNT parents below the root, for which get_parent_folders runs over its array and
      fails. */
  lemma PathIsLongerThanArray()
    requires MAX_PATH_NODES_AMOUNT < VFS_MAX_FOLDERS_AMOUNT
    ensures var t, n := Chain(MAX_PATH_NODES_AMOUNT + 1), FolderNode(MAX_PATH_NODES_AMOUNT);
            && Valid(t) && Live(t, n) && LiveFolder(t, ParentOf(t, n))
            && Depth(t, ParentOf(t, n)) == MAX_PATH_NODES_AMOUNT
  {
    var m: nat := MAX_PATH_NODES_AMOUNT;
    var t := Chain(m + 1);
    ChainValid(m + 1);
    ChainIs(m + 1);
    ChainUp(m + 1, m - 1, m);
    hide Chain, Up;
    assert LiveFolder(t, m - 1) && ParentOf(t, FolderNode(m)) == m - 1;
    OneDepth(t, m - 1, m, Depth(t, m - 1));
  }

  // ---- Names that are too long -------------------------------------------------------

  /** The name check lets through a name for which the name buffer of a file has no room. */
  lemma LongRenamePasses()
    requires 1 < MAX_NAME_LENGTH
    ensures FileFits(Chain(0), ROOT)
    ensures var t, name := WithFile(Chain(0), ROOT), seq(MAX_NAME_LENGTH, _ => 'b');
            && Valid(t) && Live(t, FileNode(0)) && |name| == MAX_NAME_LENGTH
            && NameStatus(t, ParentOf(t, FileNode(0)), name) == Success
  {
    FileIsAdded(0, ROOT);
    ChainIs(0);
    var t, name := WithFile(Chain(0), ROOT), seq(MAX_NAME_LENGTH, _ => 'b');
    hide Chain, WithFile, Valid;
    assert name[0] == 'b' && |name| != |"f"|;
    assert forall m :: Live(t, m) ==> m == FileNode(0);
  }

  /** One folder below the root, with a name of the greatest length that folder names may have. */
  ghost function LongNameTree(): Tree {
    var f := NewFolder(seq(MAX_NAME_LENGTH, _ => 'a'), ROOT);
    PutMark(FolderPlaced(Chain(0), 0, ROOT, 0, f), FolderNode(0), true)
  }

  lemma LongNameIsAdded()
    ensures Valid(Chain(0)) && Valid(LongNameTree())
    ensures Added(Chain(0), LongNameTree(), FolderNode(0), ROOT, 0, seq(MAX_NAME_LENGTH, _ => 'a'))
  {
    var t, f := Chain(0), NewFolder(seq(MAX_NAME_LENGTH, _ => 'a'), ROOT);
    ChainValid(0);
    ChainIs(0);
    NothingInLast(0);
    NewFolderIs(f.name, ROOT);
    assert f.name[0] == 'a';
    assert NameFree(t, ROOT, f.name) by { hide Chain; }
    hide Valid, Chain, NameFree, Added, FolderPlaced, PutMark, NewFolder;
    AddedFolderBy(t, 0, ROOT, 0, f);
    AddedValid(t, LongNameTree(), FolderNode(0), ROOT, 0, f.name);
  }

  /** The length limit of folder names is one more than what paths can carry: this entry is printed but found by no
      path. */
  lemma LongNameIsLost(cur: int)
    ensures var t, n := LongNameTree(), FolderNode(0);
            && Valid(t) && Live(t, n) && |PathNames(t, n)| == 1
            && WsLookup(t, cur, PathText(PathNames(t, n))) == Missing(IdentifierIsTooLong)
  {
    var t, n := LongNameTree(), FolderNode(0);
    LongNameIsAdded();
    hide LongNameTree, Valid, Chain;
    PathLength(t, n);
    assert Up(t, ROOT, 0) == ROOT;
    RootDepth(t);
    PathNameAt(t, n, 0);
    PathRoundTrip(t, n, cur);
  }

  lemma RootDepth(t: Tree)
    requires Valid(t)
    ensures Depth(t, ROOT) == 0
  {
    assert Up(t, ROOT, 0) == ROOT;
    OneDepth(t, ROOT, 0, Depth(t, ROOT));
  }
}
