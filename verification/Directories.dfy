/** The whole system as a user sees it: a directory that says for each entry in which folder it is and under which
    name, and the bytes of each file. Every command is one update of the two. */
module Directories {
  import opened Settings
  import opened EntryTree
  import opened TreeSteps
  import opened TreeUpdates
  import opened Subtrees
  import opened Entries
  import opened EntryStore
  import opened Paths
  import opened PathChanges
  import opened SystemRuns

  datatype Record = Record(parent: int, name: string)

  /** The live entries with their parents and names. */
  ghost function DirectoryOf(t: Tree): imap<Node, Record> {
    imap n | Live(t, n) :: Record(ParentOf(t, n), NameOf(t, n))
  }

  lemma AddedToDirectory(t: Tree, t': Tree, n: Node, p: int, s: nat, name: string)
    requires Added(t, t', n, p, s, name)
    ensures n !in DirectoryOf(t) && DirectoryOf(t') == DirectoryOf(t)[n := Record(p, name)]
  {
    hide KeepsSlots, Slots, Vacant, SlotSet, IsRoot, Shape;
  }

  lemma RenamedInDirectory(t: Tree, t': Tree, n: Node, name: string)
    requires Renamed(t, t', n, name)
    ensures n in DirectoryOf(t) && DirectoryOf(t') == DirectoryOf(t)[n := Record(DirectoryOf(t)[n].parent, name)]
  {
    hide KeepsSlots, Slots, IsRoot, Shape;
  }

  lemma MovedInDirectory(t: Tree, t': Tree, n: Node, s: nat, p: int, s': nat)
    requires Moved(t, t', n, s, p, s')
    ensures n in DirectoryOf(t) && DirectoryOf(t') == DirectoryOf(t)[n := Record(p, DirectoryOf(t)[n].name)]
  {
    hide KeepsSlots, Slots, Vacant, SlotSet, Holds, IsRoot, Shape;
  }

  lemma PrunedFromDirectory(t: Tree, t': Tree, gone: set<Node>)
    requires Pruned(t, t', gone)
    ensures DirectoryOf(t') == imap n | n in DirectoryOf(t) && n !in gone :: DirectoryOf(t)[n]
  {
    hide Slots, Cleared, IsRoot, Shape;
  }

  lemma UntouchedDirectory(t: Tree, t': Tree)
    requires Untouched(t, t')
    ensures DirectoryOf(t') == DirectoryOf(t)
  {
    hide Slots, IsRoot, Shape;
  }

  /** What an accepted creation does to the directory: the entry in the lowest free record appears. */
  lemma CreationInDirectory(a: Snapshot, cmd: Command, b: Snapshot) returns (n: Node)
    requires Effect(a, cmd, Success, b) && (cmd.MakeFile? || cmd.MakeFolder?)
    ensures n.FileNode? <==> cmd.MakeFile?
    ensures n !in DirectoryOf(a.tree) && 0 <= n.index
    ensures DirectoryOf(b.tree) ==
            DirectoryOf(a.tree)[n := Record(cmd.folder, if cmd.MakeFile? then CString(cmd.name) else cmd.name)]
    ensures forall i :: 0 <= i < n.index ==>
              (if cmd.MakeFile? then FileNode(i) else FolderNode(i)) in DirectoryOf(a.tree)
    ensures b.disk == a.disk
  {
    hide Answer, Added, CString;
    if cmd.MakeFile? {
      var i :| Created(a.tree, a.tree.fileMap, b.tree, FileNode(i), cmd.folder, CString(cmd.name));
      n := FileNode(i);
      AddedToDirectory(a.tree, b.tree, n, cmd.folder, FreeSlot(a.tree, cmd.folder, n), CString(cmd.name));
    } else {
      var i :| Created(a.tree, a.tree.folderMap, b.tree, FolderNode(i), cmd.folder, cmd.name);
      n := FolderNode(i);
      AddedToDirectory(a.tree, b.tree, n, cmd.folder, FreeSlot(a.tree, cmd.folder, n), cmd.name);
    }
  }

  /** What an accepted deletion does to the directory: the file, or the subtree with its folder, disappears. */
  lemma DeletionInDirectory(a: Snapshot, cmd: Command, b: Snapshot)
    requires SnapshotValid(a) && Effect(a, cmd, Success, b) && (cmd.RemoveFile? || cmd.RemoveFolder?)
    ensures var dir := DirectoryOf(a.tree);
            DirectoryOf(b.tree) ==
            if cmd.RemoveFile? then imap n | n in dir && n != FileNode(cmd.file) :: dir[n]
            else imap n | n in dir && !InSubtree(a.tree, cmd.folder, n) :: dir[n]
  {
    hide Answer, InSubtree, TakesNothing, Without, FilesDropped, Pruned, SnapshotValid;
    if cmd.RemoveFile? {
      PrunedFromDirectory(a.tree, b.tree, {FileNode(cmd.file)});
    } else {
      var gone :| FolderRemoved(a, cmd.folder, Success, b, gone);
      PrunedFromDirectory(a.tree, b.tree, gone);
    }
  }

  /** What every other command does to the directory, and that refusals leave it alone. */
  lemma ChangeInDirectory(a: Snapshot, cmd: Command, status: Status, b: Snapshot)
    requires Effect(a, cmd, status, b)
    ensures status != Success && !cmd.RemoveFolder? ==> DirectoryOf(b.tree) == DirectoryOf(a.tree)
    ensures status == Success ==>
              var dir, dir' := DirectoryOf(a.tree), DirectoryOf(b.tree);
              match cmd
              case RenameFileTo(f, name) =>
                FileNode(f) in dir && dir' == dir[FileNode(f) := Record(dir[FileNode(f)].parent, name)]
              case RenameFolderTo(d, name) =>
                FolderNode(d) in dir && dir' == dir[FolderNode(d) := Record(dir[FolderNode(d)].parent, name)]
              case MoveFileTo(f, p) =>
                FileNode(f) in dir && dir' == dir[FileNode(f) := Record(p, dir[FileNode(f)].name)]
              case MoveFolderTo(d, p) =>
                FolderNode(d) in dir && dir' == dir[FolderNode(d) := Record(p, dir[FolderNode(d)].name)]
              case Data(_) => dir' == dir
              case _ => true
  {
    hide Answer, Renamed, Moved, Untouched, Valid;
    if status != Success {
      if cmd.MakeFile? { UntouchedDirectory(a.tree, b.tree); }
    } else {
      match cmd
      case RenameFileTo(f, name) => RenamedInDirectory(a.tree, b.tree, FileNode(f), name);
      case RenameFolderTo(d, name) => RenamedInDirectory(a.tree, b.tree, FolderNode(d), name);
      case MoveFileTo(f, p) =>
        var n := FileNode(f);
        MovedInDirectory(a.tree, b.tree, n, SlotOf(a.tree, n), p, FreeSlot(a.tree, p, n));
      case MoveFolderTo(d, p) =>
        var n := FolderNode(d);
        MovedInDirectory(a.tree, b.tree, n, SlotOf(a.tree, n), p, FreeSlot(a.tree, p, n));
      case _ =>
    }
  }

  /** What a deletion that is not accepted does to the directory: one that is refused nothing; one that fails at the
      root empties it; and one that fails at the depth limit keeps all that is not below the folder, and the folder. */
  lemma FailedDeletionInDirectory(a: Snapshot, d: int, force: bool, status: Status, b: Snapshot)
    requires SnapshotValid(a) && Effect(a, RemoveFolder(d, force), status, b) && status != Success
    ensures status !in {InvalidRootOperation, RecursiveOperationLimitExceeded} ==>
              DirectoryOf(b.tree) == DirectoryOf(a.tree)
    ensures status == InvalidRootOperation ==> DirectoryOf(b.tree) == imap[]
    ensures forall n :: n in DirectoryOf(b.tree) ==>
              n in DirectoryOf(a.tree) && DirectoryOf(b.tree)[n] == DirectoryOf(a.tree)[n]
    ensures forall n :: n in DirectoryOf(a.tree) && (n == FolderNode(d) || !InSubtree(a.tree, d, n)) ==>
              n in DirectoryOf(b.tree)
  {
    hide Answer, InSubtree, TakesNothing, Without, FilesDropped, Pruned, SnapshotValid;
    var gone :| FolderRemoved(a, d, status, b, gone);
    PrunedFromDirectory(a.tree, b.tree, gone);
  }

  // ---- Paths of what is gone ---------------------------------------------------------

  lemma {:induction false} SurvivingWay(t: Tree, t': Tree, q: int, k: nat)
    requires Valid(t) && Valid(t') && LiveFolder(t', q) && Up(t', q, k) == ROOT
    requires forall n :: n in DirectoryOf(t') ==> n in DirectoryOf(t) && DirectoryOf(t')[n] == DirectoryOf(t)[n]
    ensures LiveFolder(t, q) && Up(t, q, k) == ROOT && NamesUp(t, q, k) == NamesUp(t', q, k)
    decreases k
  {
    hide *;
    NamesUpNone(t, q);
    NamesUpNone(t', q);
    if k > 0 {
      FromRootUp(t', q, k);
      UpFrom(t', q, k);
      SameRecord(t, t', FolderNode(q));
      UpFrom(t, q, k);
      SurvivingWay(t, t', ParentOf(t', FolderNode(q)), k - 1);
      NamesUpNext(t, q, k);
      NamesUpNext(t', q, k);
      ChildIsFolder(t, q);
    } else {
      RootPath(t);
    }
  }

  lemma SameRecord(t: Tree, t': Tree, n: Node)
    requires Live(t', n)
    requires forall n :: n in DirectoryOf(t') ==> n in DirectoryOf(t) && DirectoryOf(t')[n] == DirectoryOf(t)[n]
    ensures Live(t, n) && ParentOf(t', n) == ParentOf(t, n) && NameOf(t', n) == NameOf(t, n)
  {
    assert n in DirectoryOf(t');
  }

  /** Where entries only disappear, the others keep their paths. */
  lemma SurvivorKeepsPath(t: Tree, t': Tree, n: Node)
    requires Valid(t) && Valid(t') && Live(t', n)
    requires forall n :: n in DirectoryOf(t') ==> n in DirectoryOf(t) && DirectoryOf(t')[n] == DirectoryOf(t)[n]
    ensures Live(t, n) && PathNames(t', n) == PathNames(t, n)
  {
    var q := ParentOf(t', n);
    SameRecord(t, t', n);
    ParentIsLive(t', n);
    ParentIsLive(t, n);
    SurvivingWay(t, t', q, Depth(t', q));
    DepthIs(t, q, Depth(t', q));
    DepthIs(t', q, Depth(t', q));
    hide Valid, Live, PathNames, FolderPath, NamesUp;
  }

  /** After an accepted deletion of a folder nothing of its subtree is there any more, the folder included: each entry
      is dead, its chunks are given back, and its path leads nowhere. All other paths are as they were. */
  lemma DeletedIsGone(a: Snapshot, d: int, force: bool, b: Snapshot, n: Node)
    requires SnapshotValid(a) && SnapshotValid(b) && Effect(a, RemoveFolder(d, force), Success, b) && Live(a.tree, n)
    ensures Live(b.tree, n) <==> !InSubtree(a.tree, d, n)
    ensures InSubtree(a.tree, d, n) ==> Resolve(b.tree, ROOT, PathNames(a.tree, n)).Missing?
    ensures InSubtree(a.tree, d, n) && n.FileNode? ==> 0 <= n.index < |b.layout| && b.layout[n.index] == []
    ensures !InSubtree(a.tree, d, n) ==> Resolve(b.tree, ROOT, PathNames(a.tree, n)) == Found(n)
  {
    DeletionInDirectory(a, RemoveFolder(d, force), b);
    assert n in DirectoryOf(a.tree);
    assert n in DirectoryOf(b.tree) <==> !InSubtree(a.tree, d, n);
    if InSubtree(a.tree, d, n) {
      hide Effect, DirectoryOf;
      var names := PathNames(a.tree, n);
      if Resolve(b.tree, ROOT, names).Found? {
        OnlyItsPathLeadsToEntry(b.tree, names);
        var m := Resolve(b.tree, ROOT, names).node;
        SurvivorKeepsPath(a.tree, b.tree, m);
        OnePath(a.tree, m, n);
        assert false;
      }
    } else {
      hide Effect;
      SurvivorKeepsPath(a.tree, b.tree, n);
      PathLeadsToEntry(b.tree, n);
    }
  }
}
