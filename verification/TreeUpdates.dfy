/** The same changes as assignments to the arrays of the entry store, and that they are the changes of TreeSteps. */
module TreeUpdates {
  import opened Settings
  import opened EntryTree
  import opened TreeSteps

  ghost function PutSlot(t: Tree, p: int, n: Node, s: nat, v: int): Tree
    requires 0 <= p < |t.folders| && s < |Slots(t, p, n)|
  {
    var f := t.folders[p];
    var f' := if n.FileNode? then f.(subFiles := f.subFiles[s := v]) else f.(subFolders := f.subFolders[s := v]);
    t.(folders := t.folders[p := f'])
  }

  ghost predicate InStore(t: Tree, n: Node) {
    match n
    case FileNode(i) => 0 <= i < |t.files| == |t.fileMap|
    case FolderNode(i) => 0 <= i < |t.folderMap| < |t.folders|
  }

  ghost function PutParent(t: Tree, n: Node, p: int): Tree
    requires InStore(t, n)
  {
    match n
    case FileNode(i) => t.(files := t.files[i := t.files[i].(parent := p)])
    case FolderNode(i) => t.(folders := t.folders[i := t.folders[i].(parent := p)])
  }

  ghost function PutName(t: Tree, n: Node, name: string): Tree
    requires InStore(t, n)
  {
    match n
    case FileNode(i) => t.(files := t.files[i := t.files[i].(name := name)])
    case FolderNode(i) => t.(folders := t.folders[i := t.folders[i].(name := name)])
  }

  ghost function PutMark(t: Tree, n: Node, b: bool): Tree
    requires InStore(t, n)
  {
    match n
    case FileNode(i) => t.(fileMap := t.fileMap[i := b])
    case FolderNode(i) => t.(folderMap := t.folderMap[i := b])
  }

  // ---- What each assignment changes --------------------------------------------------

  ghost predicate SameSlots(t: Tree, t': Tree) {
    forall q, m :: Slots(t', q, m) == Slots(t, q, m)
  }

  ghost predicate SameLife(t: Tree, t': Tree) {
    forall m :: Live(t', m) == Live(t, m)
  }

  ghost predicate SameNames(t: Tree, t': Tree) {
    && (forall m :: NameOf(t', m) == NameOf(t, m))
    && forall d :: IsRoot(t', d) == IsRoot(t, d)
  }

  ghost predicate SameParents(t: Tree, t': Tree) {
    forall m :: ParentOf(t', m) == ParentOf(t, m)
  }

  ghost predicate SameStore(t: Tree, t': Tree) {
    forall m :: InStore(t', m) == InStore(t, m)
  }

  lemma PutSlotEffect(t: Tree, p: int, n: Node, s: nat, v: int)
    requires Shape(t) && 0 <= p < |t.folders| && s < |Slots(t, p, n)|
    ensures var t' := PutSlot(t, p, n, s, v);
            && Shape(t') && SameLife(t, t') && SameNames(t, t') && SameParents(t, t') && SameStore(t, t')
            && SlotSet(Slots(t, p, n), Slots(t', p, n), s, v)
            && forall q, m :: !(q == p && SameKind(m, n)) ==> Slots(t', q, m) == Slots(t, q, m)
  {
    var t' := PutSlot(t, p, n, s, v);
    forall q, m | 0 <= q < |t'.folders| ensures |Slots(t', q, m)| == SlotsAmount(m) {
      assert |Slots(t, q, m)| == SlotsAmount(m);
    }
  }

  lemma PutParentEffect(t: Tree, n: Node, p: int)
    requires Shape(t) && InStore(t, n)
    ensures var t' := PutParent(t, n, p);
            && Shape(t') && SameLife(t, t') && SameNames(t, t') && SameSlots(t, t') && SameStore(t, t')
            && ParentOf(t', n) == p && forall m :: m != n ==> ParentOf(t', m) == ParentOf(t, m)
  {
    var t' := PutParent(t, n, p);
    forall q, m | 0 <= q < |t'.folders| ensures |Slots(t', q, m)| == SlotsAmount(m) {
      assert |Slots(t, q, m)| == SlotsAmount(m);
    }
  }

  lemma PutNameEffect(t: Tree, n: Node, name: string)
    requires Shape(t) && InStore(t, n)
    ensures var t' := PutName(t, n, name);
            && Shape(t') && SameLife(t, t') && SameParents(t, t') && SameSlots(t, t') && SameStore(t, t')
            && NameOf(t', n) == name && (forall m :: m != n ==> NameOf(t', m) == NameOf(t, m))
            && forall d :: IsRoot(t', d) == IsRoot(t, d)
  {
    var t' := PutName(t, n, name);
    forall q, m | 0 <= q < |t'.folders| ensures |Slots(t', q, m)| == SlotsAmount(m) {
      assert |Slots(t, q, m)| == SlotsAmount(m);
    }
  }

  lemma PutMarkEffect(t: Tree, n: Node, b: bool)
    requires Shape(t) && InStore(t, n)
    ensures var t' := PutMark(t, n, b);
            && Shape(t') && SameNames(t, t') && SameParents(t, t') && SameSlots(t, t') && SameStore(t, t')
            && Live(t', n) == b && forall m :: m != n ==> Live(t', m) == Live(t, m)
  {
    var t' := PutMark(t, n, b);
    forall q, m | 0 <= q < |t'.folders| ensures |Slots(t', q, m)| == SlotsAmount(m) {
      assert |Slots(t, q, m)| == SlotsAmount(m);
    }
  }

  lemma PutFolderEffect(t: Tree, i: int, f: Folder)
    requires Shape(t) && 0 <= i < |t.folders|
    requires |f.subFiles| == MAX_SUB_FILES_AMOUNT && |f.subFolders| == MAX_SUB_FOLDERS_AMOUNT
    ensures var t', n := t.(folders := t.folders[i := f]), FolderNode(i);
            && Shape(t') && SameLife(t, t') && SameStore(t, t')
            && ParentOf(t', n) == f.parent && NameOf(t', n) == f.name && IsRoot(t', i) == f.isRoot
            && (forall m :: Slots(t', i, m) == if m.FileNode? then f.subFiles else f.subFolders)
            && (forall m :: m != n ==> ParentOf(t', m) == ParentOf(t, m) && NameOf(t', m) == NameOf(t, m))
            && (forall d :: d != i ==> IsRoot(t', d) == IsRoot(t, d))
            && forall q, m :: q != i ==> Slots(t', q, m) == Slots(t, q, m)
  {
    var t' := t.(folders := t.folders[i := f]);
    forall q, m | 0 <= q < |t'.folders| ensures |Slots(t', q, m)| == SlotsAmount(m) {
      assert |Slots(t, q, m)| == SlotsAmount(m);
    }
  }

  lemma PutFileEffect(t: Tree, i: int, e: FileEntry)
    requires Shape(t) && 0 <= i < |t.files|
    ensures var t', n := t.(files := t.files[i := e]), FileNode(i);
            && Shape(t') && SameLife(t, t') && SameSlots(t, t') && SameStore(t, t')
            && ParentOf(t', n) == e.parent && NameOf(t', n) == e.name
            && (forall m :: m != n ==> ParentOf(t', m) == ParentOf(t, m) && NameOf(t', m) == NameOf(t, m))
            && forall d :: IsRoot(t', d) == IsRoot(t, d)
  {
    var t' := t.(files := t.files[i := e]);
    forall q, m | 0 <= q < |t'.folders| ensures |Slots(t', q, m)| == SlotsAmount(m) {
      assert |Slots(t, q, m)| == SlotsAmount(m);
    }
  }

  // ---- Operations --------------------------------------------------------------------

  lemma LiveInStore(t: Tree, n: Node)
    requires Shape(t) && Live(t, n)
    ensures InStore(t, n) && n.index != NULL && n != FolderNode(ROOT)
  {
  }

  lemma LiveFolderInStore(t: Tree, p: int)
    requires Shape(t) && LiveFolder(t, p)
    ensures 0 <= p < |t.folders| && p != NULL && forall n :: |Slots(t, p, n)| == SlotsAmount(n)
  {
  }

  /** The slot that entry n occupies. */
  ghost function SlotOf(t: Tree, n: Node): (s: nat)
    requires Valid(t) && Live(t, n)
    ensures Holds(Slots(t, ParentOf(t, n), n), s, n)
    ensures forall i :: 0 <= i < |Slots(t, ParentOf(t, n), n)| && Slots(t, ParentOf(t, n), n)[i] == n.index ==> i == s
  {
    var p := ParentOf(t, n);
    assert LiveFolder(t, p) && HasSlot(t, p, n) && NoDuplicates(Slots(t, p, n));
    var s: nat :| s < |Slots(t, p, n)| && Slots(t, p, n)[s] == n.index;
    s
  }

  /** Unlinking n from its parent. */
  ghost function Unlinked(t: Tree, n: Node): Tree
    requires Valid(t) && Live(t, n)
  {
    LiveInStore(t, n);
    LiveFolderInStore(t, ParentOf(t, n));
    PutSlotEffect(t, ParentOf(t, n), n, SlotOf(t, n), NULL);
    PutParent(PutSlot(t, ParentOf(t, n), n, SlotOf(t, n), NULL), n, NULL)
  }

  lemma UnlinkedEffect(t: Tree, n: Node)
    requires Valid(t) && Live(t, n)
    ensures var t', p, s := Unlinked(t, n), ParentOf(t, n), SlotOf(t, n);
            && Shape(t') && SameLife(t, t') && SameNames(t, t') && SameStore(t, t') && InStore(t', n)
            && SlotSet(Slots(t, p, n), Slots(t', p, n), s, NULL)
            && (forall q, m :: !(q == p && SameKind(m, n)) ==> Slots(t', q, m) == Slots(t, q, m))
            && ParentOf(t', n) == NULL && forall m :: m != n ==> ParentOf(t', m) == ParentOf(t, m)
  {
    hide PutSlot, PutParent, Valid, Shape, SlotOf;
    LiveEntry(t, n);
    var p := ParentOf(t, n);
    PutSlotEffect(t, p, n, SlotOf(t, n), NULL);
    PutParentEffect(PutSlot(t, p, n, SlotOf(t, n), NULL), n, NULL);
  }

  lemma LiveEntry(t: Tree, n: Node)
    requires Valid(t) && Live(t, n)
    ensures Shape(t) && InStore(t, n) && n.index != NULL && n != FolderNode(ROOT)
    ensures var p := ParentOf(t, n); LiveFolder(t, p) && 0 <= p < |t.folders| && SlotOf(t, n) < |Slots(t, p, n)|
  {
    LiveInStore(t, n);
    LiveFolderInStore(t, ParentOf(t, n));
  }

  lemma RemovedBy(t: Tree, n: Node)
    requires Valid(t) && Live(t, n) && (n.FolderNode? ==> Childless(t, n.index))
    ensures InStore(Unlinked(t, n), n)
    ensures Removed(t, PutMark(Unlinked(t, n), n, false), n, SlotOf(t, n))
  {
    hide PutMark, Unlinked, Valid, Shape, SlotOf;
    LiveEntry(t, n);
    UnlinkedEffect(t, n);
    PutMarkEffect(Unlinked(t, n), n, false);
  }

  lemma RenamedBy(t: Tree, n: Node, name: string)
    requires Valid(t) && Live(t, n)
    ensures InStore(t, n) && Renamed(t, PutName(t, n, name), n, name)
  {
    hide PutName, Valid, Shape, SlotOf;
    LiveEntry(t, n);
    PutNameEffect(t, n, name);
  }

  /** Linking the unlinked n into slot s of p. */
  ghost function Relinked(t: Tree, n: Node, p: int, s: nat): Tree
    requires Valid(t) && Live(t, n) && LiveFolder(t, p) && Vacant(Slots(t, p, n), s)
  {
    UnlinkedEffect(t, n);
    LiveFolderInStore(t, p);
    PutSlotEffect(Unlinked(t, n), p, n, s, n.index);
    PutParent(PutSlot(Unlinked(t, n), p, n, s, n.index), n, p)
  }

  lemma RelinkedIs(t: Tree, n: Node, p: int, s: nat)
    requires Valid(t) && Live(t, n) && LiveFolder(t, p) && p != ParentOf(t, n) && Vacant(Slots(t, p, n), s)
    ensures 0 <= p < |Unlinked(t, n).folders| && s < |Slots(Unlinked(t, n), p, n)|
    ensures InStore(PutSlot(Unlinked(t, n), p, n, s, n.index), n)
    ensures Relinked(t, n, p, s) == PutParent(PutSlot(Unlinked(t, n), p, n, s, n.index), n, p)
  {
    UnlinkedEffect(t, n);
    LiveFolderInStore(t, p);
    PutSlotEffect(Unlinked(t, n), p, n, s, n.index);
  }

  lemma MovedBy(t: Tree, n: Node, p: int, s: nat)
    requires Valid(t) && Live(t, n) && LiveFolder(t, p) && p != ParentOf(t, n) && Vacant(Slots(t, p, n), s)
    ensures Moved(t, Relinked(t, n, p, s), n, SlotOf(t, n), p, s)
  {
    hide PutSlot, PutParent, Unlinked, Valid, Shape, SlotOf;
    LiveEntry(t, n);
    UnlinkedEffect(t, n);
    LiveFolderInStore(t, p);
    var t1 := Unlinked(t, n);
    PutSlotEffect(t1, p, n, s, n.index);
    PutParentEffect(PutSlot(t1, p, n, s, n.index), n, p);
  }

  /** A folder record put into the dead position i and linked into slot s of p. */
  ghost function FolderPlaced(t: Tree, i: int, p: int, s: nat, f: Folder): Tree
    requires 0 <= i < |t.folders| && 0 <= p < |t.folders| && i != p && s < |t.folders[p].subFolders|
  {
    PutSlot(t.(folders := t.folders[i := f]), p, FolderNode(i), s, i)
  }

  lemma AddedFolderBy(t: Tree, i: int, p: int, s: nat, f: Folder)
    requires Valid(t) && 0 <= i < VFS_MAX_FOLDERS_AMOUNT && !Live(t, FolderNode(i)) && LiveFolder(t, p)
    requires Vacant(Slots(t, p, FolderNode(i)), s)
    requires f.parent == p && !f.isRoot && |f.subFiles| == MAX_SUB_FILES_AMOUNT
    requires |f.subFolders| == MAX_SUB_FOLDERS_AMOUNT
    requires AllVacant(f.subFiles) && AllVacant(f.subFolders)
    ensures 0 <= p < |t.folders| && 0 <= i < |t.folders| && i != p && s < |t.folders[p].subFolders|
    ensures InStore(FolderPlaced(t, i, p, s, f), FolderNode(i))
    ensures Added(t, PutMark(FolderPlaced(t, i, p, s, f), FolderNode(i), true), FolderNode(i), p, s, f.name)
  {
    hide PutSlot, PutMark, Valid;
    var n := FolderNode(i);
    assert Shape(t) && InStore(t, n) && 0 <= p < |t.folders| && i != p by { LiveFolderInRange(t, p); }
    hide Shape;
    var t1 := t.(folders := t.folders[i := f]);
    PutFolderEffect(t, i, f);
    PutSlotEffect(t1, p, n, s, i);
    PutMarkEffect(PutSlot(t1, p, n, s, i), n, true);
  }

  lemma LiveFolderInRange(t: Tree, p: int)
    requires Valid(t) && LiveFolder(t, p)
    ensures Shape(t) && 0 <= p < |t.folders|
  {
  }

  /** File entry e in position i, linked to slot s of its parent. */
  ghost function FilePlaced(t: Tree, i: int, s: nat, e: FileEntry): Tree
    requires 0 <= i < |t.files| && 0 <= e.parent < |t.folders| && s < |t.folders[e.parent].subFiles|
  {
    PutSlot(t.(files := t.files[i := e]), e.parent, FileNode(i), s, i)
  }

  lemma AddedFileBy(t: Tree, i: int, s: nat, e: FileEntry)
    requires Valid(t) && 0 <= i < VFS_MAX_FILES_AMOUNT && !Live(t, FileNode(i)) && LiveFolder(t, e.parent)
    requires Vacant(Slots(t, e.parent, FileNode(i)), s)
    ensures 0 <= i < |t.files| && 0 <= e.parent < |t.folders| && s < |t.folders[e.parent].subFiles|
    ensures InStore(FilePlaced(t, i, s, e), FileNode(i))
    ensures Added(t, PutMark(FilePlaced(t, i, s, e), FileNode(i), true), FileNode(i), e.parent, s, e.name)
  {
    hide PutSlot, PutMark, Valid;
    var n, p := FileNode(i), e.parent;
    assert Shape(t) && InStore(t, n) && 0 <= p < |t.folders| by { LiveFolderInRange(t, p); }
    hide Shape;
    var t1 := t.(files := t.files[i := e]);
    PutFileEffect(t, i, e);
    PutSlotEffect(t1, p, n, s, i);
    PutMarkEffect(PutSlot(t1, p, n, s, i), n, true);
  }
}
