/** The entry tree as a value: folders with slots for their children, back pointers, and the two maps that say which
    entries are live; the invariant that makes it a tree; and what each kind of change does to it. */
module EntryTree {
  import opened Settings

  // ---- The state ---------------------------------------------------------------------

  /** Entries are addressed by their position in the entry store. The root folder is a struct of its own in the source
      and takes the position behind the folder array here. */
  const NULL: int := -1
  const ROOT: int := VFS_MAX_FOLDERS_AMOUNT
  const ROOT_NAME: string := "root"

  datatype Folder = Folder(parent: int, isRoot: bool, name: string, subFiles: seq<int>, subFolders: seq<int>)
  datatype FileEntry = FileEntry(name: string, parent: int)

  datatype Tree = Tree(files: seq<FileEntry>, folders: seq<Folder>, fileMap: seq<bool>, folderMap: seq<bool>)

  /** VFSNode: a file or a folder. */
  datatype Node = FileNode(index: int) | FolderNode(index: int)

  predicate LiveFile(t: Tree, i: int) {
    0 <= i < |t.fileMap| && t.fileMap[i]
  }

  /** A live entry other than the root. */
  predicate Live(t: Tree, n: Node) {
    match n
    case FileNode(i) => LiveFile(t, i)
    case FolderNode(i) => 0 <= i < |t.folderMap| && t.folderMap[i]
  }

  predicate LiveFolder(t: Tree, d: int) {
    d == ROOT || Live(t, FolderNode(d))
  }

  function ParentOf(t: Tree, n: Node): int {
    match n
    case FileNode(i) => if 0 <= i < |t.files| then t.files[i].parent else NULL
    case FolderNode(i) => if 0 <= i < |t.folders| then t.folders[i].parent else NULL
  }

  function NameOf(t: Tree, n: Node): string {
    match n
    case FileNode(i) => if 0 <= i < |t.files| then t.files[i].name else ""
    case FolderNode(i) => if 0 <= i < |t.folders| then t.folders[i].name else ""
  }

  predicate IsRoot(t: Tree, d: int) {
    0 <= d < |t.folders| && t.folders[d].isRoot
  }

  /** The slots of folder p for entries of the kind of n. */
  function Slots(t: Tree, p: int, n: Node): seq<int> {
    if !(0 <= p < |t.folders|) then []
    else if n.FileNode? then t.folders[p].subFiles
    else t.folders[p].subFolders
  }

  predicate HasSlot(t: Tree, p: int, n: Node) {
    n.index != NULL && n.index in Slots(t, p, n)
  }

  function SlotsAmount(n: Node): nat {
    if n.FileNode? then MAX_SUB_FILES_AMOUNT else MAX_SUB_FOLDERS_AMOUNT
  }

  ghost predicate NoDuplicates(slots: seq<int>) {
    forall i, j :: 0 <= i < j < |slots| && slots[i] == slots[j] ==> slots[i] == NULL
  }

  // ---- The invariant -----------------------------------------------------------------

  ghost predicate Shape(t: Tree) {
    && |t.files| == |t.fileMap| == VFS_MAX_FILES_AMOUNT
    && |t.folders| == VFS_MAX_FOLDERS_AMOUNT + 1 && |t.folderMap| == VFS_MAX_FOLDERS_AMOUNT
    && forall d, n :: 0 <= d < |t.folders| ==> |Slots(t, d, n)| == SlotsAmount(n)
  }

  ghost predicate Roots(t: Tree) {
    && ParentOf(t, FolderNode(ROOT)) == NULL
    && NameOf(t, FolderNode(ROOT)) == ROOT_NAME
    && forall d :: LiveFolder(t, d) ==> (IsRoot(t, d) <==> d == ROOT)
  }

  /** Child slots and parent links are mutual. */
  ghost predicate Links(t: Tree) {
    forall p, n :: LiveFolder(t, p) ==> (HasSlot(t, p, n) <==> Live(t, n) && ParentOf(t, n) == p)
  }

  ghost predicate ParentsLive(t: Tree) {
    forall n :: Live(t, n) ==> LiveFolder(t, ParentOf(t, n))
  }

  /** Each child occupies one slot. */
  ghost predicate OneSlotEach(t: Tree) {
    forall p, n :: LiveFolder(t, p) ==> NoDuplicates(Slots(t, p, n))
  }

  /** Sibling names are unique, across files and folders. */
  ghost predicate UniqueNames(t: Tree) {
    forall m, n :: Live(t, m) && Live(t, n) && m != n && ParentOf(t, m) == ParentOf(t, n) ==>
      NameOf(t, m) != NameOf(t, n)
  }

  ghost predicate CharsValid(name: string) {
    forall k :: 0 <= k < |name| ==> name[k] != NUL && name[k] != PATH_DELIMITER
  }

  ghost predicate NameValid(name: string) {
    0 < |name| <= MAX_NAME_LENGTH && CharsValid(name) && name != ROOT_NAME
  }

  /** Names are valid, and those of files leave room for the terminator in the smaller name buffer of files. */
  ghost predicate NamesValid(t: Tree) {
    forall n :: Live(t, n) ==> NameValid(NameOf(t, n)) && (n.FileNode? ==> |NameOf(t, n)| < MAX_NAME_LENGTH)
  }

  /** The k-th ancestor of folder d. */
  ghost function Up(t: Tree, d: int, k: nat): int
    decreases k
  {
    if k == 0 then d else if 0 <= d < |t.folders| then Up(t, t.folders[d].parent, k - 1) else NULL
  }

  ghost predicate Reaches(t: Tree, d: int) {
    exists k: nat :: Up(t, d, k) == ROOT
  }

  /** Every live folder reaches the root. */
  ghost predicate AllReach(t: Tree) {
    forall d :: LiveFolder(t, d) ==> Reaches(t, d)
  }

  ghost predicate Valid(t: Tree) {
    && Shape(t) && Roots(t) && Links(t) && ParentsLive(t) && OneSlotEach(t)
    && UniqueNames(t) && NamesValid(t) && AllReach(t)
  }

  // ---- Ancestors ---------------------------------------------------------------------

  /** d is top or lies below it. */
  ghost predicate Below(t: Tree, top: int, d: int) {
    exists k: nat :: Up(t, d, k) == top
  }

  lemma {:induction false} UpAdd(t: Tree, d: int, j: nat, k: nat)
    ensures Up(t, d, j + k) == Up(t, Up(t, d, j), k)
    decreases j
  {
    if j > 0 && 0 <= d < |t.folders| {
      UpAdd(t, t.folders[d].parent, j - 1, k);
    }
  }

  lemma {:induction false} UpFromNull(t: Tree, k: nat)
    ensures Up(t, NULL, k) == NULL
  {
  }

  lemma AboveRoot(t: Tree, d: int, j: nat, k: nat)
    requires Shape(t) && Roots(t) && Up(t, d, j) == ROOT && j < k
    ensures Up(t, d, k) == NULL
  {
    UpAdd(t, d, j, k - j);
    UpFromNull(t, k - j - 1);
  }

  /** The number of steps from a folder to the root is unique: no folder is its own ancestor. */
  lemma OneDepth(t: Tree, d: int, j: nat, k: nat)
    requires Shape(t) && Roots(t) && Up(t, d, j) == ROOT && Up(t, d, k) == ROOT
    ensures j == k
  {
    if j < k { AboveRoot(t, d, j, k); }
    if k < j { AboveRoot(t, d, k, j); }
  }

  lemma {:induction false} AncestorsLive(t: Tree, d: int, k: nat)
    requires Shape(t) && Roots(t) && ParentsLive(t) && LiveFolder(t, d) && Up(t, d, k) != NULL
    ensures LiveFolder(t, Up(t, d, k))
    decreases k
  {
    if k > 0 && d != ROOT {
      assert Live(t, FolderNode(d));
      AncestorsLive(t, t.folders[d].parent, k - 1);
    }
  }

  lemma BelowStep(t: Tree, top: int, d: int)
    requires 0 <= d < |t.folders|
    ensures Below(t, top, d) <==> d == top || Below(t, top, t.folders[d].parent)
  {
    if Below(t, top, d) {
      var k: nat :| Up(t, d, k) == top;
      if k > 0 { assert Up(t, t.folders[d].parent, k - 1) == top; }
    }
    if d == top { assert Up(t, d, 0) == top; }
    if Below(t, top, t.folders[d].parent) {
      var k: nat :| Up(t, t.folders[d].parent, k) == top;
      assert Up(t, d, k + 1) == top;
    }
  }

  /** Changing the parent of n alone leaves the ancestors of every folder that is not below n. */
  lemma {:induction false} PathKept(t: Tree, t': Tree, n: int, d: int, k: nat)
    requires |t.folders| == |t'.folders|
    requires forall e :: 0 <= e < |t.folders| && e != n && LiveFolder(t, e) ==>
               t'.folders[e].parent == t.folders[e].parent
    requires Shape(t) && Roots(t) && ParentsLive(t) && (LiveFolder(t, d) || d == NULL) && !Below(t, n, d) && n != NULL
    ensures Up(t', d, k) == Up(t, d, k)
    decreases k
  {
    if k > 0 && 0 <= d < |t.folders| {
      BelowStep(t, n, d);
      if d != ROOT {
        assert Live(t, FolderNode(d));
      } else {
        NullBelowNothing(t, n);
      }
      PathKept(t, t', n, t.folders[d].parent, k - 1);
    }
  }

  lemma NullBelowNothing(t: Tree, n: int)
    requires n != NULL
    ensures !Below(t, n, NULL)
  {
    forall k: nat ensures Up(t, NULL, k) != n {
      UpFromNull(t, k);
    }
  }
}
