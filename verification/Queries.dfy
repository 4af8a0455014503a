/** Searching the tree: by name in one folder, along a path, and by name in the whole store (system/queries.c). */
module Queries {
  import opened Settings
  import opened EntryTree
  import opened TreeSteps
  import opened TreeUpdates
  import opened Subtrees
  import opened Entries
  import opened Folders
  import opened Paths
  import opened PathUtils

  // ---- In one folder -----------------------------------------------------------------

  /** Where a search may start: a live folder, or the record that the deletion of a folder leaves behind, without
      children. */
  ghost predicate Browsable(t: Tree, d: int) {
    || LiveFolder(t, d)
    || (0 <= d < VFS_MAX_FOLDERS_AMOUNT
        && AllVacant(Slots(t, d, FileNode(0))) && AllVacant(Slots(t, d, FolderNode(0))))
  }

  /** The assignments that delete a folder leave such a record behind. */
  lemma DeletedIsBrowsable(t: Tree, d: int)
    requires Valid(t) && Live(t, FolderNode(d)) && Childless(t, d)
    ensures InStore(Unlinked(t, FolderNode(d)), FolderNode(d))
    ensures Browsable(PutMark(Unlinked(t, FolderNode(d)), FolderNode(d), false), d)
  {
    LiveEntry(t, FolderNode(d));
    ChildrenAreSlots(t, d);
    UnlinkedEffect(t, FolderNode(d));
    PutMarkEffect(Unlinked(t, FolderNode(d)), FolderNode(d), false);
    hide Valid, Unlinked, PutMark, Shape;
    assert ParentOf(t, FolderNode(d)) != d;
  }

  /** The slots of folder d, as what they hold. */
  lemma SlotsHere(t: Tree, d: int)
    requires Valid(t) && Browsable(t, d)
    ensures 0 <= d < |t.folders|
    ensures Slots(t, d, FileNode(0)) == t.folders[d].subFiles && |t.folders[d].subFiles| == MAX_SUB_FILES_AMOUNT
    ensures Slots(t, d, FolderNode(0)) == t.folders[d].subFolders && |t.folders[d].subFolders| == MAX_SUB_FOLDERS_AMOUNT
    ensures forall m, name :: Checked(t, d, m, name, 0)
  {
    if LiveFolder(t, d) { LiveFolderInRange(t, d); }
    assert |Slots(t, d, FileNode(0))| == SlotsAmount(FileNode(0));
    assert |Slots(t, d, FolderNode(0))| == SlotsAmount(FolderNode(0));
  }

  /** A child in slot i, with the name that the search compares. */
  lemma ChildInSlot(t: Tree, d: int, m: Node, i: nat)
    requires Valid(t) && Browsable(t, d) && i < |Slots(t, d, m)| && Slots(t, d, m)[i] != NULL
    ensures var n := SameKindNode(m, Slots(t, d, m)[i]);
            && n.index == Slots(t, d, m)[i] && NUL !in NameOf(t, n)
            && (m.FileNode? ==>
                 n == FileNode(n.index) && 0 <= n.index < |t.files| && t.files[n.index].name == NameOf(t, n))
            && (m.FolderNode? ==>
                  n == FolderNode(n.index) && 0 <= n.index < |t.folders| && t.folders[n.index].name == NameOf(t, n))
  {
    SlotIsLiveChild(t, d, m, i);
  }

  lemma SlotIsLiveChild(t: Tree, d: int, m: Node, i: nat)
    requires Valid(t) && Browsable(t, d) && i < |Slots(t, d, m)| && Slots(t, d, m)[i] != NULL
    ensures var n := SameKindNode(m, Slots(t, d, m)[i]);
            && Live(t, n) && ParentOf(t, n) == d && InStore(t, n) && CharsValid(NameOf(t, n))
  {
    OccupiedIsLive(t, d, m, i);
    SlotIsChild(t, d, m, i);
  }

  lemma OccupiedIsLive(t: Tree, d: int, m: Node, i: nat)
    requires Browsable(t, d) && i < |Slots(t, d, m)| && Slots(t, d, m)[i] != NULL
    ensures LiveFolder(t, d)
  {
    assert Slots(t, d, m) == if m.FileNode? then Slots(t, d, FileNode(0)) else Slots(t, d, FolderNode(0));
  }

  /** A slot that is vacant or holds an entry with another name has been checked. */
  lemma OneMoreChecked(t: Tree, d: int, m: Node, name: string, i: nat)
    requires i < |Slots(t, d, m)| && Checked(t, d, m, name, i)
    requires Slots(t, d, m)[i] == NULL || NameOf(t, SameKindNode(m, Slots(t, d, m)[i])) != name
    ensures Checked(t, d, m, name, i + 1)
  {
  }

  /** The child of the kind of m that is called name. */
  ghost function ChildOfKind(t: Tree, d: int, m: Node, name: string): Lookup {
    if m.FileNode? then ChildFile(t, d, name) else ChildFolder(t, d, name)
  }

  lemma SlotFound(t: Tree, d: int, m: Node, i: nat, name: string)
    requires Valid(t) && Browsable(t, d) && i < |Slots(t, d, m)| && Slots(t, d, m)[i] != NULL
    requires NameOf(t, SameKindNode(m, Slots(t, d, m)[i])) == name
    ensures ChildOfKind(t, d, m, name) == Found(SameKindNode(m, Slots(t, d, m)[i]))
  {
    var n := SameKindNode(m, Slots(t, d, m)[i]);
    SlotIsLiveChild(t, d, m, i);
    assert IsChild(t, d, n, name);
    if m.FileNode? { assert HasFile(t, d, name); } else { assert HasFolder(t, d, name); }
  }

  lemma CheckedChild(t: Tree, d: int, m: Node, n: Node, name: string)
    requires Valid(t) && Browsable(t, d) && Checked(t, d, m, name, |Slots(t, d, m)|)
    requires Live(t, n) && ParentOf(t, n) == d && SameKind(m, n)
    ensures NameOf(t, n) != name
  {
    assert LiveFolder(t, d) && HasSlot(t, d, n);
    var slots := Slots(t, d, m);
    var j :| 0 <= j < |slots| && slots[j] == n.index;
    assert SameKindNode(m, slots[j]) == n;
  }

  lemma NoSlotFound(t: Tree, d: int, m: Node, name: string)
    requires Valid(t) && Browsable(t, d) && Checked(t, d, m, name, |Slots(t, d, m)|)
    ensures ChildOfKind(t, d, m, name) == Missing(SearchTargetNotFound)
  {
    forall n | Live(t, n) && ParentOf(t, n) == d && SameKind(m, n) ensures NameOf(t, n) != name {
      CheckedChild(t, d, m, n, name);
    }
  }

  /** A status with an entry, as the answer l. */
  ghost predicate Answers(status: Status, node: Node, l: Lookup) {
    match l
    case Found(n) => status == Success && node == n
    case Missing(s) => status == s != Success
  }

  /** search_sub_folder. The name may lack or contain a terminator. */
  method SearchSubFolder(s: VFSEntryStore, d: int, name: seq<char>) returns (status: Status, result: int)
    requires s.Valid() && Browsable(s.View(), d)
    ensures Answers(status, FolderNode(result),
                    if Searchable(name) then ChildFolder(s.View(), d, CString(name)) else Missing(InvalidArgument))
    ensures status == SearchTargetNotFound ==> result == NULL
  {
    ghost var t, m := s.View(), FolderNode(0);
    SlotsHere(t, d);
    assert t.folders == s.folders[..] && t.files == s.files[..];
    assert forall text :: ChildOfKind(t, d, m, text) == ChildFolder(t, d, text);
    hide EntryTree.Valid, VFSEntryStore.Valid, VFSEntryStore.View, Browsable, Slots, NameOf;
    hide Checked, ChildOfKind, ChildFolder, CString;
    if |name| == 0 || |name| > MAX_NAME_LENGTH { return InvalidArgument, NULL; }
    for i := 0 to MAX_SUB_FOLDERS_AMOUNT
      invariant Checked(t, d, m, CString(name), i)
    {
      if s.folders[d].subFolders[i] != NULL {
        ChildInSlot(t, d, m, i);
        var equal;
        status, equal := NameEq(s.folders[s.folders[d].subFolders[i]].name, name);
        if status != Success { return status, NULL; }
        if equal {
          SlotFound(t, d, m, i, CString(name));
          return Success, s.folders[d].subFolders[i];
        }
      }
      OneMoreChecked(t, d, m, CString(name), i);
    }
    NoSlotFound(t, d, m, CString(name));
    return SearchTargetNotFound, NULL;
  }

  /** search_sub_file. The name may lack or contain a terminator. */
  method SearchSubFile(s: VFSEntryStore, d: int, name: seq<char>) returns (status: Status, result: int)
    requires s.Valid() && Browsable(s.View(), d)
    ensures Answers(status, FileNode(result),
                    if Searchable(name) then ChildFile(s.View(), d, CString(name)) else Missing(InvalidArgument))
    ensures status == SearchTargetNotFound ==> result == NULL
  {
    ghost var t, m := s.View(), FileNode(0);
    SlotsHere(t, d);
    assert t.folders == s.folders[..] && t.files == s.files[..];
    assert forall text :: ChildOfKind(t, d, m, text) == ChildFile(t, d, text);
    hide EntryTree.Valid, VFSEntryStore.Valid, VFSEntryStore.View, Browsable, Slots, NameOf;
    hide Checked, ChildOfKind, ChildFile, CString;
    if |name| == 0 || |name| > MAX_NAME_LENGTH { return InvalidArgument, NULL; }
    for i := 0 to MAX_SUB_FILES_AMOUNT
      invariant Checked(t, d, m, CString(name), i)
    {
      if s.folders[d].subFiles[i] != NULL {
        ChildInSlot(t, d, m, i);
        var equal;
        status, equal := NameEq(s.files[s.folders[d].subFiles[i]].name, name);
        if status != Success { return status, NULL; }
        if equal {
          SlotFound(t, d, m, i, CString(name));
          return Success, s.folders[d].subFiles[i];
        }
      }
      OneMoreChecked(t, d, m, CString(name), i);
    }
    NoSlotFound(t, d, m, CString(name));
    return SearchTargetNotFound, NULL;
  }

  /** get_vfs_node, for a name that ends at its terminator. */
  method GetVfsNode(s: VFSEntryStore, name: string, d: int) returns (status: Status, node: Node)
    requires s.Valid() && Browsable(s.View(), d) && NUL !in name
    ensures Answers(status, node, EntryNamed(s.View(), d, name))
  {
    hide EntryTree.Valid, VFSEntryStore.Valid, VFSEntryStore.View, Browsable, ChildFile, ChildFolder, CString;
    CStringOfText(name);
    var file, folder;
    status, file := SearchSubFile(s, d, name);
    node := FileNode(file);
    if status == Success { return; }
    if status != SearchTargetNotFound { return; }
    status, folder := SearchSubFolder(s, d, name);
    node := FolderNode(folder);
  }

  // ---- Along a path ------------------------------------------------------------------

  /** The components as C strings. */
  ghost function Texts(components: seq<seq<char>>): (texts: seq<string>)
    ensures |texts| == |components|
  {
    seq(|components|, i requires 0 <= i < |components| => CString(components[i]))
  }

  /** Where the characters of path lead from folder d. */
  ghost function PathLookup(t: Tree, d: int, path: seq<char>): Lookup {
    if path == [] then Missing(PathIsEmpty)
    else
      var status := ParseStatus(Components(path), MAX_NAME_LENGTH, MAX_PATH_NODES_AMOUNT);
      if status != Success then Missing(status) else Resolve(t, d, Texts(Components(path)))
  }

  lemma {:induction false} CStringOfRow(row: seq<char>, text: seq<char>)
    requires RowHolds(row, text)
    ensures CString(row) == CString(text) && NUL in row && NUL !in CString(text)
  {
    assert row[|text|] == NUL;
    if text == [] {
    } else {
      assert row[0] == text[0];
      if text[0] != NUL {
        assert row[1..][..|text| - 1] == text[1..] && row[1..][|text| - 1] == NUL;
        CStringOfRow(row[1..], text[1..]);
      }
    }
  }

  lemma CStringStep(row: seq<char>, j: nat)
    requires j < |row| && NUL !in row[..j] && NUL in row
    ensures row[j] == NUL ==> CString(row) == row[..j]
    ensures row[j] != NUL ==> j + 1 < |row| && NUL !in row[..j + 1]
  {
    if row[j] == NUL { CStringIs(row, j); }
    assert row[..j + 1] == row[..j] + [row[j]];
    if j + 1 == |row| { assert row[..j + 1] == row; }
  }

  /** strlen on a name buffer, and the text it delimits. */
  method RowText(names: array2<char>, i: nat) returns (text: string)
    requires i < names.Length0 && NUL in Rows(names)[i]
    ensures text == CString(Rows(names)[i])
  {
    ghost var row := Rows(names)[i];
    assert |row| == names.Length1 && forall j :: 0 <= j < |row| ==> row[j] == names[i, j];
    text := [];
    var j := 0;
    CStringStep(row, 0);
    while names[i, j] != NUL
      invariant j < names.Length1 && text == row[..j] && NUL !in row[..j]
      decreases names.Length1 - j
    {
      CStringStep(row, j);
      text := text + [names[i, j]];
      j := j + 1;
    }
    CStringStep(row, j);
  }

  /** resolve_path: splits the path, then looks names up one by one from folder d. */
  method ResolvePath(s: VFSEntryStore, path: seq<char>, d: int) returns (status: Status, node: Node)
    requires s.Valid() && Browsable(s.View(), d)
    ensures Answers(status, node, PathLookup(s.View(), d, path))
  {
    ghost var t := s.View();
    node := FolderNode(NULL);
    if |path| == 0 { return PathIsEmpty, node; }
    var names := new char[MAX_PATH_NODES_AMOUNT, MAX_NAME_LENGTH];
    var amount;
    status, amount := ParsePath(path, names);
    if status != Success { return status, node; }
    if amount == 0 { return PathIsEmpty, node; }
    status, node := ResolveRows(s, names, amount, Components(path), d);
  }

  /** The names of resolve_path, once they are in their buffers. */
  ghost predicate RowsHold(rows: seq<seq<char>>, components: seq<seq<char>>) {
    |components| <= |rows| && forall r :: 0 <= r < |components| ==> RowHolds(rows[r], components[r])
  }

  /** The loop of resolve_path and what follows it. */
  method ResolveRows(s: VFSEntryStore, names: array2<char>, amount: nat, ghost components: seq<seq<char>>, d: int)
    returns (status: Status, node: Node)
    requires s.Valid() && Browsable(s.View(), d)
    requires 0 < amount == |components| && RowsHold(Rows(names), components)
    ensures Answers(status, node, Resolve(s.View(), d, Texts(components)))
  {
    ghost var t, texts := s.View(), Texts(components);
    var cur := d;
    assert texts[0..] == texts;
    for i := 0 to amount - 1
      invariant Browsable(t, cur) && Resolve(t, d, texts) == Resolve(t, cur, texts[i..])
    {
      RowIsText(names, components, i);
      var name := RowText(names, i);
      ResolveFirst(t, cur, texts, i);
      var next;
      status, next := SearchSubFolder(s, cur, name);
      if status != Success { return status, FolderNode(NULL); }
      cur := next;
    }
    RowIsText(names, components, amount - 1);
    var name := RowText(names, amount - 1);
    assert texts[amount - 1..] == [name];
    status, node := GetVfsNode(s, name, cur);
  }

  lemma RowIsText(names: array2<char>, components: seq<seq<char>>, i: nat)
    requires RowsHold(Rows(names), components) && i < |components|
    ensures i < names.Length0 && NUL in Rows(names)[i]
    ensures CString(Rows(names)[i]) == Texts(components)[i] && NUL !in Texts(components)[i]
  {
    assert RowHolds(Rows(names)[i], components[i]);
    CStringOfRow(Rows(names)[i], components[i]);
  }

  /** One step of a resolution with names left behind it. */
  lemma ResolveFirst(t: Tree, cur: int, texts: seq<string>, i: nat)
    requires Valid(t) && Browsable(t, cur) && i + 1 < |texts| && NUL !in texts[i]
    ensures CString(texts[i]) == texts[i]
    ensures FolderNamed(t, cur, texts[i]) ==
            if Searchable(texts[i]) then ChildFolder(t, cur, texts[i]) else Missing(InvalidArgument)
    ensures match FolderNamed(t, cur, texts[i])
            case Found(c) =>
              && c.FolderNode? && LiveFolder(t, c.index)
              && Resolve(t, cur, texts[i..]) == Resolve(t, c.index, texts[i + 1..])
            case Missing(e) => Resolve(t, cur, texts[i..]) == Missing(e)
  {
    CStringOfText(texts[i]);
    assert texts[i..][0] == texts[i] && texts[i..][1..] == texts[i + 1..];
  }

  // ---- In the whole store ------------------------------------------------------------

  /** The live files called name among the first k positions, in their order. */
  ghost function FilesCalled(t: Tree, name: string, k: nat): seq<Node> {
    if k == 0 then []
    else FilesCalled(t, name, k - 1) + if Called(t, FileNode(k - 1), name) then [FileNode(k - 1)] else []
  }

  ghost function FoldersCalled(t: Tree, name: string, k: nat): seq<Node> {
    if k == 0 then []
    else FoldersCalled(t, name, k - 1) + if Called(t, FolderNode(k - 1), name) then [FolderNode(k - 1)] else []
  }

  ghost predicate Called(t: Tree, n: Node, name: string) {
    Live(t, n) && NameOf(t, n) == name
  }

  /** All files called name, and then the folders called so among the first k positions. */
  ghost function CalledUpTo(t: Tree, name: string, k: nat): seq<Node> {
    FilesCalled(t, name, VFS_MAX_FILES_AMOUNT) + FoldersCalled(t, name, k)
  }

  ghost function AllCalled(t: Tree, name: string): seq<Node> {
    CalledUpTo(t, name, VFS_MAX_FOLDERS_AMOUNT)
  }

  ghost predicate EachOnce(nodes: seq<Node>) {
    forall i, j :: 0 <= i < j < |nodes| ==> nodes[i] != nodes[j]
  }

  lemma {:induction false} FilesCalledAre(t: Tree, name: string, k: nat)
    ensures forall n :: n in FilesCalled(t, name, k) <==> n.FileNode? && 0 <= n.index < k && Called(t, n, name)
    ensures EachOnce(FilesCalled(t, name, k))
  {
    if k > 0 { FilesCalledAre(t, name, k - 1); }
  }

  lemma {:induction false} FoldersCalledAre(t: Tree, name: string, k: nat)
    ensures forall n :: n in FoldersCalled(t, name, k) <==> n.FolderNode? && 0 <= n.index < k && Called(t, n, name)
    ensures EachOnce(FoldersCalled(t, name, k))
  {
    if k > 0 { FoldersCalledAre(t, name, k - 1); }
  }

  /** The root folder leads down to n along child slots, past k folders. */
  ghost predicate Reached(t: Tree, n: Node, k: nat)
    decreases k
  {
    if k == 0 then HasSlot(t, ROOT, n)
    else exists c :: Reached(t, FolderNode(c), k - 1) && HasSlot(t, c, n)
  }

  /** A walk down from the root meets n. */
  ghost predicate ReachedFromRoot(t: Tree, n: Node) {
    exists k: nat :: Reached(t, n, k)
  }

  lemma {:induction false} ReachedIsLive(t: Tree, n: Node, k: nat)
    requires Valid(t) && Reached(t, n, k)
    ensures Live(t, n)
    decreases k
  {
    hide Valid, HasSlot;
    if k > 0 {
      var c :| Reached(t, FolderNode(c), k - 1) && HasSlot(t, c, n);
      ReachedIsLive(t, FolderNode(c), k - 1);
      InSlotIsLive(t, c, n);
    } else {
      InSlotIsLive(t, ROOT, n);
    }
  }

  lemma InSlotIsLive(t: Tree, c: int, n: Node)
    requires Valid(t) && LiveFolder(t, c) && HasSlot(t, c, n)
    ensures Live(t, n)
  {
  }

  lemma ParentHolds(t: Tree, n: Node)
    requires Valid(t) && Live(t, n)
    ensures LiveFolder(t, ParentOf(t, n)) && HasSlot(t, ParentOf(t, n), n)
  {
  }

  lemma {:induction false} LiveIsReached(t: Tree, n: Node, k: nat)
    requires Valid(t) && Live(t, n) && Up(t, ParentOf(t, n), k) == ROOT
    ensures Reached(t, n, k)
    decreases k
  {
    hide Valid, HasSlot, Live, LiveFolder, ParentOf;
    ParentHolds(t, n);
    if k > 0 {
      var p := ParentOf(t, n);
      FromRootUp(t, p, k);
      UpFrom(t, p, k);
      LiveIsReached(t, FolderNode(p), k - 1);
    }
  }

  /** The entries marked in the two maps are exactly those that a walk down from the root meets. */
  lemma LiveIffReached(t: Tree, n: Node)
    requires Valid(t)
    ensures Live(t, n) <==> ReachedFromRoot(t, n)
  {
    hide Valid, Live, LiveFolder, HasSlot, Reached, Up, Depth;
    if Live(t, n) {
      ParentHolds(t, n);
      var k := Depth(t, ParentOf(t, n));
      LiveIsReached(t, n, k);
    }
    if ReachedFromRoot(t, n) {
      var k: nat :| Reached(t, n, k);
      ReachedIsLive(t, n, k);
    }
  }

  lemma LiveInRange(t: Tree, n: Node)
    requires Valid(t) && Live(t, n)
    ensures 0 <= n.index < if n.FileNode? then VFS_MAX_FILES_AMOUNT else VFS_MAX_FOLDERS_AMOUNT
  {
  }

  /** A search lists files before folders, and each kind in the order of the records. */
  lemma {:induction false} AllCalledInOrder(t: Tree, name: string, i: nat, j: nat)
    requires i < j < |AllCalled(t, name)|
    ensures var m, n := AllCalled(t, name)[i], AllCalled(t, name)[j];
            if m.FileNode? == n.FileNode? then m.index < n.index else m.FileNode?
  {
    var k := |FilesCalled(t, name, VFS_MAX_FILES_AMOUNT)|;
    FilesCalledAre(t, name, VFS_MAX_FILES_AMOUNT);
    FoldersCalledAre(t, name, VFS_MAX_FOLDERS_AMOUNT);
    hide FilesCalled, FoldersCalled;
    if j < k { FilesAscend(t, name, VFS_MAX_FILES_AMOUNT, i, j); }
    if i >= k { FoldersAscend(t, name, VFS_MAX_FOLDERS_AMOUNT, i - k, j - k); }
    if i < k { assert AllCalled(t, name)[i] in FilesCalled(t, name, VFS_MAX_FILES_AMOUNT); }
    if j < k { assert AllCalled(t, name)[j] in FilesCalled(t, name, VFS_MAX_FILES_AMOUNT); }
    if i >= k { assert AllCalled(t, name)[i] in FoldersCalled(t, name, VFS_MAX_FOLDERS_AMOUNT); }
    if j >= k { assert AllCalled(t, name)[j] in FoldersCalled(t, name, VFS_MAX_FOLDERS_AMOUNT); }
  }

  lemma {:induction false} FilesAscend(t: Tree, name: string, k: nat, i: nat, j: nat)
    requires i < j < |FilesCalled(t, name, k)|
    ensures FilesCalled(t, name, k)[i].index < FilesCalled(t, name, k)[j].index
    decreases k
  {
    var less := FilesCalled(t, name, k - 1);
    if j < |less| {
      FilesAscend(t, name, k - 1, i, j);
    } else {
      FilesCalledAre(t, name, k - 1);
      assert less[i] in less;
    }
  }

  lemma {:induction false} FoldersAscend(t: Tree, name: string, k: nat, i: nat, j: nat)
    requires i < j < |FoldersCalled(t, name, k)|
    ensures FoldersCalled(t, name, k)[i].index < FoldersCalled(t, name, k)[j].index
    decreases k
  {
    var less := FoldersCalled(t, name, k - 1);
    if j < |less| {
      FoldersAscend(t, name, k - 1, i, j);
    } else {
      FoldersCalledAre(t, name, k - 1);
      assert less[i] in less;
    }
  }

  /** The search through the flat store finds what a walk down from the root would find, each entry once. */
  lemma FlatSearchIsTraversal(t: Tree, name: string)
    requires Valid(t)
    ensures forall n :: n in AllCalled(t, name) <==> NameOf(t, n) == name && ReachedFromRoot(t, n)
    ensures forall i, j :: 0 <= i < j < |AllCalled(t, name)| ==> AllCalled(t, name)[i] != AllCalled(t, name)[j]
  {
    hide Valid, Live, LiveFolder, ReachedFromRoot, FilesCalled, FoldersCalled, NameOf;
    FilesCalledAre(t, name, VFS_MAX_FILES_AMOUNT);
    FoldersCalledAre(t, name, VFS_MAX_FOLDERS_AMOUNT);
    NoneTwice(FilesCalled(t, name, VFS_MAX_FILES_AMOUNT), FoldersCalled(t, name, VFS_MAX_FOLDERS_AMOUNT));
    forall n ensures n in AllCalled(t, name) <==> NameOf(t, n) == name && ReachedFromRoot(t, n) {
      LiveIffReached(t, n);
      if Live(t, n) { LiveInRange(t, n); }
    }
  }

  lemma NoneTwice(x: seq<Node>, y: seq<Node>)
    requires forall n :: n in x ==> n.FileNode?
    requires forall n :: n in y ==> n.FolderNode?
    requires EachOnce(x) && EachOnce(y)
    ensures EachOnce(x + y)
  {
    forall i, j | 0 <= i < j < |x + y| ensures (x + y)[i] != (x + y)[j] {
      if i < |x| { assert (x + y)[i] in x; } else { assert (x + y)[i] == y[i - |x|]; }
      if j < |x| { assert (x + y)[j] in x; } else { assert (x + y)[j] == y[j - |x|] && y[j - |x|] in y; }
    }
  }

  /** The buffer holds the first amount of found, and behind them what it held before. */
  ghost predicate Listed(was: seq<Node>, now: seq<Node>, found: seq<Node>, amount: nat) {
    && |was| == |now|
    && amount <= |found| && amount <= |now|
    && now[..amount] == found[..amount] && now[amount..] == was[amount..]
  }

  lemma NothingListed(was: seq<Node>, found: seq<Node>)
    ensures Listed(was, was, found, 0)
  {
  }

  lemma ListedEntries(was: seq<Node>, now: seq<Node>, found: seq<Node>, amount: nat)
    requires Listed(was, now, found, amount)
    ensures amount <= |found| && amount <= |now| == |was|
    ensures forall i :: 0 <= i < amount ==> now[i] == found[i]
    ensures forall i :: amount <= i < |now| ==> now[i] == was[i]
  {
    assert forall i :: 0 <= i < amount ==> now[i] == now[..amount][i] && found[i] == found[..amount][i];
    assert forall i :: amount <= i < |now| ==>
             now[i] == now[amount..][i - amount] && was[i] == was[amount..][i - amount];
  }

  lemma ListedLonger(was: seq<Node>, now: seq<Node>, found: seq<Node>, all: seq<Node>, amount: nat)
    requires Listed(was, now, found, amount) && found <= all
    ensures Listed(was, now, all, amount)
  {
    assert all[..amount] == found[..amount];
  }

  /** One entry more in the buffer, when there is room. */
  method Put(n: Node, out: array<Node>, amount: nat, ghost was: seq<Node>, ghost found: seq<Node>)
    returns (status: Status, amount': nat)
    requires amount == |found| && Listed(was, out[..], found, amount)
    modifies out
    ensures status == if amount >= out.Length then DataOverFlow else Success
    ensures status == Success ==> amount' == amount + 1 && Listed(was, out[..], found + [n], amount')
    ensures status != Success ==> amount' == amount && Listed(was, out[..], found, amount)
  {
    if amount >= out.Length { return DataOverFlow, amount; }
    ghost var mid := out[..];
    out[amount] := n;
    assert out[..] == mid[amount := n];
    assert out[amount + 1..] == mid[amount..][1..] == was[amount..][1..];
    assert (found + [n])[..amount + 1] == mid[..amount] + [n];
    return Success, amount + 1;
  }

  lemma {:induction false} FilesCalledGrow(t: Tree, name: string, i: nat, k: nat)
    requires i <= k
    ensures FilesCalled(t, name, i) <= FilesCalled(t, name, k)
    decreases k
  {
    if i < k { FilesCalledGrow(t, name, i, k - 1); }
  }

  lemma {:induction false} FoldersCalledGrow(t: Tree, name: string, i: nat, k: nat)
    requires i <= k
    ensures FoldersCalled(t, name, i) <= FoldersCalled(t, name, k)
    decreases k
  {
    if i < k { FoldersCalledGrow(t, name, i, k - 1); }
  }

  /** Position i of the files: what it adds to the entries found. */
  lemma FilePosition(s: VFSEntryStore, name: string, i: nat)
    requires s.Valid() && i < VFS_MAX_FILES_AMOUNT
    ensures i < s.filesMap.Length && i < s.files.Length
    ensures var t, n := s.View(), FileNode(i);
            && (s.filesMap[i] ==> NUL !in s.files[i].name)
            && (Called(t, n, name) <==> s.filesMap[i] && s.files[i].name == name)
            && FilesCalled(t, name, i + 1) == FilesCalled(t, name, i) + (if Called(t, n, name) then [n] else [])
            && FilesCalled(t, name, i + 1) <= AllCalled(t, name)
  {
    var t := s.View();
    FilesCalledGrow(t, name, i + 1, VFS_MAX_FILES_AMOUNT);
    if s.filesMap[i] {
      assert Live(t, FileNode(i));
      assert CharsValid(NameOf(t, FileNode(i)));
    }
  }

  lemma FolderPosition(s: VFSEntryStore, name: string, i: nat)
    requires s.Valid() && i < VFS_MAX_FOLDERS_AMOUNT
    ensures i < s.foldersMap.Length && i < s.folders.Length
    ensures var t, n := s.View(), FolderNode(i);
            && (s.foldersMap[i] ==> NUL !in s.folders[i].name)
            && (Called(t, n, name) <==> s.foldersMap[i] && s.folders[i].name == name)
            && CalledUpTo(t, name, i + 1) == CalledUpTo(t, name, i) + (if Called(t, n, name) then [n] else [])
            && CalledUpTo(t, name, i + 1) <= AllCalled(t, name)
  {
    var t := s.View();
    FoldersCalledGrow(t, name, i + 1, VFS_MAX_FOLDERS_AMOUNT);
    if s.foldersMap[i] {
      assert Live(t, FolderNode(i));
      assert CharsValid(NameOf(t, FolderNode(i)));
    }
  }

  /** The state of the search after the first i files. */
  ghost predicate FilesSearched(out: array<Node>, was: seq<Node>, t: Tree, name: string, i: nat, amount: nat)
    reads out
  {
    amount == |FilesCalled(t, name, i)| && Listed(was, out[..], FilesCalled(t, name, i), amount)
  }

  /** The state of the search after all files and the first i folders. */
  ghost predicate FoldersSearched(out: array<Node>, was: seq<Node>, t: Tree, name: string, i: nat, amount: nat)
    reads out
  {
    amount == |CalledUpTo(t, name, i)| && Listed(was, out[..], CalledUpTo(t, name, i), amount)
  }

  /** The state in which the search gives up: the buffer is full and an entry is left over. */
  ghost predicate Overflown(out: array<Node>, was: seq<Node>, t: Tree, name: string, amount: nat)
    reads out
  {
    amount == out.Length < |AllCalled(t, name)| && Listed(was, out[..], AllCalled(t, name), amount)
  }

  /** One round of the loop over the files. */
  method ConsiderFile(s: VFSEntryStore, name: seq<char>, out: array<Node>, i: nat, amount: nat, ghost was: seq<Node>)
    returns (status: Status, amount': nat)
    requires s.Valid() && name != [] && i < VFS_MAX_FILES_AMOUNT
    requires FilesSearched(out, was, s.View(), CString(name), i, amount)
    modifies out
    ensures status == Success || status == DataOverFlow
    ensures status == Success ==> FilesSearched(out, was, s.View(), CString(name), i + 1, amount')
    ensures status != Success ==> Overflown(out, was, s.View(), CString(name), amount')
  {
    ghost var text := CString(name);
    ghost var found := FilesCalled(s.View(), text, i);
    FilePosition(s, text, i);
    hide EntryTree.Valid, VFSEntryStore.Valid, VFSEntryStore.View, Called, FilesCalled, CString, AllCalled, Listed;
    if s.filesMap[i] {
      var equal;
      status, equal := NameEq(s.files[i].name, name);
      if status != Success { return status, amount; }
      if equal {
        status, amount' := Put(FileNode(i), out, amount, was, found);
        if status != Success { ListedLonger(was, out[..], found, AllCalled(s.View(), text), amount); }
        return status, amount';
      }
    }
    return Success, amount;
  }

  lemma SearchStarts(out: array<Node>, t: Tree, name: string)
    ensures FilesSearched(out, out[..], t, name, 0, 0)
  {
  }

  lemma FoldersNext(out: array<Node>, was: seq<Node>, t: Tree, name: string, amount: nat)
    requires FilesSearched(out, was, t, name, VFS_MAX_FILES_AMOUNT, amount)
    ensures FoldersSearched(out, was, t, name, 0, amount)
  {
    assert CalledUpTo(t, name, 0) == FilesCalled(t, name, VFS_MAX_FILES_AMOUNT);
  }

  lemma SearchEnds(out: array<Node>, was: seq<Node>, t: Tree, name: string, amount: nat)
    requires FoldersSearched(out, was, t, name, VFS_MAX_FOLDERS_AMOUNT, amount)
    ensures amount == |AllCalled(t, name)| <= out.Length && Listed(was, out[..], AllCalled(t, name), amount)
  {
  }

  /** One round of the loop over the folders. */
  method ConsiderFolder(s: VFSEntryStore, name: seq<char>, out: array<Node>, i: nat, amount: nat, ghost was: seq<Node>)
    returns (status: Status, amount': nat)
    requires s.Valid() && name != [] && i < VFS_MAX_FOLDERS_AMOUNT
    requires FoldersSearched(out, was, s.View(), CString(name), i, amount)
    modifies out
    ensures status == Success || status == DataOverFlow
    ensures status == Success ==> FoldersSearched(out, was, s.View(), CString(name), i + 1, amount')
    ensures status != Success ==> Overflown(out, was, s.View(), CString(name), amount')
  {
    ghost var text := CString(name);
    ghost var found := CalledUpTo(s.View(), text, i);
    FolderPosition(s, text, i);
    hide EntryTree.Valid, VFSEntryStore.Valid, VFSEntryStore.View, Called, CalledUpTo, CString, AllCalled, Listed;
    if s.foldersMap[i] {
      var equal;
      status, equal := NameEq(s.folders[i].name, name);
      if status != Success { return status, amount; }
      if equal {
        status, amount' := Put(FolderNode(i), out, amount, was, found);
        if status != Success { ListedLonger(was, out[..], found, AllCalled(s.View(), text), amount); }
        return status, amount';
      }
    }
    return Success, amount;
  }

  /** The two loops of global_search_nodes_by_name. */
  method SearchStore(s: VFSEntryStore, name: seq<char>, out: array<Node>) returns (status: Status, amount: nat)
    requires s.Valid() && name != []
    modifies out
    ensures status == Success || status == DataOverFlow
    ensures status == Success ==>
              FoldersSearched(out, old(out[..]), s.View(), CString(name), VFS_MAX_FOLDERS_AMOUNT, amount)
    ensures status != Success ==> Overflown(out, old(out[..]), s.View(), CString(name), amount)
  {
    hide *;
    ghost var t, text, was := s.View(), CString(name), out[..];
    SearchStarts(out, t, text);
    amount := 0;
    for i := 0 to VFS_MAX_FILES_AMOUNT
      invariant FilesSearched(out, was, t, text, i, amount)
    {
      status, amount := ConsiderFile(s, name, out, i, amount, was);
      if status != Success { return status, amount; }
    }
    FoldersNext(out, was, t, text, amount);
    for i := 0 to VFS_MAX_FOLDERS_AMOUNT
      invariant FoldersSearched(out, was, t, text, i, amount)
    {
      status, amount := ConsiderFolder(s, name, out, i, amount, was);
      if status != Success { return status, amount; }
    }
    return Success, amount;
  }

  /** global_search_nodes_by_name: fails exactly when more entries have the name than the buffer holds. */
  method GlobalSearchNodesByName(s: VFSEntryStore, name: seq<char>, out: array<Node>)
    returns (status: Status, amount: nat)
    requires s.Valid()
    modifies out
    ensures var all := AllCalled(s.View(), CString(name));
            && status == (if out.Length == 0 then InsufficientArrayPassed
                          else if name == [] then InvalidOperation
                          else if |all| > out.Length then DataOverFlow
                          else Success)
            && amount == (if out.Length == 0 || name == [] then 0 else if |all| > out.Length then out.Length else |all|)
            && Listed(old(out[..]), out[..], all, amount)
            && amount <= |all| && amount <= out.Length
            && (forall i :: 0 <= i < amount ==> out[i] == all[i])
            && forall i :: amount <= i < out.Length ==> out[i] == old(out[..])[i]
  {
    hide EntryTree.Valid, AllCalled, CString, FoldersSearched, Listed;
    ghost var was := out[..];
    amount := 0;
    NothingListed(was, AllCalled(s.View(), CString(name)));
    if out.Length == 0 { return InsufficientArrayPassed, amount; }
    if |name| == 0 { return InvalidOperation, amount; }
    status, amount := SearchStore(s, name, out);
    if status == Success { SearchEnds(out, old(out[..]), s.View(), CString(name), amount); }
    ListedEntries(was, out[..], AllCalled(s.View(), CString(name)), amount);
  }
}
