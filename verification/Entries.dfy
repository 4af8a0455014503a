/** The entry store: the fixed arrays that hold files and folders and the maps that say which positions are taken
    (system/include/vfs_entry_store.h, system/include/folders.h). */
module Entries {
  import opened Settings
  import opened EntryTree
  import opened FileStorage
  import opened FileRuns

  class VFSEntryStore {
    const files: array<FileEntry>
    const folders: array<Folder>
    const filesMap: array<bool>
    const foldersMap: array<bool>
    /** The storage halves of the files, position by position. */
    const fileData: seq<File>

    ghost predicate Wired()
      reads files, folders
    {
      && files.Length == filesMap.Length == |fileData| == VFS_MAX_FILES_AMOUNT
      && folders.Length == VFS_MAX_FOLDERS_AMOUNT + 1 && foldersMap.Length == VFS_MAX_FOLDERS_AMOUNT
      && filesMap != foldersMap && Separate(fileData)
      && forall d :: 0 <= d < folders.Length ==>
           |folders[d].subFiles| == MAX_SUB_FILES_AMOUNT && |folders[d].subFolders| == MAX_SUB_FOLDERS_AMOUNT
    }

    ghost function View(): Tree
      reads files, folders, filesMap, foldersMap
    {
      Tree(files[..], folders[..], filesMap[..], foldersMap[..])
    }

    /** Well wired, with a valid tree in it. */
    ghost predicate Valid()
      reads files, folders, filesMap, foldersMap
    {
      Wired() && EntryTree.Valid(View())
    }

    /** The store as memory: arrays of the right size, with any content. */
    constructor (files: array<FileEntry>, folders: array<Folder>, filesMap: array<bool>, foldersMap: array<bool>,
                 fileData: seq<File>)
      ensures this.files == files && this.folders == folders && this.filesMap == filesMap
      ensures this.foldersMap == foldersMap && this.fileData == fileData
    {
      this.files, this.folders, this.filesMap, this.foldersMap := files, folders, filesMap, foldersMap;
      this.fileData := fileData;
    }

    /** vfs_entry_store_init with root_folder_init: whatever was in memory, the tree is then valid and holds the root
        only. */
    method Init() returns (status: Status)
      requires Wired()
      modifies folders, filesMap, foldersMap
      ensures Wired() && forall n :: !Live(View(), n)
      ensures status == if |ROOT_NAME| > MAX_NAME_LENGTH then DataOverFlow else Success
      ensures status == Success ==> Valid()
    {
      for i := 0 to VFS_MAX_FILES_AMOUNT
        invariant forall j :: 0 <= j < i ==> !filesMap[j]
        invariant forall d :: 0 <= d < folders.Length ==> folders[d] == old(folders[d])
      {
        filesMap[i] := false;
      }
      for i := 0 to VFS_MAX_FOLDERS_AMOUNT
        invariant forall j :: 0 <= j < i ==> !foldersMap[j]
        invariant forall j :: 0 <= j < VFS_MAX_FILES_AMOUNT ==> !filesMap[j]
        invariant forall d :: 0 <= d < folders.Length ==> folders[d] == old(folders[d])
      {
        foldersMap[i] := false;
      }
      if |ROOT_NAME| > MAX_NAME_LENGTH { return DataOverFlow; }
      folders[ROOT] := Folder(NULL, true, ROOT_NAME,
                              NoEntries(MAX_SUB_FILES_AMOUNT), NoEntries(MAX_SUB_FOLDERS_AMOUNT));
      assert Up(View(), ROOT, 0) == ROOT;
      return Success;
    }
  }

  /** folder_free_sub_entries: n vacant slots. */
  function NoEntries(n: nat): seq<int> {
    seq(n, _ => NULL)
  }

  // ---- Names -------------------------------------------------------------------------

  /** The text of a C string: what precedes the first terminator. */
  function CString(s: seq<char>): string {
    if s == [] || s[0] == NUL then [] else [s[0]] + CString(s[1..])
  }

  lemma {:induction false} CStringOfText(s: seq<char>)
    requires NUL !in s
    ensures CString(s) == s
  {
    if s != [] { CStringOfText(s[1..]); }
  }

  lemma {:induction false} CStringIs(s: seq<char>, n: nat)
    requires n <= |s| && NUL !in s[..n] && (n < |s| ==> s[n] == NUL)
    ensures CString(s) == s[..n]
  {
    if n > 0 {
      assert s[0] == s[..n][0] && s[1..][..n - 1] == s[..n][1..];
      CStringIs(s[1..], n - 1);
      assert s[..n] == [s[0]] + s[1..][..n - 1];
    }
  }

  /** name_eq: compares the name of an entry with a name that may lack or contain a terminator. */
  method NameEq(initialised: string, name: seq<char>) returns (status: Status, equal: bool)
    requires NUL !in initialised
    ensures status == if name == [] then InsufficientArrayPassed else Success
    ensures status == Success ==> (equal <==> initialised == CString(name))
  {
    equal := false;
    if |name| == 0 { return InsufficientArrayPassed, equal; }
    for i := 0 to |name|
      invariant i <= |initialised| && initialised[..i] == name[..i]
    {
      assert NUL !in name[..i] by { assert forall c :: c in initialised[..i] ==> c in initialised; }
      if i == |initialised| {
        assert initialised[..i] == initialised;
        if name[i] == NUL {
          CStringIs(name, i);
        } else {
          CStringLonger(name, i);
        }
        return Success, name[i] == NUL;
      }
      if initialised[i] != name[i] {
        CStringDiffers(initialised, name, i);
        return Success, false;
      }
    }
    assert NUL !in name by { assert name == name[..|name|] == initialised[..|name|]; }
    CStringOfText(name);
    if |initialised| == |name| { assert initialised == initialised[..|name|]; }
    return Success, |initialised| == |name|;
  }

  lemma {:induction false} CStringLonger(s: seq<char>, n: nat)
    requires n < |s| && NUL !in s[..n] && s[n] != NUL
    ensures |CString(s)| > n
  {
    if n > 0 {
      assert s[0] == s[..n][0] && s[1..][..n - 1] == s[..n][1..];
      CStringLonger(s[1..], n - 1);
    }
  }

  lemma {:induction false} CStringDiffers(a: string, s: seq<char>, n: nat)
    requires n < |a| && n < |s| && a[..n] == s[..n] && a[n] != s[n] && NUL !in a
    ensures CString(s) != a
  {
    if n > 0 {
      assert a[0] == a[..n][0] == s[..n][0] == s[0];
      assert a[1..][..n - 1] == a[..n][1..] == s[..n][1..] == s[1..][..n - 1];
      CStringDiffers(a[1..], s[1..], n - 1);
      assert a == [a[0]] + a[1..];
    }
  }
}
