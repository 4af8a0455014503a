/** What moving and renaming an entry does to the paths of all entries. */
module PathChanges {
  import opened Settings
  import opened Seqs
  import opened EntryTree
  import opened TreeSteps
  import opened Subtrees
  import opened Paths

  /** The names on the way from the root, which is left out, to folder d. */
  ghost function FolderPath(t: Tree, d: int): seq<string>
    requires Valid(t) && LiveFolder(t, d)
  {
    NamesUp(t, d, Depth(t, d))
  }

  lemma DepthIs(t: Tree, d: int, k: nat)
    requires Valid(t) && LiveFolder(t, d) && Up(t, d, k) == ROOT
    ensures Depth(t, d) == k && FolderPath(t, d) == NamesUp(t, d, k)
  {
    OneDepth(t, d, k, Depth(t, d));
  }

  lemma ParentIsLive(t: Tree, n: Node)
    requires Valid(t) && Live(t, n)
    ensures LiveFolder(t, ParentOf(t, n)) && PathNames(t, n) == FolderPath(t, ParentOf(t, n)) + [NameOf(t, n)]
  {
  }

  lemma FolderPathIsPathNames(t: Tree, d: int)
    requires Valid(t) && LiveFolder(t, d) && d != ROOT
    ensures Live(t, FolderNode(d)) && FolderPath(t, d) == PathNames(t, FolderNode(d))
  {
    hide *;
    LiveOrRoot(t, d);
    var p := ParentOf(t, FolderNode(d));
    ParentIsLive(t, FolderNode(d));
    var k := Depth(t, p);
    DepthIs(t, p, k);
    UpFrom(t, d, k + 1);
    DepthIs(t, d, k + 1);
    NamesUpNext(t, d, k + 1);
  }

  lemma LiveOrRoot(t: Tree, d: int)
    requires LiveFolder(t, d)
    ensures d == ROOT || Live(t, FolderNode(d))
  {
  }

  lemma {:induction false} NamesUpSplit(t: Tree, x: int, j: nat, k: nat)
    requires Valid(t) && LiveFolder(t, x) && LiveFolder(t, Up(t, x, j))
    ensures NamesUp(t, x, j + k) == NamesUp(t, Up(t, x, j), k) + NamesUp(t, x, j)
    decreases j
  {
    hide *;
    NamesUpNone(t, x);
    if j > 0 {
      RootStopsUp(t, x, j);
      UpFrom(t, x, j);
      var q := ParentOf(t, FolderNode(x));
      NamesUpSplit(t, q, j - 1, k);
      NamesUpNext(t, x, j);
      NamesUpNext(t, x, j + k);
      ConcatAssociates(NamesUp(t, Up(t, x, j), k), NamesUp(t, q, j - 1), [NameOf(t, FolderNode(x))]);
    }
  }

  /** The names from folder d, which is left out, down to an entry whose parent lies j steps below d. */
  ghost function WayDown(t: Tree, n: Node, j: nat): seq<string> {
    NamesUp(t, ParentOf(t, n), j) + [NameOf(t, n)]
  }

  /** A path goes through every folder above. */
  lemma PathThrough(t: Tree, n: Node, d: int, j: nat)
    requires Valid(t) && Live(t, n) && LiveFolder(t, d) && Up(t, ParentOf(t, n), j) == d
    ensures PathNames(t, n) == FolderPath(t, d) + WayDown(t, n, j)
  {
    hide *;
    var q, k := ParentOf(t, n), Depth(t, d);
    ParentIsLive(t, n);
    UpAdd(t, q, j, k);
    DepthIs(t, q, j + k);
    DepthIs(t, d, k);
    NamesUpSplit(t, q, j, k);
    WayDownIs(t, n, j);
    ConcatAssociates(FolderPath(t, d), NamesUp(t, q, j), [NameOf(t, n)]);
  }

  lemma WayDownIs(t: Tree, n: Node, j: nat)
    ensures WayDown(t, n, j) == NamesUp(t, ParentOf(t, n), j) + [NameOf(t, n)]
  {
  }

  // ---- Paths and the tree ------------------------------------------------------------

  lemma RootPath(t: Tree)
    requires Valid(t)
    ensures LiveFolder(t, ROOT) && FolderPath(t, ROOT) == []
  {
    assert Up(t, ROOT, 0) == ROOT;
    DepthIs(t, ROOT, 0);
  }

  /** The path of an entry is that of its folder and its name; an entry of the root has its name alone. */
  lemma PathOfChild(t: Tree, n: Node)
    requires Valid(t) && Live(t, n)
    ensures ParentOf(t, n) == VFS_MAX_FOLDERS_AMOUNT ==> PathNames(t, n) == [NameOf(t, n)]
    ensures ParentOf(t, n) != VFS_MAX_FOLDERS_AMOUNT ==>
              && Live(t, FolderNode(ParentOf(t, n)))
              && PathNames(t, n) == PathNames(t, FolderNode(ParentOf(t, n))) + [NameOf(t, n)]
  {
    ParentIsLive(t, n);
    RootPath(t);
    var p := ParentOf(t, n);
    hide Valid, PathNames, FolderPath;
    if p != ROOT { FolderPathIsPathNames(t, p); }
  }

  lemma OnePath(t: Tree, m: Node, n: Node)
    requires Valid(t) && Live(t, m) && Live(t, n) && PathNames(t, m) == PathNames(t, n)
    ensures m == n
  {
    PathLeadsToEntry(t, m);
    PathLeadsToEntry(t, n);
  }

  /** The folder that the first names of a path belong to. */
  lemma FolderOfPrefix(t: Tree, q: int, k: nat) returns (x: int)
    requires Valid(t) && LiveFolder(t, q) && k <= Depth(t, q)
    ensures LiveFolder(t, x) && Up(t, q, Depth(t, q) - k) == x && |FolderPath(t, x)| == k
    ensures FolderPath(t, x) <= FolderPath(t, q)
  {
    var j: nat := Depth(t, q) - k;
    x := Up(t, q, j);
    LiveAbove(t, q, j, k);
    DepthIs(t, q, j + k);
    DepthIs(t, x, k);
    NamesUpSplit(t, q, j, k);
    NamesUpLength(t, x, k);
  }

  lemma LiveAbove(t: Tree, q: int, j: nat, k: nat)
    requires Valid(t) && LiveFolder(t, q) && Up(t, q, j + k) == ROOT
    ensures LiveFolder(t, Up(t, q, j)) && Up(t, Up(t, q, j), k) == ROOT
  {
    UpAdd(t, q, j, k);
    if Up(t, q, j) == NULL {
      UpFromNull(t, k);
    } else {
      AncestorsLive(t, q, j);
    }
  }

  lemma FolderPathLength(t: Tree, d: int)
    requires Valid(t) && LiveFolder(t, d)
    ensures |FolderPath(t, d)| == Depth(t, d)
  {
    NamesUpLength(t, d, Depth(t, d));
  }

  /** The subtree of a folder consists of the entries whose paths begin with the path of the folder, itself included. */
  lemma SubtreeIsPrefix(t: Tree, d: int, n: Node)
    requires Valid(t) && Live(t, FolderNode(d)) && Live(t, n)
    ensures InSubtree(t, d, n) <==> PathNames(t, FolderNode(d)) <= PathNames(t, n)
  {
    var q, path := ParentOf(t, n), PathNames(t, FolderNode(d));
    ParentIsLive(t, n);
    FolderOfEntry(t, d);
    if InSubtree(t, d, n) && n != FolderNode(d) {
      var j: nat :| Up(t, q, j) == d;
      PathThrough(t, n, d, j);
    }
    if path <= PathNames(t, n) { PrefixIsAbove(t, d, n); }
  }

  lemma FolderOfEntry(t: Tree, d: int)
    requires Valid(t) && Live(t, FolderNode(d))
    ensures LiveFolder(t, d) && d != ROOT && FolderPath(t, d) == PathNames(t, FolderNode(d))
  {
    FolderPathIsPathNames(t, d);
  }

  lemma PrefixIsAbove(t: Tree, d: int, n: Node)
    requires Valid(t) && Live(t, FolderNode(d)) && Live(t, n) && PathNames(t, FolderNode(d)) <= PathNames(t, n)
    ensures InSubtree(t, d, n)
  {
    var q, path := ParentOf(t, n), PathNames(t, FolderNode(d));
    ParentIsLive(t, n);
    FolderOfEntry(t, d);
    FolderPathLength(t, q);
    FolderPathLength(t, d);
    if |path| == |PathNames(t, n)| {
      OnePath(t, FolderNode(d), n);
    } else {
      var x := FolderOfPrefix(t, q, |path|);
      assert FolderPath(t, x) == PathNames(t, n)[..|path|] == path;
      assert x != ROOT by { RootPath(t); ParentIsLive(t, FolderNode(d)); }
      FolderPathIsPathNames(t, x);
      OnePath(t, FolderNode(x), FolderNode(d));
      assert Below(t, d, q);
    }
  }

  lemma OneFolderPath(t: Tree, x: int, y: int)
    requires Valid(t) && LiveFolder(t, x) && LiveFolder(t, y) && FolderPath(t, x) == FolderPath(t, y)
    ensures x == y
  {
    FolderPathLength(t, x);
    FolderPathLength(t, y);
    if x == ROOT {
      RootPath(t);
    } else {
      RootPath(t);
      FolderPathIsPathNames(t, x);
      ParentIsLive(t, FolderNode(x));
      if y != ROOT {
        FolderPathIsPathNames(t, y);
        OnePath(t, FolderNode(x), FolderNode(y));
      }
    }
  }

  /** A subtree is too deep for a recursion when some path in it is too long. */
  lemma TooDeepIsLongPath(t: Tree, d: int, step: nat)
    requires Valid(t) && LiveFolder(t, d)
    ensures TooDeep(t, d, step) <==>
              exists x :: && LiveFolder(t, x) && FolderPath(t, d) <= FolderPath(t, x)
                          && step + |FolderPath(t, x)| - |FolderPath(t, d)| > MAX_PATH_NODES_AMOUNT
  {
    if TooDeep(t, d, step) {
      var x, k: nat :| LiveFolder(t, x) && Up(t, x, k) == d && step + k > MAX_FOLDER_DEPTH;
      PathThroughFolder(t, x, d, k);
      assert LiveFolder(t, x) && FolderPath(t, d) <= FolderPath(t, x);
    }
    if x :| LiveFolder(t, x) && FolderPath(t, d) <= FolderPath(t, x)
            && step + |FolderPath(t, x)| - |FolderPath(t, d)| > MAX_PATH_NODES_AMOUNT {
      FolderPathLength(t, x);
      FolderPathLength(t, d);
      var y := FolderOfPrefix(t, x, Depth(t, d));
      assert FolderPath(t, y) == FolderPath(t, x)[..Depth(t, d)] == FolderPath(t, d);
      OneFolderPath(t, y, d);
    }
  }

  lemma PathThroughFolder(t: Tree, x: int, d: int, k: nat)
    requires Valid(t) && LiveFolder(t, x) && LiveFolder(t, d) && Up(t, x, k) == d
    ensures FolderPath(t, d) <= FolderPath(t, x) && |FolderPath(t, x)| == |FolderPath(t, d)| + k
  {
    hide *;
    var j := Depth(t, d);
    UpAdd(t, x, k, j);
    DepthIs(t, d, j);
    DepthIs(t, x, k + j);
    NamesUpSplit(t, x, k, j);
    NamesUpLength(t, x, k);
  }

  // ---- Changes to one entry ----------------------------------------------------------

  lemma OthersKept(t: Tree, t': Tree, n: Node, d: int)
    requires KeepsOthers(t, t', n) && Live(t, FolderNode(d)) && FolderNode(d) != n
    ensures Live(t', FolderNode(d)) && ParentOf(t', FolderNode(d)) == ParentOf(t, FolderNode(d))
    ensures NameOf(t', FolderNode(d)) == NameOf(t, FolderNode(d))
  {
  }

  /** None of the folders on the way up from q, up to step j, is d. */
  ghost predicate Avoids(t: Tree, q: int, j: nat, d: int) {
    forall i: nat :: i < j ==> Up(t, q, i) != d
  }

  lemma AvoidsNext(t: Tree, q: int, j: nat, d: int)
    requires Valid(t) && Live(t, FolderNode(q)) && 0 < j && Avoids(t, q, j, d)
    ensures q != d && Avoids(t, ParentOf(t, FolderNode(q)), j - 1, d)
  {
    assert Up(t, q, 0) != d;
    hide Valid, Live, ParentOf, Up;
    forall i: nat | i < j - 1 ensures Up(t, ParentOf(t, FolderNode(q)), i) != d {
      UpFrom(t, q, i + 1);
      assert Up(t, q, i + 1) != d;
    }
  }

  /** A change to folder d leaves the way from another folder up to an ancestor, as long as it does not pass d. */
  lemma {:induction false} WayKept(t: Tree, t': Tree, d: int, q: int, j: nat)
    requires Valid(t) && Valid(t') && KeepsOthers(t, t', FolderNode(d))
    requires LiveFolder(t, q) && LiveFolder(t, Up(t, q, j))
    requires Avoids(t, q, j, d)
    ensures Up(t', q, j) == Up(t, q, j) && NamesUp(t', q, j) == NamesUp(t, q, j)
    decreases j
  {
    hide *;
    NamesUpNone(t, q);
    NamesUpNone(t', q);
    if j > 0 {
      RootStopsUp(t, q, j);
      UpFrom(t, q, j);
      AvoidsNext(t, q, j, d);
      OthersKept(t, t', FolderNode(d), q);
      UpFrom(t', q, j);
      NamesUpNext(t, q, j);
      NamesUpNext(t', q, j);
      WayKept(t, t', d, ParentOf(t, FolderNode(q)), j - 1);
    }
  }

  /** Nothing on the way up from x to d, d left out, is d. */
  lemma DistinctOnTheWay(t: Tree, x: int, d: int, j: nat)
    requires Valid(t) && LiveFolder(t, d) && Up(t, x, j) == d
    ensures Avoids(t, x, j, d)
  {
    forall i: nat | i < j ensures Up(t, x, i) != d {
      if Up(t, x, i) == d { OneDistance(t, x, d, i, j); }
    }
  }

  /** An entry that is not below a changed folder keeps its path. */
  lemma PathElsewhere(t: Tree, t': Tree, d: int, n: Node)
    requires Valid(t) && Valid(t') && KeepsOthers(t, t', FolderNode(d)) && Live(t, n) && !InSubtree(t, d, n)
    ensures Live(t', n) && PathNames(t', n) == PathNames(t, n)
  {
    var q := ParentOf(t, n);
    ParentIsLive(t, n);
    FolderPathElsewhere(t, t', d, q);
    ParentIsLive(t', n);
  }

  lemma FolderPathElsewhere(t: Tree, t': Tree, d: int, q: int)
    requires Valid(t) && Valid(t') && KeepsOthers(t, t', FolderNode(d)) && LiveFolder(t, q) && !Below(t, d, q)
    ensures LiveFolder(t', q) && FolderPath(t', q) == FolderPath(t, q)
  {
    var k := Depth(t, q);
    assert Up(t, q, 0) == q;
    WayKept(t, t', d, q, k);
    DepthIs(t', q, k);
  }

  /** An entry below a changed folder keeps the way from that folder down to it. */
  lemma PathBelow(t: Tree, t': Tree, d: int, n: Node, j: nat)
    requires Valid(t) && Valid(t') && KeepsOthers(t, t', FolderNode(d)) && LiveFolder(t, d) && LiveFolder(t', d)
    requires Live(t, n) && n != FolderNode(d) && Up(t, ParentOf(t, n), j) == d
    ensures Live(t', n) && WayDown(t', n, j) == WayDown(t, n, j)
    ensures PathNames(t, n) == FolderPath(t, d) + WayDown(t, n, j)
    ensures PathNames(t', n) == FolderPath(t', d) + WayDown(t, n, j)
  {
    var q := ParentOf(t, n);
    ParentIsLive(t, n);
    DistinctOnTheWay(t, q, d, j);
    WayKept(t, t', d, q, j);
    PathThrough(t, n, d, j);
    PathThrough(t', n, d, j);
  }

  /** The way down from d to an entry of its subtree. */
  ghost predicate SameWayDown(t: Tree, t': Tree, d: int, n: Node) {
    exists way: seq<string> ::
      && Valid(t) && Valid(t') && Live(t, n) && Live(t', n) && LiveFolder(t, d) && LiveFolder(t', d)
      && PathNames(t, n) == FolderPath(t, d) + way && PathNames(t', n) == FolderPath(t', d) + way
  }

  lemma WayDownKept(t: Tree, t': Tree, d: int, n: Node)
    requires Valid(t) && Valid(t') && KeepsOthers(t, t', FolderNode(d))
    requires Live(t, FolderNode(d)) && Live(t', FolderNode(d))
    requires d != ROOT && InSubtree(t, d, n)
    ensures SameWayDown(t, t', d, n)
  {
    if n == FolderNode(d) {
      FolderPathIsPathNames(t, d);
      FolderPathIsPathNames(t', d);
      assert FolderPath(t, d) + [] == FolderPath(t, d) && FolderPath(t', d) + [] == FolderPath(t', d);
    } else {
      var j: nat :| Up(t, ParentOf(t, n), j) == d;
      PathBelow(t, t', d, n, j);
    }
  }

  /** After a move every entry of the subtree has the path of the target, the name of the moved folder and its old way
      down from there; every other entry has its old path; and each path leads to its entry. */
  lemma PathsAfterMove(t: Tree, t': Tree, d: int, s: nat, p: int, s': nat, n: Node)
    requires Valid(t) && Valid(t') && Moved(t, t', FolderNode(d), s, p, s')
    requires !Below(t, d, p) && d != ROOT && Live(t, n)
    ensures Live(t', FolderNode(d)) && LiveFolder(t', d) && LiveFolder(t, p) && Live(t', n)
    ensures FolderPath(t', d) == FolderPath(t, p) + [NameOf(t, FolderNode(d))]
    ensures if InSubtree(t, d, n) then SameWayDown(t, t', d, n) else PathNames(t', n) == PathNames(t, n)
    ensures Resolve(t', ROOT, PathNames(t', n)) == Found(n)
  {
    FolderPathElsewhere(t, t', d, p);
    FolderPathIsPathNames(t', d);
    ParentIsLive(t', FolderNode(d));
    if InSubtree(t, d, n) { WayDownKept(t, t', d, n); } else { PathElsewhere(t, t', d, n); }
    PathLeadsToEntry(t', n);
  }

  /** After a renaming the entries of the subtree have the new name in the place of the old one, and the others their
      old path. */
  lemma PathsAfterRename(t: Tree, t': Tree, d: int, name: string, n: Node)
    requires Valid(t) && Valid(t') && Renamed(t, t', FolderNode(d), name) && d != ROOT && Live(t, n)
    ensures Live(t', FolderNode(d)) && LiveFolder(t', d) && Live(t', n) && LiveFolder(t, ParentOf(t, FolderNode(d)))
    ensures FolderPath(t', d) == FolderPath(t, ParentOf(t, FolderNode(d))) + [name]
    ensures if InSubtree(t, d, n) then SameWayDown(t, t', d, n) else PathNames(t', n) == PathNames(t, n)
    ensures Resolve(t', ROOT, PathNames(t', n)) == Found(n)
  {
    var p := ParentOf(t, FolderNode(d));
    ParentIsLive(t, FolderNode(d));
    NotBelowChild(t, p, d);
    FolderPathElsewhere(t, t', d, p);
    FolderPathIsPathNames(t', d);
    ParentIsLive(t', FolderNode(d));
    if InSubtree(t, d, n) { WayDownKept(t, t', d, n); } else { PathElsewhere(t, t', d, n); }
    PathLeadsToEntry(t', n);
  }
}
