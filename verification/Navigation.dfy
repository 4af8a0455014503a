/** Resolving paths from the workspace, and the round trip through printing (workspace/navigation.c). */
module Navigation {
  import opened Settings
  import opened EntryTree
  import opened Entries
  import opened Paths
  import opened PathChanges
  import opened PathUtils
  import opened Queries

  /** Where path leads when cur is the current folder. */
  ghost function WsLookup(t: Tree, cur: int, path: string): Lookup {
    if path == [] || path == [PATH_DELIMITER] then Found(FolderNode(ROOT))
    else if path[0] == PATH_DELIMITER then PathLookup(t, ROOT, path[1..])
    else PathLookup(t, cur, path)
  }

  /** ws_resolve_path. The current folder matters for relative paths only. */
  method WsResolvePath(s: VFSEntryStore, cur: int, path: string) returns (status: Status, node: Node)
    requires s.Valid() && NUL !in path
    requires path != [] && path[0] != PATH_DELIMITER ==> Browsable(s.View(), cur)
    ensures Answers(status, node, WsLookup(s.View(), cur, path))
    ensures match WsLookup(s.View(), cur, path)
            case Found(n) => status == Success && node == n
            case Missing(e) => status == e && status != Success
    ensures path == "" || path == "/" ==> status == Success && node == FolderNode(VFS_MAX_FOLDERS_AMOUNT)
  {
    if |path| == 0 { return Success, FolderNode(ROOT); }
    var start, rest := cur, path;
    if path[0] == PATH_DELIMITER {
      if |path| == 1 { return Success, FolderNode(ROOT); }
      start := ROOT;
      rest := path[1..];
    }
    status, node := ResolvePath(s, rest, start);
  }

  /** The answer to every path: the limits of the parser come first, then the lookup, from the root behind a leading
      delimiter and from the current folder otherwise. */
  lemma PathAnswers(t: Tree, cur: int, path: string)
    requires '\0' !in path && path != "" && path != "/"
    ensures var start, rest := if path[0] == '/' then VFS_MAX_FOLDERS_AMOUNT else cur,
                               if path[0] == '/' then path[1..] else path;
            var names := Components(rest);
            var status := ParseStatus(names, MAX_NAME_LENGTH, MAX_PATH_NODES_AMOUNT);
            WsLookup(t, cur, path) == if status != Success then Missing(status) else Resolve(t, start, names)
  {
    var rest := if path[0] == '/' then path[1..] else path;
    ComponentsAreTexts(rest);
    TextsOfTexts(Components(rest));
    hide Components, Resolve, Texts, ParseStatus;
  }

  // ---- Round trips -------------------------------------------------------------------

  /** No name fills a whole name buffer. */
  ghost predicate NamesShort(names: seq<string>) {
    forall i :: 0 <= i < |names| ==> |names[i]| < MAX_NAME_LENGTH
  }

  ghost predicate NoTerminators(names: seq<string>) {
    forall i :: 0 <= i < |names| ==> NUL !in names[i]
  }

  lemma TextsOfTexts(names: seq<string>)
    requires NoTerminators(names)
    ensures Texts(names) == names
  {
    forall i | 0 <= i < |names| ensures CString(names[i]) == names[i] {
      CStringOfText(names[i]);
    }
  }

  lemma PathNamesAreTexts(t: Tree, n: Node)
    requires Valid(t) && Live(t, n)
    ensures var names := PathNames(t, n);
            && NoTerminators(names) && DelimiterFree(names)
            && names != [] && names[|names| - 1] != [] && Texts(names) == names
  {
    var names := PathNames(t, n);
    PathNamesValid(t, n);
    forall i | 0 <= i < |names| ensures NUL !in names[i] {
      NameLength(names[i]);
    }
    TextsOfTexts(names);
  }

  /** The characters behind the first delimiter of a printed path split into the names it was printed from. */
  lemma PrintedSplits(t: Tree, n: Node)
    requires Valid(t) && Live(t, n)
    ensures var text := PathText(PathNames(t, n));
            |text| > 1 && text[0] == PATH_DELIMITER && Components(text[1..]) == PathNames(t, n)
  {
    var names := PathNames(t, n);
    PathNamesAreTexts(t, n);
    hide Valid, Live, PathNames, PathText, Joined, DelimiterFree, NoTerminators;
    PathTextIsJoined(names);
    SplitUndoesJoin(names);
    assert PathText(names)[1..] == Joined(names);
    if Joined(names) == [] { assert false; }
  }

  /** The path of an entry leads back to it from everywhere, exactly when it has at most MAX_PATH_NODES_AMOUNT names
      and each of them leaves room for a terminator. Otherwise the answer tells which limit is met. */
  lemma PathRoundTrip(t: Tree, n: Node, cur: int)
    requires Valid(t) && Live(t, n)
    ensures var names := PathNames(t, n);
            && WsLookup(t, cur, PathText(names)) ==
               (var status := ParseStatus(names, MAX_NAME_LENGTH, MAX_PATH_NODES_AMOUNT);
                if status == Success then Found(n) else Missing(status))
            && (WsLookup(t, cur, PathText(names)) == Found(n) <==>
                 |names| <= MAX_PATH_NODES_AMOUNT && NamesShort(names))
  {
    var names := PathNames(t, n);
    PrintedSplits(t, n);
    PathNamesAreTexts(t, n);
    PathLeadsToEntry(t, n);
    hide Valid, Live, PathNames, PathText, Components, Resolve, Texts;
    ParseSucceeds(names);
  }

  lemma ParseSucceeds(names: seq<string>)
    ensures ParseStatus(names, MAX_NAME_LENGTH, MAX_PATH_NODES_AMOUNT) == Success <==>
            |names| <= MAX_PATH_NODES_AMOUNT && NamesShort(names)
  {
  }

  /** The buffer that get_node_path leaves, read as a C string. */
  lemma PrintedText(was: seq<char>, now: seq<char>, text: string)
    requires Printed(was, now, text) && NUL !in text
    ensures CString(now) == text
  {
    CStringIs(now, |text|);
  }

  lemma {:induction false} PathTextHasNoTerminator(names: seq<string>)
    requires NoTerminators(names)
    ensures NUL !in PathText(names)
  {
    if names != [] { PathTextHasNoTerminator(names[..|names| - 1]); }
  }

  /** get_node_path followed by ws_resolve_path: what the first prints for an entry, the second resolves to that
      entry. */
  lemma PrintedRoundTrip(t: Tree, n: Node, cur: int, was: seq<char>, now: seq<char>)
    requires Valid(t) && Live(t, n) && |PathNames(t, n)| <= MAX_PATH_NODES_AMOUNT
    requires Printed(was, now, PathText(PathNames(t, n)))
    ensures NUL !in CString(now)
    ensures WsLookup(t, cur, CString(now)) ==
            if NamesShort(PathNames(t, n)) then Found(n) else Missing(IdentifierIsTooLong)
  {
    PathNamesAreTexts(t, n);
    PathTextHasNoTerminator(PathNames(t, n));
    PrintedText(was, now, PathText(PathNames(t, n)));
    PathRoundTrip(t, n, cur);
    hide Valid, Live, PathNames, PathText, WsLookup;
  }

  lemma ComponentsAreTexts(path: string)
    requires NUL !in path
    ensures NoTerminators(Components(path))
    decreases |path|
  {
    if path != [] {
      var k := NextDelimiter(path);
      ComponentsAreTexts(Behind(path, k));
    }
  }

  /** The other way round: an absolute path that leads to an entry consists of the names that are printed for that
      entry. */
  lemma ResolvedPathIsPrinted(t: Tree, cur: int, path: string)
    requires Valid(t) && NUL !in path && |path| > 1 && path[0] == PATH_DELIMITER && WsLookup(t, cur, path).Found?
    ensures var n := WsLookup(t, cur, path).node;
            && Live(t, n) && PathNames(t, n) == Components(path[1..])
            && |PathNames(t, n)| <= MAX_PATH_NODES_AMOUNT && NamesShort(PathNames(t, n))
  {
    var names := Components(path[1..]);
    ComponentsAreTexts(path[1..]);
    TextsOfTexts(names);
    ParseSucceeds(names);
    hide Valid, Live, PathNames, Components, Resolve, Texts;
    OnlyItsPathLeadsToEntry(t, names);
  }

  // ---- Relative paths ----------------------------------------------------------------

  /** The names from the current folder down to an entry of its subtree. */
  lemma WayFromCurrent(t: Tree, cur: int, n: Node) returns (j: nat)
    requires Valid(t) && Live(t, n) && LiveFolder(t, cur) && n != FolderNode(cur)
    requires FolderPath(t, cur) <= PathNames(t, n)
    ensures LiveFolder(t, ParentOf(t, n)) && Up(t, ParentOf(t, n), j) == cur
    ensures PathNames(t, n)[|FolderPath(t, cur)|..] == WayDown(t, n, j) && |WayDown(t, n, j)| == j + 1
  {
    hide *;
    var q, k := ParentOf(t, n), |FolderPath(t, cur)|;
    ParentIsLive(t, n);
    FolderPathLength(t, q);
    NotThePathItself(t, cur, n);
    var x := FolderOfPrefix(t, q, k);
    SamePrefix(FolderPath(t, x), FolderPath(t, cur), FolderPath(t, q), NameOf(t, n));
    OneFolderPath(t, x, cur);
    j := Depth(t, q) - k;
    PathThrough(t, n, cur, j);
    WayDownIs(t, n, j);
    NamesUpLength(t, q, j);
  }

  lemma SamePrefix(a: seq<string>, b: seq<string>, all: seq<string>, last: string)
    requires a <= all && b <= all + [last] && |a| == |b|
    ensures a == b
  {
    assert (all + [last])[..|a|] == all[..|a|];
  }

  lemma NotThePathItself(t: Tree, cur: int, n: Node)
    requires Valid(t) && Live(t, n) && LiveFolder(t, cur) && n != FolderNode(cur)
    requires FolderPath(t, cur) <= PathNames(t, n)
    ensures |FolderPath(t, cur)| < |PathNames(t, n)|
  {
    RootPath(t);
    ParentIsLive(t, n);
    if cur != ROOT {
      FolderPathIsPathNames(t, cur);
      if PathNames(t, n) == FolderPath(t, cur) { OnePath(t, n, FolderNode(cur)); }
    }
  }

  /** A relative path starts at the current folder: the rest of the path of an entry below it leads to the entry,
      exactly when it has at most MAX_PATH_NODES_AMOUNT names and each of them leaves room for a terminator. */
  lemma RelativeRoundTrip(t: Tree, cur: int, n: Node)
    requires Valid(t) && Live(t, n) && LiveFolder(t, cur) && n != FolderNode(cur)
    requires FolderPath(t, cur) <= PathNames(t, n)
    ensures var names := PathNames(t, n)[|FolderPath(t, cur)|..];
            && names != []
            && WsLookup(t, cur, Joined(names)) ==
               (var status := ParseStatus(names, MAX_NAME_LENGTH, MAX_PATH_NODES_AMOUNT);
                if status == Success then Found(n) else Missing(status))
            && (WsLookup(t, cur, Joined(names)) == Found(n) <==>
                 |names| <= MAX_PATH_NODES_AMOUNT && forall i :: 0 <= i < |names| ==> |names[i]| < MAX_NAME_LENGTH)
  {
    hide *;
    var all, k := PathNames(t, n), |FolderPath(t, cur)|;
    var names := all[k..];
    var j := WayFromCurrent(t, cur, n);
    WayDownResolves(t, cur, n, j);
    PathNamesAreTexts(t, n);
    NoEmptyName(t, n);
    RestAreTexts(all, k);
    SplitUndoesJoin(names);
    RelativeText(names);
    RelativeIs(t, cur, Joined(names), names);
    ParseAnswers(names, MAX_NAME_LENGTH, MAX_PATH_NODES_AMOUNT);
    NamesShortIs(names);
  }

  lemma NoEmptyName(t: Tree, n: Node)
    requires Valid(t) && Live(t, n)
    ensures forall i :: 0 <= i < |PathNames(t, n)| ==> PathNames(t, n)[i] != []
  {
    PathNamesValid(t, n);
  }

  lemma NamesShortIs(names: seq<string>)
    ensures NamesShort(names) <==> forall i :: 0 <= i < |names| ==> |names[i]| < MAX_NAME_LENGTH
  {
  }

  lemma WayDownResolves(t: Tree, cur: int, n: Node, j: nat)
    requires Valid(t) && Live(t, n) && LiveFolder(t, cur) && LiveFolder(t, ParentOf(t, n))
    requires Up(t, ParentOf(t, n), j) == cur
    ensures Resolve(t, cur, WayDown(t, n, j)) == Found(n)
  {
    var p := ParentOf(t, n);
    ResolveDown(t, cur, p, j, [NameOf(t, n)]);
    ChildFound(t, p, n, NameOf(t, n));
  }

  lemma RestAreTexts(names: seq<string>, k: nat)
    requires k < |names| && NoTerminators(names) && DelimiterFree(names) && names[|names| - 1] != []
    requires forall i :: 0 <= i < |names| ==> names[i] != []
    ensures var rest := names[k..];
            && rest != [] && rest[|rest| - 1] != [] && rest[0] != [] && Texts(rest) == rest
            && forall i :: 0 <= i < |rest| ==> '/' !in rest[i]
  {
    TextsOfTexts(names[k..]);
  }

  lemma RelativeText(names: seq<string>)
    requires names != [] && names[0] != [] && '/' !in names[0]
    ensures Joined(names) != [] && Joined(names)[0] != PATH_DELIMITER
  {
    assert names[0][0] in names[0];
  }

  lemma RelativeIs(t: Tree, cur: int, path: string, names: seq<string>)
    requires path != [] && path[0] != PATH_DELIMITER && Components(path) == names && Texts(names) == names
    ensures WsLookup(t, cur, path) ==
            (var status := ParseStatus(names, MAX_NAME_LENGTH, MAX_PATH_NODES_AMOUNT);
             if status != Success then Missing(status) else Resolve(t, cur, names))
  {
  }

  /** The other way round: a relative path that leads to an entry extends the path of the current folder to the path of
      that entry. */
  lemma ResolvedRelativePath(t: Tree, cur: int, path: string)
    requires Valid(t) && NUL !in path && path != [] && path[0] != '/'
    requires LiveFolder(t, cur) && WsLookup(t, cur, path).Found?
    ensures var n := WsLookup(t, cur, path).node;
            && Live(t, n) && PathNames(t, n) == FolderPath(t, cur) + Components(path)
            && 0 < |Components(path)| <= MAX_PATH_NODES_AMOUNT && NamesShort(Components(path))
  {
    var names := Components(path);
    ComponentsAreTexts(path);
    TextsOfTexts(names);
    ParseSucceeds(names);
    hide Valid, Live, PathNames, FolderPath, Components, Resolve, Texts, Up;
    FoundByItsNames(t, cur, names);
    var n := Resolve(t, cur, names).node;
    PathThrough(t, n, cur, |names| - 1);
  }

  /** From the record of a deleted folder no relative path leads anywhere. */
  lemma NothingBelowDeleted(t: Tree, cur: int, path: string)
    requires Valid(t) && !LiveFolder(t, cur) && path != [] && path[0] != '/'
    ensures WsLookup(t, cur, path).Missing?
  {
    var names := Texts(Components(path));
    hide Texts, Components, ParseStatus;
    if names != [] { NoChildHere(t, cur, names[0]); }
  }

  lemma NoChildHere(t: Tree, d: int, name: string)
    requires Valid(t) && !LiveFolder(t, d)
    ensures EntryNamed(t, d, name).Missing? && FolderNamed(t, d, name).Missing?
  {
    forall n | Live(t, n) ensures ParentOf(t, n) != d {}
  }
}
