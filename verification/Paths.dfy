/** Paths as text and as lists of names, the path of an entry, and what a list of names leads to. */
module Paths {
  import opened Settings
  import opened Seqs
  import opened EntryTree
  import opened Subtrees

  // ---- Text and components -----------------------------------------------------------

  /** The position of the first delimiter, |path| when there is none. */
  ghost function NextDelimiter(path: seq<char>): (k: nat)
    ensures k <= |path| && (k < |path| ==> path[k] == PATH_DELIMITER)
    ensures forall j :: 0 <= j < k ==> path[j] != PATH_DELIMITER
  {
    if path == [] || path[0] == PATH_DELIMITER then 0 else 1 + NextDelimiter(path[1..])
  }

  lemma NextDelimiterIs(path: seq<char>, k: nat)
    requires k <= |path| && (k < |path| ==> path[k] == PATH_DELIMITER)
    requires forall j :: 0 <= j < k ==> path[j] != PATH_DELIMITER
    ensures NextDelimiter(path) == k
  {
  }

  lemma ComponentsFirst(first: string, tail: seq<char>)
    requires PATH_DELIMITER !in first
    ensures Components(first + [PATH_DELIMITER] + tail) == [first] + Components(tail)
    ensures first != [] ==> Components(first) == [first]
  {
    var path := first + [PATH_DELIMITER] + tail;
    forall j | 0 <= j < |first| ensures path[j] != PATH_DELIMITER && first[j] != PATH_DELIMITER {
      assert path[j] == first[j] && first[j] in first;
    }
    NextDelimiterIs(path, |first|);
    assert path[..|first|] == first && path[|first| + 1..] == tail;
    NextDelimiterIs(first, |first|);
    assert first[..|first|] == first;
  }

  /** What follows position k and the delimiter there. */
  ghost function Behind(path: seq<char>, k: nat): seq<char> {
    if k < |path| then path[k + 1..] else []
  }

  /** The pieces between delimiters; a delimiter at the very end starts no piece. */
  ghost function Components(path: seq<char>): seq<seq<char>>
    decreases |path|
  {
    if path == [] then [] else [path[..NextDelimiter(path)]] + Components(Behind(path, NextDelimiter(path)))
  }

  /** The names with a delimiter between them. */
  ghost function Joined(names: seq<string>): string {
    if names == [] then [] else if |names| == 1 then names[0] else names[0] + [PATH_DELIMITER] + Joined(names[1..])
  }

  ghost predicate DelimiterFree(names: seq<string>) {
    forall i :: 0 <= i < |names| ==> PATH_DELIMITER !in names[i]
  }

  /** Splitting undoes joining, but for an empty last name, which is lost. */
  lemma SplitUndoesJoin(names: seq<string>)
    requires names != [] && forall i :: 0 <= i < |names| ==> '/' !in names[i]
    ensures Components(Joined(names)) == names <==> names[|names| - 1] != []
    ensures names[|names| - 1] == [] ==> Components(Joined(names)) == names[..|names| - 1]
  {
    SplitOfJoin(names);
    var last := |names| - 1;
    hide Components, Joined;
    if names[last] == [] { assert |Trimmed(names)| == last; }
  }

  /** The names, without the last one if that is empty. */
  ghost function Trimmed(names: seq<string>): seq<string>
    requires names != []
  {
    if names[|names| - 1] == [] then names[..|names| - 1] else names
  }

  lemma TrimmedRest(names: seq<string>)
    requires |names| >= 2
    ensures Trimmed(names) == [names[0]] + Trimmed(names[1..])
  {
    var rest := names[1..];
    assert rest[|rest| - 1] == names[|names| - 1];
    assert names == [names[0]] + rest;
    assert names[..|names| - 1] == [names[0]] + rest[..|rest| - 1];
  }

  lemma SplitFirst(names: seq<string>)
    requires |names| >= 2 && PATH_DELIMITER !in names[0]
    ensures Components(Joined(names)) == [names[0]] + Components(Joined(names[1..]))
  {
    hide Components;
    ComponentsFirst(names[0], Joined(names[1..]));
  }

  lemma SplitSingle(names: seq<string>)
    requires |names| == 1 && PATH_DELIMITER !in names[0]
    ensures Components(Joined(names)) == Trimmed(names)
  {
    assert names == [names[0]];
    ComponentsFirst(names[0], []);
  }

  /** What splitting a joined list gives. */
  lemma {:induction false} SplitOfJoin(names: seq<string>)
    requires names != [] && DelimiterFree(names)
    ensures Components(Joined(names)) == Trimmed(names)
  {
    assert PATH_DELIMITER !in names[0] && DelimiterFree(names[1..]);
    hide *;
    if |names| == 1 {
      SplitSingle(names);
    } else {
      SplitOfJoin(names[1..]);
      SplitFirst(names);
      TrimmedRest(names);
    }
  }

  /** The verdict of parse_path on a path with the given components, for name buffers of size buffer and room for limit
      names: the first problem met on the way decides. */
  ghost function ParseStatus(components: seq<seq<char>>, buffer: nat, limit: nat): Status {
    if exists i :: 0 <= i < |components| && i < limit && |components[i]| >= buffer then IdentifierIsTooLong
    else if |components| > limit then PathIsTooLong
    else Success
  }

  // ---- The path of an entry ----------------------------------------------------------

  /** The number of steps from folder d to the root. */
  ghost function Depth(t: Tree, d: int): (k: nat)
    requires Valid(t) && LiveFolder(t, d)
    ensures Up(t, d, k) == ROOT
  {
    assert Reaches(t, d);
    var k: nat :| Up(t, d, k) == ROOT;
    k
  }

  /** The names of d and its nearest ancestors, k in all, topmost first. */
  ghost function NamesUp(t: Tree, d: int, k: nat): seq<string>
    decreases k
  {
    if k == 0 then [] else NamesUp(t, ParentOf(t, FolderNode(d)), k - 1) + [NameOf(t, FolderNode(d))]
  }

  lemma {:induction false} NamesUpLength(t: Tree, d: int, k: nat)
    ensures |NamesUp(t, d, k)| == k
    decreases k
  {
    if k > 0 { NamesUpLength(t, ParentOf(t, FolderNode(d)), k - 1); }
  }

  lemma NamesUpNext(t: Tree, x: int, j: nat)
    requires 0 < j
    ensures NamesUp(t, x, j) == NamesUp(t, ParentOf(t, FolderNode(x)), j - 1) + [NameOf(t, FolderNode(x))]
  {
  }

  lemma NamesUpNone(t: Tree, x: int)
    ensures NamesUp(t, x, 0) == [] && Up(t, x, 0) == x
  {
  }

  /** The names on the way from the root, which is left out, to n. */
  ghost function PathNames(t: Tree, n: Node): seq<string>
    requires Valid(t) && Live(t, n)
  {
    assert LiveFolder(t, ParentOf(t, n));
    NamesUp(t, ParentOf(t, n), Depth(t, ParentOf(t, n))) + [NameOf(t, n)]
  }

  /** The names with a delimiter in front of each. */
  ghost function PathText(names: seq<string>): string {
    if names == [] then []
    else PathText(names[..|names| - 1]) + [PATH_DELIMITER] + names[|names| - 1]
  }

  lemma PathTextLast(names: seq<string>)
    requires names != []
    ensures PathText(names) == PathText(names[..|names| - 1]) + [PATH_DELIMITER] + names[|names| - 1]
  {
  }

  lemma PathTextOfOne(names: seq<string>)
    requires |names| == 1
    ensures PathText(names) == [PATH_DELIMITER] + Joined(names)
  {
    assert names[..0] == [];
  }

  lemma {:induction false} PathTextIsJoined(names: seq<string>)
    requires names != []
    ensures PathText(names) == [PATH_DELIMITER] + Joined(names)
  {
    hide *;
    var n := |names| - 1;
    if n == 0 {
      PathTextOfOne(names);
    } else {
      PathTextLast(names);
      PathTextIsJoined(names[..n]);
      JoinedLast(names);
      ConcatAssociates([PATH_DELIMITER], Joined(names[..n]), [PATH_DELIMITER]);
      ConcatAssociates([PATH_DELIMITER], Joined(names[..n]) + [PATH_DELIMITER], names[n]);
    }
  }

  lemma {:induction false} JoinedLast(names: seq<string>)
    requires |names| >= 2
    ensures var n := |names| - 1; Joined(names) == Joined(names[..n]) + [PATH_DELIMITER] + names[n]
  {
    var n := |names| - 1;
    if n == 1 {
      assert names[1..] == [names[1]] && names[..1] == [names[0]];
    } else {
      JoinedLast(names[1..]);
      assert names[1..][..n - 1] == names[..n][1..];
      assert Joined(names[..n]) == names[0] + [PATH_DELIMITER] + Joined(names[..n][1..]);
    }
  }

  /** Joined and printed paths, one name at a time. */
  lemma PathGrows(names: seq<string>, name: string)
    ensures Joined([name]) == name && (names != [] ==> Joined(names + [name]) == Joined(names) + "/" + name)
    ensures PathText([]) == "" && PathText(names + [name]) == PathText(names) + "/" + name
  {
    var more := names + [name];
    assert more[..|more| - 1] == names;
    if names != [] { JoinedLast(more); }
  }

  /** The answers of parse_path: which limit is met first. */
  lemma ParseAnswers(components: seq<seq<char>>, buffer: nat, limit: nat)
    ensures var status := ParseStatus(components, buffer, limit);
            && (status == IdentifierIsTooLong <==>
                 exists i :: 0 <= i < |components| && i < limit && |components[i]| >= buffer)
            && (status == PathIsTooLong <==>
                 |components| > limit && forall i :: 0 <= i < limit ==> |components[i]| < buffer)
            && (status == Success <==>
                 |components| <= limit && forall i :: 0 <= i < |components| ==> |components[i]| < buffer)
  {
  }

  lemma {:induction false} NamesUpValid(t: Tree, d: int, k: nat)
    requires Valid(t) && LiveFolder(t, d) && Up(t, d, k) == ROOT
    ensures |NamesUp(t, d, k)| == k && forall i :: 0 <= i < k ==> NameValid(NamesUp(t, d, k)[i])
    decreases k
  {
    if k > 0 {
      FromRootUp(t, d, k);
      UpFrom(t, d, k);
      NamesUpValid(t, ParentOf(t, FolderNode(d)), k - 1);
    }
  }

  lemma FromRootUp(t: Tree, d: int, k: nat)
    requires Valid(t) && LiveFolder(t, d) && Up(t, d, k) == ROOT && 0 < k
    ensures d != ROOT && Live(t, FolderNode(d)) && NameValid(NameOf(t, FolderNode(d)))
  {
    if d == ROOT { OneDepth(t, d, 0, k); }
  }

  lemma PathNamesValid(t: Tree, n: Node)
    requires Valid(t) && Live(t, n)
    ensures |PathNames(t, n)| == Depth(t, ParentOf(t, n)) + 1
    ensures forall i :: 0 <= i < |PathNames(t, n)| ==> NameValid(PathNames(t, n)[i])
    ensures DelimiterFree(PathNames(t, n))
  {
    var p := ParentOf(t, n);
    assert LiveFolder(t, p);
    NamesUpValid(t, p, Depth(t, p));
  }

  // ---- What names lead to ------------------------------------------------------------

  datatype Lookup = Found(node: Node) | Missing(status: Status)

  ghost predicate IsChild(t: Tree, d: int, n: Node, name: string) {
    Live(t, n) && ParentOf(t, n) == d && NameOf(t, n) == name
  }

  predicate Searchable(name: string) {
    0 < |name| <= MAX_NAME_LENGTH
  }

  ghost predicate HasFile(t: Tree, d: int, name: string) {
    exists i :: IsChild(t, d, FileNode(i), name)
  }

  ghost predicate HasFolder(t: Tree, d: int, name: string) {
    exists i :: IsChild(t, d, FolderNode(i), name)
  }

  ghost function ChildFile(t: Tree, d: int, name: string): Lookup {
    if HasFile(t, d, name) then var i :| IsChild(t, d, FileNode(i), name); Found(FileNode(i))
    else Missing(SearchTargetNotFound)
  }

  ghost function ChildFolder(t: Tree, d: int, name: string): (l: Lookup)
    ensures l.Found? ==> l.node.FolderNode? && IsChild(t, d, l.node, name)
  {
    if HasFolder(t, d, name) then var i :| IsChild(t, d, FolderNode(i), name); Found(FolderNode(i))
    else Missing(SearchTargetNotFound)
  }

  ghost function FileNamed(t: Tree, d: int, name: string): Lookup {
    if Searchable(name) then ChildFile(t, d, name) else Missing(InvalidArgument)
  }

  ghost function FolderNamed(t: Tree, d: int, name: string): (l: Lookup)
    ensures l.Found? ==> l.node.FolderNode? && IsChild(t, d, l.node, name)
  {
    if Searchable(name) then ChildFolder(t, d, name) else Missing(InvalidArgument)
  }

  /** The entry called name in folder d: a file, or else a folder. */
  ghost function EntryNamed(t: Tree, d: int, name: string): Lookup {
    if FileNamed(t, d, name) == Missing(SearchTargetNotFound) then FolderNamed(t, d, name) else FileNamed(t, d, name)
  }

  /** Where the names lead from folder d. */
  ghost function Resolve(t: Tree, d: int, names: seq<string>): Lookup
    decreases |names|
  {
    if names == [] then Missing(PathIsEmpty)
    else if |names| == 1 then EntryNamed(t, d, names[0])
    else match FolderNamed(t, d, names[0])
      case Found(c) => Resolve(t, c.index, names[1..])
      case Missing(s) => Missing(s)
  }

  /** Sibling names are unique, so a name finds the one child that has it. */
  lemma ChildFound(t: Tree, d: int, n: Node, name: string)
    requires Valid(t) && IsChild(t, d, n, name)
    ensures EntryNamed(t, d, name) == Found(n)
    ensures n.FolderNode? ==> FolderNamed(t, d, name) == Found(n)
  {
    assert NameValid(name);
    if n.FileNode? {
      assert HasFile(t, d, name);
    } else {
      assert HasFolder(t, d, name);
      assert forall i :: !IsChild(t, d, FileNode(i), name);
    }
  }

  /** Where names that lead nowhere stop: the first i of them lead to folder c, and the next is no name for a search,
      or c has no child of that name, or none but a file where a folder is needed. */
  lemma {:induction false} ResolveStops(t: Tree, d: int, names: seq<string>) returns (i: nat, c: int)
    requires Valid(t) && names != [] && Resolve(t, d, names).Missing?
    ensures i < |names| && if i == 0 then c == d else Resolve(t, d, names[..i]) == Found(FolderNode(c))
    ensures Resolve(t, d, names).status ==
            if 0 < |names[i]| <= MAX_NAME_LENGTH then SearchTargetNotFound else InvalidArgument
    ensures 0 < |names[i]| <= MAX_NAME_LENGTH ==>
              forall n :: Live(t, n) && ParentOf(t, n) == c && NameOf(t, n) == names[i] ==>
                n.FileNode? && i + 1 < |names|
    decreases |names|
  {
    hide Valid, Live;
    i, c := 0, d;
    StopsHere(t, d, names[0]);
    if 1 < |names| && FolderNamed(t, d, names[0]).Found? {
      var first := FolderNamed(t, d, names[0]).node.index;
      i, c := ResolveStops(t, first, names[1..]);
      FolderNamedIsLive(t, d, names[0]);
      ChildFound(t, d, FolderNode(first), names[0]);
      var upTo := names[..i + 1];
      assert upTo[0] == names[0] && upTo[1..] == names[1..][..i];
      i := i + 1;
    }
  }

  lemma StopsHere(t: Tree, d: int, name: string)
    ensures FolderNamed(t, d, name).Missing? ==>
              && FolderNamed(t, d, name).status ==
                 (if 0 < |name| <= MAX_NAME_LENGTH then SearchTargetNotFound else InvalidArgument)
              && (0 < |name| <= MAX_NAME_LENGTH ==>
                   forall n :: Live(t, n) && ParentOf(t, n) == d && NameOf(t, n) == name ==> n.FileNode?)
    ensures EntryNamed(t, d, name).Missing? ==>
              && EntryNamed(t, d, name).status ==
                 (if 0 < |name| <= MAX_NAME_LENGTH then SearchTargetNotFound else InvalidArgument)
              && (0 < |name| <= MAX_NAME_LENGTH ==>
                   forall n :: Live(t, n) && ParentOf(t, n) == d ==> NameOf(t, n) != name)
  {
    forall n | Live(t, n) && ParentOf(t, n) == d && NameOf(t, n) == name
      ensures if n.FileNode? then HasFile(t, d, name) else HasFolder(t, d, name)
    {
      assert IsChild(t, d, n, name);
    }
  }

  /** Names of ancestors lead down from d to x. */
  lemma {:induction false} ResolveDown(t: Tree, d: int, x: int, k: nat, rest: seq<string>)
    requires Valid(t) && LiveFolder(t, d) && LiveFolder(t, x) && Up(t, x, k) == d && rest != []
    ensures Resolve(t, d, NamesUp(t, x, k) + rest) == Resolve(t, x, rest)
    decreases k
  {
    hide *;
    if k == 0 {
      NamesUpNone(t, x);
      assert [] + rest == rest;
    } else {
      RootStopsUp(t, x, k);
      var n, q := FolderNode(x), ParentOf(t, FolderNode(x));
      UpFrom(t, x, k);
      ResolveDown(t, d, q, k - 1, [NameOf(t, n)] + rest);
      NamesUpNext(t, x, k);
      ConcatAssociates(NamesUp(t, q, k - 1), [NameOf(t, n)], rest);
      ResolveChild(t, x, rest);
    }
  }

  lemma ResolveChild(t: Tree, x: int, rest: seq<string>)
    requires Valid(t) && Live(t, FolderNode(x)) && rest != []
    ensures Resolve(t, ParentOf(t, FolderNode(x)), [NameOf(t, FolderNode(x))] + rest) == Resolve(t, x, rest)
  {
    var q, name := ParentOf(t, FolderNode(x)), NameOf(t, FolderNode(x));
    ChildFound(t, q, FolderNode(x), name);
    hide FolderNamed, EntryNamed, Valid, Live;
    assert ([name] + rest)[1..] == rest;
  }

  lemma RootStopsUp(t: Tree, x: int, k: nat)
    requires Valid(t) && LiveFolder(t, x) && LiveFolder(t, Up(t, x, k)) && 0 < k
    ensures Live(t, FolderNode(x))
  {
    if x == ROOT {
      UpFromNull(t, k - 1);
      assert false;
    }
  }

  /** The path of an entry leads to it. */
  lemma PathLeadsToEntry(t: Tree, n: Node)
    requires Valid(t) && Live(t, n)
    ensures Resolve(t, ROOT, PathNames(t, n)) == Found(n)
  {
    var p := ParentOf(t, n);
    assert LiveFolder(t, p);
    ResolveDown(t, ROOT, p, Depth(t, p), [NameOf(t, n)]);
    ChildFound(t, p, n, NameOf(t, n));
  }

  lemma NamedIsChild(t: Tree, d: int, name: string)
    requires Valid(t) && LiveFolder(t, d) && EntryNamed(t, d, name).Found?
    ensures var n := EntryNamed(t, d, name).node;
            IsChild(t, d, n, name) && Live(t, n) && ParentOf(t, n) == d && Up(t, d, 0) == d && NamesUp(t, d, 0) == []
  {
  }

  lemma FolderNamedIsLive(t: Tree, d: int, name: string)
    requires Valid(t) && FolderNamed(t, d, name).Found?
    ensures var c := FolderNamed(t, d, name).node.index;
            && LiveFolder(t, c) && Live(t, FolderNode(c))
            && ParentOf(t, FolderNode(c)) == d && NameOf(t, FolderNode(c)) == name
  {
  }

  /** names lead down to n from the ancestor d of its parent. */
  ghost predicate WayTo(t: Tree, d: int, names: seq<string>, n: Node) {
    && 0 < |names| && Live(t, n) && LiveFolder(t, ParentOf(t, n)) && Up(t, ParentOf(t, n), |names| - 1) == d
    && names == NamesUp(t, ParentOf(t, n), |names| - 1) + [NameOf(t, n)]
  }

  lemma WayToParts(t: Tree, d: int, names: seq<string>, n: Node)
    requires WayTo(t, d, names, n)
    ensures 0 < |names| && Live(t, n) && LiveFolder(t, ParentOf(t, n)) && Up(t, ParentOf(t, n), |names| - 1) == d
    ensures names == NamesUp(t, ParentOf(t, n), |names| - 1) + [NameOf(t, n)]
  {
  }

  lemma WayToFrom(t: Tree, d: int, names: seq<string>, n: Node)
    requires 0 < |names| && Live(t, n) && LiveFolder(t, ParentOf(t, n)) && Up(t, ParentOf(t, n), |names| - 1) == d
    requires names == NamesUp(t, ParentOf(t, n), |names| - 1) + [NameOf(t, n)]
    ensures WayTo(t, d, names, n)
  {
  }

  lemma WayFromParent(t: Tree, d: int, c: int, names: seq<string>, n: Node)
    requires Valid(t) && LiveFolder(t, d) && WayTo(t, c, names, n)
    requires Live(t, FolderNode(c)) && ParentOf(t, FolderNode(c)) == d
    ensures WayTo(t, d, [NameOf(t, FolderNode(c))] + names, n)
  {
    hide *;
    WayToParts(t, c, names, n);
    ChildIsFolder(t, c);
    var x, k := ParentOf(t, n), |names| - 1;
    UpOne(t, x, k, c);
    NamesUpTop(t, x, k);
    ConcatAssociates([NameOf(t, FolderNode(c))], NamesUp(t, x, k), [NameOf(t, n)]);
    WayToFrom(t, d, [NameOf(t, FolderNode(c))] + names, n);
  }

  /** Names that lead from d to an entry are the names on the way up from it to d. */
  lemma {:induction false} FoundByItsNames(t: Tree, d: int, names: seq<string>)
    requires Valid(t) && LiveFolder(t, d) && Resolve(t, d, names).Found?
    ensures WayTo(t, d, names, Resolve(t, d, names).node)
    decreases |names|
  {
    if |names| == 1 {
      NamedIsChild(t, d, names[0]);
    } else {
      hide Valid, LiveFolder, Live, WayTo;
      var c := FolderNamed(t, d, names[0]).node.index;
      FolderNamedIsLive(t, d, names[0]);
      FoundByItsNames(t, c, names[1..]);
      WayFromParent(t, d, c, names[1..], Resolve(t, d, names).node);
      assert names == [names[0]] + names[1..];
    }
  }

  lemma NamesUpOne(t: Tree, x: int)
    ensures NamesUp(t, x, 1) == [NameOf(t, FolderNode(Up(t, x, 0)))] + NamesUp(t, x, 0)
  {
    assert NamesUp(t, ParentOf(t, FolderNode(x)), 0) == [];
  }

  lemma {:induction false} NamesUpTop(t: Tree, x: int, k: nat)
    requires Valid(t) && LiveFolder(t, x) && LiveFolder(t, Up(t, x, k))
    ensures NamesUp(t, x, k + 1) == [NameOf(t, FolderNode(Up(t, x, k)))] + NamesUp(t, x, k)
    decreases k
  {
    hide *;
    if k == 0 {
      NamesUpOne(t, x);
    } else {
      RootStopsUp(t, x, k);
      UpFrom(t, x, k);
      var q := ParentOf(t, FolderNode(x));
      NamesUpTop(t, q, k - 1);
      NamesUpNext(t, x, k);
      NamesUpNext(t, x, k + 1);
      ConcatAssociates([NameOf(t, FolderNode(Up(t, x, k)))], NamesUp(t, q, k - 1), [NameOf(t, FolderNode(x))]);
    }
  }

  /** An entry is reached from the root by no names but its path: paths identify entries. */
  lemma OnlyItsPathLeadsToEntry(t: Tree, names: seq<string>)
    requires Valid(t) && Resolve(t, ROOT, names).Found?
    ensures Live(t, Resolve(t, ROOT, names).node) && names == PathNames(t, Resolve(t, ROOT, names).node)
  {
    FoundByItsNames(t, ROOT, names);
    var p := ParentOf(t, Resolve(t, ROOT, names).node);
    OneDepth(t, p, |names| - 1, Depth(t, p));
  }
}
