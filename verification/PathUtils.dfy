/** Splitting paths into name buffers and printing the path of an entry (system/path_utils.c). */
module PathUtils {
  import opened Settings
  import opened EntryTree
  import opened TreeUpdates
  import opened Entries
  import opened Paths

  // ---- Parsing -----------------------------------------------------------------------

  ghost function RowOf(names: array2<char>, i: nat): seq<char>
    requires i < names.Length0
    reads names
  {
    seq(names.Length1, j requires 0 <= j < names.Length1 reads names => names[i, j])
  }

  /** The name buffers as values. */
  ghost function Rows(names: array2<char>): seq<seq<char>>
    reads names
  {
    seq(names.Length0, i requires 0 <= i < names.Length0 reads names => RowOf(names, i))
  }

  /** A name buffer holds text with a terminator behind it. */
  ghost predicate RowHolds(row: seq<char>, text: seq<char>) {
    |text| < |row| && row[|text|] == NUL && row[..|text|] == text
  }

  /** parse_node: copies the piece of path that starts at cur into row i, up to a delimiter or the end. */
  method ParseNode(path: seq<char>, cur: nat, names: array2<char>, i: nat) returns (status: Status, next: nat)
    requires cur <= |path| && i < names.Length0 && 0 < names.Length1
    modifies names
    ensures var k := NextDelimiter(path[cur..]);
            && cur <= next <= cur + k
            && status == (if k >= names.Length1 then IdentifierIsTooLong else Success)
            && (status == Success ==> next == cur + k && RowHolds(Rows(names)[i], path[cur..][..k]))
    ensures forall r :: 0 <= r < names.Length0 && r != i ==> Rows(names)[r] == old(Rows(names))[r]
  {
    next := cur;
    var out := 0;
    while true
      invariant cur <= next <= |path| && out == next - cur < names.Length1
      invariant forall j :: cur <= j < next ==> path[j] != PATH_DELIMITER
      invariant forall j :: 0 <= j < out ==> names[i, j] == path[cur + j]
      invariant forall r, j :: 0 <= r < names.Length0 && 0 <= j < names.Length1 && r != i ==>
                  names[r, j] == old(names[r, j])
      decreases |path| - next
    {
      if next >= |path| || path[next] == PATH_DELIMITER {
        NextDelimiterFrom(path, cur, next);
        names[i, out] := NUL;
        assert RowOf(names, i)[..out] == path[cur..next];
        break;
      }
      if out >= names.Length1 - 1 {
        NextDelimiterBeyond(path, cur, next);
        return IdentifierIsTooLong, next;
      }
      names[i, out] := path[next];
      next := next + 1;
      out := out + 1;
    }
    return Success, next;
  }

  lemma NextDelimiterFrom(path: seq<char>, cur: nat, next: nat)
    requires cur <= next <= |path| && (next < |path| ==> path[next] == PATH_DELIMITER)
    requires forall j :: cur <= j < next ==> path[j] != PATH_DELIMITER
    ensures NextDelimiter(path[cur..]) == next - cur
  {
    NextDelimiterIs(path[cur..], next - cur);
  }

  lemma NextDelimiterBeyond(path: seq<char>, cur: nat, next: nat)
    requires cur <= next < |path| && path[next] != PATH_DELIMITER
    requires forall j :: cur <= j < next ==> path[j] != PATH_DELIMITER
    ensures NextDelimiter(path[cur..]) > next - cur
  {
    var k := NextDelimiter(path[cur..]);
    if k <= next - cur { assert false; }
  }

  /** The rest of a path at a cursor that may stand one behind the end. */
  ghost function Remaining(path: seq<char>, cur: nat): seq<char> {
    if cur < |path| then path[cur..] else []
  }

  lemma FirstComponent(path: seq<char>)
    requires path != []
    ensures Components(path) == [path[..NextDelimiter(path)]] + Components(Behind(path, NextDelimiter(path)))
  {
  }

  lemma RestBehind(path: seq<char>, cur: nat, k: nat)
    requires cur < |path| && k <= |path| - cur
    ensures Behind(path[cur..], k) == Remaining(path, cur + k + 1)
  {
  }

  lemma HeadAndTail<T>(all: seq<T>, i: nat, rest: seq<T>, head: T, tail: seq<T>)
    requires i <= |all| && all[i..] == rest && rest == [head] + tail
    ensures i < |all| && all[i] == head && all[i + 1..] == tail
  {
    assert all[i] == rest[0] && all[i + 1..] == rest[1..];
  }

  /** The first done rows hold the components read so far, and path at cur holds the others. */
  ghost predicate Parsed(path: seq<char>, cur: nat, rows: seq<seq<char>>, done: nat) {
    var all := Components(path);
    && done <= |all| && done <= |rows|
    && all[done..] == Components(Remaining(path, cur))
    && forall r :: 0 <= r < done ==> RowHolds(rows[r], all[r])
  }

  /** parse_path */
  method ParsePath(path: seq<char>, names: array2<char>) returns (status: Status, amount: nat)
    modifies names
    ensures status == (if names.Length1 == 0 || names.Length0 == 0 then InvalidArgument
                       else if path == [] then PathIsEmpty
                       else ParseStatus(Components(path), names.Length1, names.Length0))
    ensures status == Success ==>
              && 0 < amount == |Components(path)| <= names.Length0
              && forall r :: 0 <= r < amount ==> RowHolds(Rows(names)[r], Components(path)[r])
  {
    hide Components, NextDelimiter, RowHolds;
    amount := 0;
    if names.Length1 == 0 || names.Length0 == 0 { return InvalidArgument, amount; }
    if |path| == 0 { return PathIsEmpty, amount; }
    var cur := 0;
    assert path[0..] == path && Components(path)[0..] == Components(path);
    HasComponent(path);
    while true
      invariant Parsed(path, cur, Rows(names), amount)
      invariant forall r :: 0 <= r < amount ==> |Components(path)[r]| < names.Length1
      decreases |path| + 1 - cur
    {
      if cur >= |path| {
        NoMoreComponents(Components(path), amount, Remaining(path, cur));
        break;
      }
      if amount >= names.Length0 {
        NextOf(path, cur, Rows(names), amount);
        return PathIsTooLong, amount;
      }
      status, cur := ParseNext(path, cur, names, amount);
      if status != Success { return status, amount; }
      amount := amount + 1;
    }
    return Success, amount;
  }

  lemma HasComponent(path: seq<char>)
    requires path != []
    ensures Components(path) != []
  {
  }

  lemma NoMoreComponents(all: seq<seq<char>>, done: nat, rest: seq<char>)
    requires done <= |all| && all[done..] == Components(rest) && rest == []
    ensures done == |all|
  {
  }

  /** One round of the loop of parse_path: the next component goes to the next row. */
  method ParseNext(path: seq<char>, cur: nat, names: array2<char>, done: nat) returns (status: Status, cur': nat)
    requires cur < |path| && 0 < names.Length1 && done < names.Length0 && Parsed(path, cur, Rows(names), done)
    modifies names
    ensures done < |Components(path)| && cur < cur'
    ensures status == if |Components(path)[done]| >= names.Length1 then IdentifierIsTooLong else Success
    ensures status == Success ==> Parsed(path, cur', Rows(names), done + 1) && |Components(path)[done]| < names.Length1
  {
    hide *;
    ghost var rows := Rows(names);
    NextOf(path, cur, rows, done);
    RowsFact(names);
    var next;
    status, next := ParseNode(path, cur, names, done);
    RowsFact(names);
    if status == Success { ParsedOneMore(path, cur, next, rows, Rows(names), done); }
    cur' := next + 1;
  }

  lemma RowsFact(names: array2<char>)
    ensures |Rows(names)| == names.Length0
    ensures forall i :: 0 <= i < |Rows(names)| ==> |Rows(names)[i]| == names.Length1
  {
  }

  lemma ParsedOneMore(path: seq<char>, cur: nat, next: nat, rows: seq<seq<char>>, rows': seq<seq<char>>, done: nat)
    requires Parsed(path, cur, rows, done) && done < |rows| == |rows'| && done < |Components(path)|
    requires RowHolds(rows'[done], Components(path)[done])
    requires cur <= next <= |path| && cur < |path|
    requires Components(path)[done + 1..] == Components(Behind(path[cur..], next - cur))
    requires forall r :: 0 <= r < |rows| && r != done ==> rows'[r] == rows[r]
    ensures Parsed(path, next + 1, rows', done + 1)
  {
    NextRest(path, cur, next - cur);
    hide Components, RowHolds, Remaining, Behind;
  }

  /** The component at the cursor, and what is left behind it. */
  lemma NextOf(path: seq<char>, cur: nat, rows: seq<seq<char>>, done: nat)
    requires cur < |path| && Parsed(path, cur, rows, done)
    ensures var k := NextDelimiter(path[cur..]);
            && done < |Components(path)| && Components(path)[done] == path[cur..][..k] && |Components(path)[done]| == k
            && Components(path)[done + 1..] == Components(Behind(path[cur..], k))
  {
    var rest := path[cur..];
    var k := NextDelimiter(rest);
    assert done <= |Components(path)| && Components(path)[done..] == Components(rest);
    hide *;
    FirstComponent(rest);
    HeadAndTail(Components(path), done, Components(rest), rest[..k], Components(Behind(rest, k)));
  }

  lemma NextRest(path: seq<char>, cur: nat, k: nat)
    requires cur < |path| && k <= |path| - cur
    ensures Components(Behind(path[cur..], k)) == Components(Remaining(path, cur + k + 1))
  {
    RestBehind(path, cur, k);
    hide *;
    SameComponents(Behind(path[cur..], k), Remaining(path, cur + k + 1));
  }

  lemma SameComponents(x: seq<char>, y: seq<char>)
    requires x == y
    ensures Components(x) == Components(y)
  {
  }

  // ---- Printing ----------------------------------------------------------------------

  /** out holds text and a terminator at the start, and behind them what was there before. */
  ghost predicate Printed(was: seq<char>, now: seq<char>, text: string) {
    && |text| < |now| == |was|
    && now[..|text|] == text && now[|text|] == NUL
    && now[|text| + 1..] == was[|text| + 1..]
  }

  /** append_node_name_to_path. The check leaves the terminator out of account: it is the caller who leaves room for
      it. */
  method AppendNodeNameToPath(name: string, out: array<char>, at: nat, available: nat) returns (status: Status)
    requires 0 < available && |name| + 1 <= available ==> at + |name| + 2 <= out.Length
    modifies out
    ensures status == if available == 0 || available < |name| + 1 then DataOverFlow else Success
    ensures status == Success ==>
              Printed(old(out[at..]), out[at..], [PATH_DELIMITER] + name) && out[..at] == old(out[..at])
    ensures status != Success ==> out[..] == old(out[..])
  {
    if available == 0 { return DataOverFlow; }
    if available < |name| + 1 { return DataOverFlow; }
    out[at] := PATH_DELIMITER;
    for i := 0 to |name|
      invariant out[at] == PATH_DELIMITER && out[at + 1..at + 1 + i] == name[..i]
      invariant out[..at] == old(out[..at]) && out[at + 1 + i..] == old(out[at + 1 + i..])
    {
      out[at + i + 1] := name[i];
    }
    out[at + |name| + 1] := NUL;
    assert out[at..at + 1 + |name|] == [out[at]] + out[at + 1..at + 1 + |name|] && name[..|name|] == name;
    assert out[at..][..|name| + 1] == out[at..at + 1 + |name|];
    return Success;
  }

  /** Text printed behind text. */
  lemma PrintedBehind(was: seq<char>, mid: seq<char>, now: seq<char>, text: string, more: string)
    requires Printed(was, mid, text) || (mid == was && text == [])
    requires |mid| == |now| && |text| <= |mid|
    requires Printed(mid[|text|..], now[|text|..], more) && now[..|text|] == mid[..|text|]
    requires more != []
    ensures Printed(was, now, text + more)
  {
    var n := |text| + |more|;
    assert now[..n] == now[..|text|] + now[|text|..][..|more|];
    assert now[n + 1..] == now[|text|..][|more| + 1..];
    assert mid[n + 1..] == mid[|text|..][|more| + 1..];
    if mid != was {
      assert mid[n + 1..] == mid[|text| + 1..][|more|..];
      assert was[n + 1..] == was[|text| + 1..][|more|..];
    }
  }

  /** The nearest k ancestors of d and d itself: closest first, none of them the root. */
  ghost predicate ParentsAre(t: Tree, d: int, parents: seq<int>, k: nat) {
    k <= |parents| && forall i :: 0 <= i < k ==> parents[i] == Up(t, d, i)
  }

  lemma RootMark(t: Tree, x: int)
    requires Valid(t) && LiveFolder(t, x)
    ensures 0 <= x < |t.folders| && (t.folders[x].isRoot <==> x == ROOT)
  {
    LiveFolderInRange(t, x);
    assert IsRoot(t, x) <==> x == ROOT;
  }

  lemma HalfWay(t: Tree, d: int, k: nat)
    requires Valid(t) && LiveFolder(t, d) && k <= Depth(t, d)
    ensures LiveFolder(t, Up(t, d, k)) && (Up(t, d, k) == ROOT <==> k == Depth(t, d))
  {
    var m := Depth(t, d);
    UpAdd(t, d, k, m - k);
    UpFromNull(t, m - k);
    AncestorsLive(t, d, k);
    if Up(t, d, k) == ROOT { OneDepth(t, d, k, m); }
  }

  /** The k-th ancestor of d, when the root is not met before it. */
  lemma OnTheWay(t: Tree, d: int, k: nat)
    requires Valid(t) && LiveFolder(t, d) && k <= Depth(t, d)
    ensures var x := Up(t, d, k);
            && 0 <= x < |t.folders|
            && (t.folders[x].isRoot <==> k == Depth(t, d))
            && Up(t, d, k + 1) == t.folders[x].parent
  {
    hide *;
    HalfWay(t, d, k);
    RootMark(t, Up(t, d, k));
    UpNext(t, d, k);
  }

  lemma UpNext(t: Tree, d: int, k: nat)
    requires 0 <= Up(t, d, k) < |t.folders|
    ensures Up(t, d, k + 1) == t.folders[Up(t, d, k)].parent
  {
    UpAdd(t, d, k, 1);
    assert Up(t, Up(t, d, k), 1) == Up(t, t.folders[Up(t, d, k)].parent, 0);
  }

  lemma NextParent(t: Tree, d: int, i: nat)
    requires Valid(t) && LiveFolder(t, d) && 0 < i <= Depth(t, d)
    ensures var q := Up(t, d, i - 1);
            && 0 <= q < |t.folders| && t.folders[q].parent == Up(t, d, i) && 0 <= t.folders[q].parent < |t.folders|
            && (t.folders[t.folders[q].parent].isRoot <==> i == Depth(t, d))
  {
    hide *;
    OnTheWay(t, d, i - 1);
    OnTheWay(t, d, i);
  }

  lemma ParentAndRoot(t: Tree, n: Node)
    requires Valid(t) && (Live(t, n) || n == FolderNode(ROOT))
    ensures n.FileNode? ==> 0 <= n.index < |t.files| && ParentOf(t, n) == t.files[n.index].parent
    ensures n.FolderNode? ==> 0 <= n.index < |t.folders| && ParentOf(t, n) == t.folders[n.index].parent
    ensures n.FolderNode? ==> (t.folders[n.index].isRoot <==> n == FolderNode(ROOT))
    ensures n != FolderNode(ROOT) ==> LiveFolder(t, ParentOf(t, n))
  {
    if n.FolderNode? { RootMark(t, n.index); }
  }

  /** get_parent_folders: succeeds exactly for entries with fewer than MAX_PATH_NODES_AMOUNT parents below the root.
      The last position of the array is written only when it fails. */
  method GetParentFolders(s: VFSEntryStore, n: Node, parents: array<int>) returns (status: Status, amount: nat)
    requires s.Valid() && (Live(s.View(), n) || n == FolderNode(ROOT))
    requires parents.Length == MAX_PATH_NODES_AMOUNT
    modifies parents
    ensures n == FolderNode(ROOT) ==> status == Success && amount == 0
    ensures n != FolderNode(ROOT) ==>
              var d := ParentOf(s.View(), n);
              && status == (if Depth(s.View(), d) < MAX_PATH_NODES_AMOUNT then Success else PathIsTooLong)
              && amount == (if status == Success then Depth(s.View(), d) else MAX_PATH_NODES_AMOUNT)
              && ParentsAre(s.View(), d, parents[..], amount)
              && parents[amount..] == old(parents[amount..])
  {
    ghost var t := s.View();
    ghost var d := ParentOf(t, n);
    amount := 0;
    ParentAndRoot(t, n);
    hide EntryTree.Valid, Up, Depth, LiveFolder, ParentOf, Live, VFSEntryStore.Valid;
    var p;
    if n.FileNode? {
      p := s.files[n.index].parent;
      OnTheWay(t, d, 0);
      if s.folders[p].isRoot { return Success, amount; }
    } else {
      if s.folders[n.index].isRoot { return Success, amount; }
      p := s.folders[n.index].parent;
      OnTheWay(t, d, 0);
      if s.folders[p].isRoot { return Success, amount; }
    }
    parents[0] := p;
    status, amount := ParentsAbove(s, p, parents);
  }

  /** The array of get_parent_folders, folder by folder: first d, and then each the parent of the one before. */
  lemma ParentsChain(t: Tree, d: int, parents: seq<int>, k: nat, i: nat)
    requires Valid(t) && LiveFolder(t, d) && k <= Depth(t, d) && i < k && ParentsAre(t, d, parents, k)
    ensures k <= |parents| && (i == 0 ==> parents[i] == d)
    ensures 0 <= parents[i] < |t.folders|
    ensures i + 1 < k ==> parents[i + 1] == t.folders[parents[i]].parent
  {
    hide *;
    ParentsAt(t, d, parents, k, i);
    HalfWay(t, d, i);
    LiveFolderInRange(t, Up(t, d, i));
    NextOfUp(t, d, i);
    if i + 1 < k { ParentsAt(t, d, parents, k, i + 1); }
  }

  lemma ParentsAt(t: Tree, d: int, parents: seq<int>, k: nat, i: nat)
    requires i < k && ParentsAre(t, d, parents, k)
    ensures k <= |parents| && parents[i] == Up(t, d, i) && Up(t, d, 0) == d
  {
  }

  lemma NextOfUp(t: Tree, d: int, i: nat)
    requires 0 <= Up(t, d, i) < |t.folders|
    ensures Up(t, d, i + 1) == t.folders[Up(t, d, i)].parent
  {
    UpAdd(t, d, i, 1);
    assert Up(t, t.folders[Up(t, d, i)].parent, 0) == t.folders[Up(t, d, i)].parent;
  }

  /** The loop of get_parent_folders, from the first parent d on. */
  method ParentsAbove(s: VFSEntryStore, d: int, parents: array<int>) returns (status: Status, amount: nat)
    requires s.Valid() && LiveFolder(s.View(), d) && 0 < Depth(s.View(), d)
    requires parents.Length == MAX_PATH_NODES_AMOUNT && parents[0] == d
    modifies parents
    ensures status == (if Depth(s.View(), d) < MAX_PATH_NODES_AMOUNT then Success else PathIsTooLong)
    ensures amount == if status == Success then Depth(s.View(), d) else MAX_PATH_NODES_AMOUNT
    ensures ParentsAre(s.View(), d, parents[..], amount) && parents[amount..] == old(parents[amount..])
  {
    ghost var t := s.View();
    assert Up(t, d, 0) == d && t.folders == s.folders[..];
    assert ParentsAre(t, d, parents[..], 1);
    hide *;
    amount := 1;
    for i := 1 to MAX_PATH_NODES_AMOUNT
      invariant amount == i <= Depth(t, d) && parents[i - 1] == Up(t, d, i - 1)
      invariant ParentsAre(t, d, parents[..], amount) && parents[amount..] == old(parents[amount..])
    {
      NextParent(t, d, i);
      if s.folders[s.folders[parents[i - 1]].parent].isRoot {
        return Success, amount;
      }
      ghost var was := parents[..];
      parents[i] := s.folders[parents[i - 1]].parent;
      OneMoreParent(t, d, was, parents[..], i);
      amount := amount + 1;
    }
    return PathIsTooLong, amount;
  }

  lemma OneMoreParent(t: Tree, d: int, was: seq<int>, now: seq<int>, k: nat)
    requires k < |was| && now == was[k := Up(t, d, k)] && ParentsAre(t, d, was, k)
    ensures ParentsAre(t, d, now, k + 1) && now[k + 1..] == was[k..][1..]
  {
  }

  /** The bytes that k names of full length take with a delimiter in front of each. */
  function PathRoom(k: nat): nat { k * (MAX_NAME_LENGTH + 1) }

  lemma PathRoomIs(k: nat)
    ensures PathRoom(k) == k * (MAX_NAME_LENGTH + 1)
  {
  }

  /** What a printed text leaves in the buffer, character by character. */
  lemma PrintedChars(was: seq<char>, now: seq<char>, text: string)
    requires Printed(was, now, text)
    ensures |now| == |was| && |text| < |now| && now[|text|] == '\0'
    ensures forall k :: 0 <= k < |text| ==> now[k] == text[k]
    ensures forall k :: |text| < k < |now| ==> now[k] == was[k]
  {
    assert forall k :: |text| < k < |now| ==> now[k] == now[|text| + 1..][k - |text| - 1];
    assert forall k :: |text| < k < |now| ==> was[k] == was[|text| + 1..][k - |text| - 1];
  }

  lemma RoomForOneMore(k: nat)
    ensures PathRoom(k + 1) == PathRoom(k) + MAX_NAME_LENGTH + 1
  {
  }

  lemma RoomGrows(j: nat, k: nat)
    requires j <= k
    ensures PathRoom(j) <= PathRoom(k)
    decreases k - j
  {
    if j < k { RoomForOneMore(k - 1); RoomGrows(j, k - 1); }
  }

  lemma NameLength(name: string)
    requires NameValid(name)
    ensures 0 < |name| <= MAX_NAME_LENGTH && NUL !in name
  {
  }

  /** The names on the path of n, by the ancestors they belong to. */
  lemma {:induction false} NamesUpAt(t: Tree, d: int, k: nat, j: nat)
    requires j < k
    ensures |NamesUp(t, d, k)| == k && NamesUp(t, d, k)[j] == NameOf(t, FolderNode(Up(t, d, k - 1 - j)))
    decreases k
  {
    var q := ParentOf(t, FolderNode(d));
    if k == 1 {
      assert NamesUp(t, q, 0) == [];
    } else {
      NamesUpAt(t, q, k - 1, if j < k - 1 then j else 0);
      if j < k - 1 {
        if !(0 <= d < |t.folders|) { UpFromNull(t, k - 2 - j); }
      }
    }
  }

  lemma PathNameAt(t: Tree, n: Node, j: nat)
    requires Valid(t) && Live(t, n) && j < |PathNames(t, n)|
    ensures var k := |PathNames(t, n)| - 1; var d := ParentOf(t, n);
            && LiveFolder(t, d) && k == Depth(t, d)
            && PathNames(t, n)[j] == (if j < k then NameOf(t, FolderNode(Up(t, d, k - 1 - j))) else NameOf(t, n))
            && NameValid(PathNames(t, n)[j]) && NUL !in PathNames(t, n)[j]
            && 0 < |PathNames(t, n)[j]| <= MAX_NAME_LENGTH
  {
    hide *;
    PathLength(t, n);
    PathNamesValid(t, n);
    PathNamesParts(t, n);
    var d := ParentOf(t, n);
    if j < Depth(t, d) { NamesUpAt(t, d, Depth(t, d), j); }
    NameLength(PathNames(t, n)[j]);
  }

  lemma PathNamesParts(t: Tree, n: Node)
    requires Valid(t) && Live(t, n) && LiveFolder(t, ParentOf(t, n))
    ensures var d := ParentOf(t, n); var k := Depth(t, d);
            && |NamesUp(t, d, k)| == k && |PathNames(t, n)| == k + 1 && PathNames(t, n)[k] == NameOf(t, n)
            && forall j :: 0 <= j < k ==> PathNames(t, n)[j] == NamesUp(t, d, k)[j]
  {
    hide Valid, Live, LiveFolder, Depth, NamesUp, NameOf, ParentOf;
    NamesUpLength(t, ParentOf(t, n), Depth(t, ParentOf(t, n)));
  }

  lemma PathLength(t: Tree, n: Node)
    requires Valid(t) && Live(t, n)
    ensures LiveFolder(t, ParentOf(t, n)) && |PathNames(t, n)| == Depth(t, ParentOf(t, n)) + 1 && n != FolderNode(ROOT)
  {
    PathNamesValid(t, n);
    LiveInStore(t, n);
  }

  lemma EntryInArray(s: VFSEntryStore, n: Node)
    requires s.Valid() && Live(s.View(), n)
    ensures s.View().folders == s.folders[..] && s.View().files == s.files[..] && Valid(s.View())
    ensures n.FileNode? ==> 0 <= n.index < s.files.Length && s.files[n.index].name == NameOf(s.View(), n)
    ensures n.FolderNode? ==> 0 <= n.index < s.folders.Length && s.folders[n.index].name == NameOf(s.View(), n)
  {
  }

  lemma ParentNamed(t: Tree, n: Node, parents: seq<int>, amount: nat, j: nat)
    requires Valid(t) && Live(t, n) && LiveFolder(t, ParentOf(t, n)) && amount == Depth(t, ParentOf(t, n))
    requires ParentsAre(t, ParentOf(t, n), parents, amount) && j < amount
    ensures j < |PathNames(t, n)| && amount <= |parents| && 0 <= parents[amount - 1 - j] < |t.folders|
    ensures t.folders[parents[amount - 1 - j]].name == PathNames(t, n)[j] && |PathNames(t, n)[j]| <= MAX_NAME_LENGTH
  {
    var d := ParentOf(t, n);
    assert parents[amount - 1 - j] == Up(t, d, amount - 1 - j);
    hide Valid, Live, LiveFolder, Depth, Up, ParentOf, PathNames, ParentsAre;
    PathLength(t, n);
    PathNameAt(t, n, j);
    OnTheWay(t, d, amount - 1 - j);
  }

  /** The first j names are printed, and the numbers kept along agree. */
  ghost predicate Progress(was: seq<char>, now: seq<char>, names: seq<string>, j: nat, at: nat, available: nat,
                           total: nat) {
    && j <= |names| && |was| == |now|
    && at == |PathText(names[..j])| <= PathRoom(j) && available + at == total <= |was|
    && (if j == 0 then now == was else Printed(was, now, PathText(names[..j])))
  }

  lemma NothingPrinted(was: seq<char>, names: seq<string>, total: nat)
    requires total <= |was|
    ensures Progress(was, was, names, 0, 0, total, total)
  {
  }

  lemma AllPrinted(was: seq<char>, now: seq<char>, names: seq<string>, at: nat, available: nat, total: nat)
    requires Progress(was, now, names, |names|, at, available, total) && 0 < |names| <= MAX_PATH_NODES_AMOUNT
    ensures Printed(was, now, PathText(names)) && |PathText(names)| <= PathRoom(MAX_PATH_NODES_AMOUNT)
  {
    assert names[..|names|] == names;
    hide PathRoom, PathText, Printed;
    RoomGrows(|names|, MAX_PATH_NODES_AMOUNT);
  }

  /** Appending the next name fits, terminator included. */
  lemma NextFits(was: seq<char>, now: seq<char>, names: seq<string>, j: nat, at: nat, available: nat, total: nat)
    requires Progress(was, now, names, j, at, available, total)
    requires j < |names| <= MAX_PATH_NODES_AMOUNT
    requires PathRoom(MAX_PATH_NODES_AMOUNT) + 1 <= total && |names[j]| <= MAX_NAME_LENGTH
    ensures |names[j]| + 1 < available && at + |names[j]| + 2 <= total <= |now|
  {
    hide PathRoom, PathText;
    RoomForOneMore(j);
    RoomGrows(j + 1, MAX_PATH_NODES_AMOUNT);
  }

  lemma OneMorePrinted(was: seq<char>, mid: seq<char>, now: seq<char>, names: seq<string>, j: nat,
                       at: nat, available: nat, total: nat)
    requires Progress(was, mid, names, j, at, available, total)
    requires j < |names| && |names[j]| <= MAX_NAME_LENGTH
    requires |names[j]| + 1 <= available && |mid| == |now| && at <= |now|
    requires Printed(mid[at..], now[at..], [PATH_DELIMITER] + names[j]) && now[..at] == mid[..at]
    ensures Progress(was, now, names, j + 1, at + |names[j]| + 1, available - (|names[j]| + 1), total)
  {
    var text := PathText(names[..j]);
    RoomForOneMore(j);
    assert names[..j + 1][..j] == names[..j];
    assert PathText(names[..j + 1]) == text + ([PATH_DELIMITER] + names[j]);
    hide Printed, PathText, PathRoom;
    PrintedBehind(was, mid, now, text, [PATH_DELIMITER] + names[j]);
  }

  lemma EntryMark(s: VFSEntryStore, n: Node)
    requires s.Valid() && (Live(s.View(), n) || n == FolderNode(ROOT))
    ensures Valid(s.View()) && (n != FolderNode(ROOT) ==> Live(s.View(), n))
    ensures n.FolderNode? ==>
              0 <= n.index < s.folders.Length && (s.folders[n.index].isRoot <==> n == FolderNode(ROOT))
  {
    ParentAndRoot(s.View(), n);
  }

  /** The branch of get_node_path for the root. */
  method PrintRoot(out: array<char>)
    requires PathRoom(MAX_PATH_NODES_AMOUNT) < out.Length
    modifies out
    ensures Printed(old(out[..]), out[..], "/") && [PATH_DELIMITER] == "/"
    ensures |"/"| <= PathRoom(MAX_PATH_NODES_AMOUNT)
  {
    RoomForOneMore(0);
    RoomGrows(1, MAX_PATH_NODES_AMOUNT);
    hide PathRoom;
    out[0] := PATH_DELIMITER;
    out[1] := NUL;
  }

  /** get_node_path: prints the path of an entry as a C string, exactly when it has fewer than MAX_PATH_NODES_AMOUNT
      parents below the root. The two answers about overflow are never given, although the checks behind them ignore
      the terminator. */
  method GetNodePath(s: VFSEntryStore, n: Node, out: array<char>, pathLength: nat) returns (status: Status)
    requires s.Valid() && (Live(s.View(), n) || n == FolderNode(ROOT))
    requires pathLength <= out.Length
    modifies out
    ensures status == (if pathLength < PathRoom(MAX_PATH_NODES_AMOUNT) + 1 then InsufficientArrayPassed
                       else if n == FolderNode(ROOT) then Success
                       else if Depth(s.View(), ParentOf(s.View(), n)) < MAX_PATH_NODES_AMOUNT then Success
                       else PathIsTooLong)
    ensures status != Success ==> out[..] == old(out[..])
    ensures status == Success ==>
              var text := if n == FolderNode(ROOT) then [PATH_DELIMITER] else PathText(PathNames(s.View(), n));
              && Printed(old(out[..]), out[..], text) && |text| <= PathRoom(MAX_PATH_NODES_AMOUNT) < pathLength
    ensures status == InsufficientArrayPassed <==> pathLength < MAX_PATH_NODES_AMOUNT * (MAX_NAME_LENGTH + 1) + 1
    ensures status == Success ==>
              var text := if n == FolderNode(ROOT) then "/" else PathText(PathNames(s.View(), n));
              && |text| <= MAX_PATH_NODES_AMOUNT * (MAX_NAME_LENGTH + 1) && |text| < out.Length && out[|text|] == '\0'
              && (forall k :: 0 <= k < |text| ==> out[k] == text[k])
              && forall k :: |text| < k < out.Length ==> out[k] == old(out[..])[k]
  {
    hide *;
    ghost var t, was := s.View(), out[..];
    EntryMark(s, n);
    PathRoomIs(MAX_PATH_NODES_AMOUNT);
    if pathLength < PathRoom(MAX_PATH_NODES_AMOUNT) + 1 { return InsufficientArrayPassed; }
    if n.FolderNode? && s.folders[n.index].isRoot {
      PrintRoot(out);
      PrintedChars(was, out[..], "/");
      return Success;
    }
    PathLength(t, n);
    status := PrintPath(s, n, out, pathLength);
    if status == Success { PrintedChars(was, out[..], PathText(PathNames(t, n))); }
  }

  /** get_node_path, for an entry other than the root and an array that is long enough. */
  method PrintPath(s: VFSEntryStore, n: Node, out: array<char>, pathLength: nat) returns (status: Status)
    requires s.Valid() && Live(s.View(), n) && PathRoom(MAX_PATH_NODES_AMOUNT) < pathLength <= out.Length
    modifies out
    ensures status == if |PathNames(s.View(), n)| <= MAX_PATH_NODES_AMOUNT then Success else PathIsTooLong
    ensures status != Success ==> out[..] == old(out[..])
    ensures status == Success ==> Printed(old(out[..]), out[..], PathText(PathNames(s.View(), n)))
    ensures status == Success ==> |PathText(PathNames(s.View(), n))| <= PathRoom(MAX_PATH_NODES_AMOUNT)
  {
    hide *;
    EntryInArray(s, n);
    ghost var t := s.View();
    ghost var names, was := PathNames(t, n), out[..];
    PathLength(t, n);
    var parents := new int[MAX_PATH_NODES_AMOUNT];
    var amount;
    status, amount := GetParentFolders(s, n, parents);
    if status != Success { return; }
    var at, available;
    at, available := PrintParents(s, n, parents, amount, out, pathLength);
    PathNameAt(t, n, amount);
    var name := if n.FileNode? then s.files[n.index].name else s.folders[n.index].name;
    status, at, available := AppendNext(name, was, out, names, amount, at, available, pathLength);
    AllPrinted(was, out[..], names, at, available, pathLength);
    return Success;
  }

  /** The loop of get_node_path over the parents of n, topmost first. */
  method PrintParents(s: VFSEntryStore, n: Node, parents: array<int>, amount: nat, out: array<char>, pathLength: nat)
    returns (at: nat, available: nat)
    requires s.Valid() && Live(s.View(), n) && PathRoom(MAX_PATH_NODES_AMOUNT) < pathLength <= out.Length
    requires amount + 1 == |PathNames(s.View(), n)| <= MAX_PATH_NODES_AMOUNT
    requires ParentsAre(s.View(), ParentOf(s.View(), n), parents[..], amount)
    modifies out
    ensures Progress(old(out[..]), out[..], PathNames(s.View(), n), amount, at, available, pathLength)
  {
    ghost var t := s.View();
    ghost var names, was, ps := PathNames(t, n), out[..], parents[..];
    PathLength(t, n);
    EntryInArray(s, n);
    hide *;
    at, available := 0, pathLength;
    NothingPrinted(was, names, pathLength);
    for i := 1 to amount + 1
      invariant Progress(was, out[..], names, i - 1, at, available, pathLength)
    {
      ParentNamed(t, n, ps, amount, i - 1);
      assert parents[amount - i] == ps[amount - i];
      var status;
      status, at, available :=
        AppendNext(s.folders[parents[amount - i]].name, was, out, names, i - 1, at, available, pathLength);
    }
  }

  /** One append of get_node_path with the bookkeeping behind it. It never meets the answer about overflow. */
  method AppendNext(name: string, ghost was: seq<char>, out: array<char>, ghost names: seq<string>, ghost j: nat,
                    at: nat, available: nat, ghost total: nat)
    returns (status: Status, at': nat, available': nat)
    requires Progress(was, out[..], names, j, at, available, total)
    requires j < |names| <= MAX_PATH_NODES_AMOUNT && PathRoom(MAX_PATH_NODES_AMOUNT) + 1 <= total
    requires names[j] == name && |name| <= MAX_NAME_LENGTH
    modifies out
    ensures status == Success && Progress(was, out[..], names, j + 1, at', available', total)
  {
    hide Progress, PathRoom, Printed;
    ghost var mid := out[..];
    NextFits(was, mid, names, j, at, available, total);
    at', available' := at, available;
    status := AppendNodeNameToPath(name, out, at, available);
    if status != Success { return; }
    assert out[at..] == out[..][at..] && mid[at..] == old(out[at..]);
    OneMorePrinted(was, mid, out[..], names, j, at, available, total);
    available' := available - (|name| + 1);
    at' := at + (|name| + 1);
  }
}
