/** Subtrees of a valid tree, and what recursive deletion may take from them. */
module Subtrees {
  import opened Settings
  import opened EntryTree
  import opened TreeSteps

  /** n is folder d or lies below it. */
  ghost predicate InSubtree(t: Tree, d: int, n: Node) {
    Live(t, n) && (n == FolderNode(d) || Below(t, d, ParentOf(t, n)))
  }

  /** Some folder lies so far below d that a recursion which enters d at this step exceeds its limit. */
  ghost predicate TooDeep(t: Tree, d: int, step: nat) {
    exists x, k: nat :: LiveFolder(t, x) && Up(t, x, k) == d && step + k > MAX_FOLDER_DEPTH
  }

  lemma UpOne(t: Tree, x: int, k: nat, c: int)
    requires Valid(t) && Live(t, FolderNode(c)) && Up(t, x, k) == c
    ensures Up(t, x, k + 1) == ParentOf(t, FolderNode(c))
  {
    UpAdd(t, x, k, 1);
  }

  lemma UpFrom(t: Tree, x: int, k: nat)
    requires Valid(t) && Live(t, FolderNode(x)) && 0 < k
    ensures Up(t, x, k) == Up(t, ParentOf(t, FolderNode(x)), k - 1) && LiveFolder(t, ParentOf(t, FolderNode(x)))
  {
  }

  /** A folder of the subtree of d is below d. */
  lemma FolderInSubtree(t: Tree, d: int, x: int)
    requires Valid(t) && InSubtree(t, d, FolderNode(x))
    ensures LiveFolder(t, x) && Below(t, d, x)
  {
    BelowStep(t, d, x);
  }

  /** The distance between a folder and one above it is unique. */
  lemma OneDistance(t: Tree, x: int, d: int, j: nat, k: nat)
    requires Valid(t) && LiveFolder(t, d) && Up(t, x, j) == d && Up(t, x, k) == d
    ensures j == k
  {
    assert Reaches(t, d);
    var m: nat :| Up(t, d, m) == ROOT;
    SameDistance(t, x, d, j, k, m);
  }

  lemma SameDistance(t: Tree, x: int, d: int, j: nat, k: nat, m: nat)
    requires Shape(t) && Roots(t) && Up(t, d, m) == ROOT && Up(t, x, j) == d && Up(t, x, k) == d
    ensures j == k
  {
    hide Shape, Roots, Up;
    UpAdd(t, x, j, m);
    UpAdd(t, x, k, m);
    OneDepth(t, x, j + m, k + m);
  }

  lemma NotBelowChild(t: Tree, d: int, c: int)
    requires Valid(t) && Live(t, FolderNode(c)) && ParentOf(t, FolderNode(c)) == d
    ensures !Below(t, c, d)
  {
    hide Valid, LiveFolder, Live;
    forall k: nat ensures Up(t, d, k) != c {
      if Up(t, d, k) == c {
        assert Up(t, c, 0) == c;
        UpOne(t, c, 0, c);
        UpAdd(t, c, 1, k);
        assert LiveFolder(t, c) by { ChildIsFolder(t, c); }
        OneDistance(t, c, c, 0, 1 + k);
      }
    }
  }

  lemma ChildIsFolder(t: Tree, c: int)
    requires Live(t, FolderNode(c))
    ensures LiveFolder(t, c)
  {
  }

  lemma {:induction false} PrunedUp(t: Tree, t': Tree, gone: set<Node>, d: int, k: nat)
    requires Valid(t) && Valid(t') && Pruned(t, t', gone) && LiveFolder(t', d)
    ensures Up(t', d, k) == Up(t, d, k)
    decreases k
  {
    if k > 0 {
      if d == ROOT {
        UpFromNull(t, k - 1);
        UpFromNull(t', k - 1);
      } else {
        var n := FolderNode(d);
        assert Live(t', n) && LiveFolder(t', ParentOf(t', n)) && ParentOf(t', n) == ParentOf(t, n);
        PrunedUp(t, t', gone, ParentOf(t, n), k - 1);
      }
    }
  }

  /** What lies below c in the pruned tree lay below the parent of c in the whole tree. */
  lemma SubtreeOfChild(t0: Tree, t: Tree, gone: set<Node>, d: int, c: int, n: Node)
    requires Valid(t0) && Valid(t) && Pruned(t0, t, gone)
    requires Live(t, FolderNode(c)) && ParentOf(t, FolderNode(c)) == d && InSubtree(t, c, n)
    ensures InSubtree(t0, d, n) && n != FolderNode(d)
  {
    var q := ParentOf(t, n);
    assert LiveFolder(t, q) && q == ParentOf(t0, n);
    NotBelowChild(t, d, c);
    if n == FolderNode(d) { FolderInSubtree(t, c, d); }
    if n == FolderNode(c) {
      assert Up(t0, d, 0) == d;
    } else {
      var k: nat :| Up(t, q, k) == c;
      UpOne(t, q, k, c);
      PrunedUp(t0, t, gone, q, k + 1);
    }
  }

  /** A folder that has become childless has lost everything that was below it. */
  lemma ChildlessLostAll(t0: Tree, t: Tree, gone: set<Node>, d: int, n: Node)
    requires Valid(t0) && Valid(t) && Pruned(t0, t, gone) && LiveFolder(t, d) && Childless(t, d)
    requires InSubtree(t0, d, n) && n != FolderNode(d)
    ensures n in gone
  {
    if n !in gone {
      var q := ParentOf(t0, n);
      assert Live(t, n) && ParentOf(t, n) == q && LiveFolder(t, q) && q != d;
      var k: nat :| Up(t0, q, k) == d;
      PrunedUp(t0, t, gone, q, k);
      OnlyChildlessBelow(t, d, q, k);
    }
  }

  lemma DeeperThanChild(t0: Tree, t: Tree, gone: set<Node>, d: int, c: int, step: nat)
    requires Valid(t0) && Valid(t) && Pruned(t0, t, gone)
    requires Live(t, FolderNode(c)) && ParentOf(t, FolderNode(c)) == d && TooDeep(t, c, step + 1)
    ensures TooDeep(t0, d, step)
  {
    hide Valid, LiveFolder, Live, Pruned;
    var x, k: nat :| LiveFolder(t, x) && Up(t, x, k) == c && step + 1 + k > MAX_FOLDER_DEPTH;
    UpOne(t, x, k, c);
    PrunedUp(t0, t, gone, x, k + 1);
    PrunedLive(t0, t, gone, x);
    assert step + (k + 1) > MAX_FOLDER_DEPTH;
  }

  lemma PrunedLive(t0: Tree, t: Tree, gone: set<Node>, x: int)
    requires Pruned(t0, t, gone) && LiveFolder(t, x)
    ensures LiveFolder(t0, x)
  {
  }

  /** Every folder in gone lies within reach of a recursion that enters d at step. */
  ghost predicate WithinReach(t: Tree, d: int, step: nat, gone: set<Node>) {
    forall x, k: nat :: FolderNode(x) in gone && Up(t, x, k) == d ==> step + k <= MAX_FOLDER_DEPTH
  }

  lemma ChildWithinReach(t0: Tree, t: Tree, gone: set<Node>, d: int, c: int, step: nat, more: set<Node>)
    requires Valid(t0) && Valid(t) && Pruned(t0, t, gone) && LiveFolder(t0, d)
    requires Live(t, FolderNode(c)) && ParentOf(t, FolderNode(c)) == d && !TooDeep(t, c, step + 1)
    requires forall n :: n in more ==> InSubtree(t, c, n)
    requires WithinReach(t0, d, step, gone)
    ensures WithinReach(t0, d, step, gone + more)
  {
    forall x, k: nat | FolderNode(x) in gone + more && Up(t0, x, k) == d ensures step + k <= MAX_FOLDER_DEPTH {
      if FolderNode(x) in more {
        FolderInSubtree(t, c, x);
        var j: nat :| Up(t, x, j) == c;
        UpOne(t, x, j, c);
        PrunedUp(t0, t, gone, x, j + 1);
        OneDistance(t0, x, d, j + 1, k);
        assert !(step + 1 + j > MAX_FOLDER_DEPTH);
      }
    }
  }

  lemma AllWithinReach(t: Tree, d: int, step: nat, gone: set<Node>)
    requires Valid(t) && LiveFolder(t, d) && WithinReach(t, d, step, gone) && step <= MAX_FOLDER_DEPTH
    requires forall n :: InSubtree(t, d, n) && n != FolderNode(d) ==> n in gone
    ensures !TooDeep(t, d, step)
  {
    forall x, k: nat | LiveFolder(t, x) && Up(t, x, k) == d ensures step + k <= MAX_FOLDER_DEPTH {
      if x == d {
        assert Up(t, x, 0) == d;
        OneDistance(t, x, d, 0, k);
      } else {
        StrictlyBelow(t, d, x, k);
      }
    }
  }

  lemma StrictlyBelow(t: Tree, d: int, x: int, k: nat)
    requires Valid(t) && LiveFolder(t, d) && LiveFolder(t, x) && Up(t, x, k) == d && x != d
    ensures InSubtree(t, d, FolderNode(x))
  {
    if x == ROOT {
      assert false;
    } else {
      UpFrom(t, x, k);
    }
  }

  // ---- What a deletion that fails has taken ------------------------------------------

  /** The first occupied slot, |slots| when there is none. */
  ghost function FirstOccupied(slots: seq<int>): (i: nat)
    ensures i <= |slots| && forall j :: 0 <= j < i ==> slots[j] == NULL
    ensures i < |slots| ==> slots[i] != NULL
  {
    if slots == [] || slots[0] != NULL then 0 else 1 + FirstOccupied(slots[1..])
  }

  lemma FirstOccupiedIs(slots: seq<int>, i: nat)
    requires i <= |slots| && (forall j :: 0 <= j < i ==> slots[j] == NULL) && (i < |slots| ==> slots[i] != NULL)
    ensures FirstOccupied(slots) == i
  {
  }

  /** A recursive deletion that enters folder d at this step fails before it has taken anything: along the first
      occupied folder slots it goes straight down, past folders without files, to the depth limit or to a root without
      children. */
  ghost predicate TakesNothing(t: Tree, d: int, step: nat)
    decreases if step > MAX_FOLDER_DEPTH then 0 else MAX_FOLDER_DEPTH + 1 - step
  {
    || step > MAX_FOLDER_DEPTH
    || (AllVacant(Slots(t, d, FileNode(0))) &&
        if AllVacant(Slots(t, d, FolderNode(0))) then d == ROOT else FoldersTakeNothing(t, d, step))
  }

  /** The same, for the folders below d. */
  ghost predicate FoldersTakeNothing(t: Tree, d: int, step: nat)
    requires step <= MAX_FOLDER_DEPTH
    decreases MAX_FOLDER_DEPTH + 1 - step, 0
  {
    var slots := Slots(t, d, FolderNode(0));
    FirstOccupied(slots) < |slots| && TakesNothing(t, slots[FirstOccupied(slots)], step + 1)
  }

  lemma SlotsAsBefore(t: Tree, t': Tree, d: int, m: Node)
    requires Pruned(t, t', {}) && LiveFolder(t, d)
    ensures LiveFolder(t', d) && Slots(t', d, m) == Slots(t, d, m)
  {
    assert LiveFolder(t', d);
    assert Slots(t', d, m) == Cleared(Slots(t, d, m), m, {});
  }

  lemma ChildIsLive(t: Tree, d: int, i: nat)
    requires Valid(t) && LiveFolder(t, d) && i < |Slots(t, d, FolderNode(0))| && Slots(t, d, FolderNode(0))[i] != NULL
    ensures LiveFolder(t, Slots(t, d, FolderNode(0))[i])
  {
    var n := FolderNode(Slots(t, d, FolderNode(0))[i]);
    assert Slots(t, d, n) == Slots(t, d, FolderNode(0));
    assert HasSlot(t, d, n);
  }

  lemma NothingBelowLimit(t: Tree, d: int, step: nat)
    requires step > MAX_FOLDER_DEPTH
    ensures TakesNothing(t, d, step)
  {
  }

  lemma TakesNothingIs(t: Tree, d: int, step: nat)
    requires step <= MAX_FOLDER_DEPTH
    ensures TakesNothing(t, d, step) <==>
            AllVacant(Slots(t, d, FileNode(0))) &&
            if AllVacant(Slots(t, d, FolderNode(0))) then d == ROOT else FoldersTakeNothing(t, d, step)
  {
  }

  lemma FoldersTakeNothingIs(t: Tree, d: int, step: nat)
    requires step <= MAX_FOLDER_DEPTH
    ensures var slots := Slots(t, d, FolderNode(0));
            var i := FirstOccupied(slots);
            && (FoldersTakeNothing(t, d, step) <==> i < |slots| && TakesNothing(t, slots[i], step + 1))
            && (i < |slots| ==> slots[i] != NULL)
  {
  }

  /** Dead positions have no say in what a deletion takes. */
  lemma {:induction false} TakesNothingKept(t: Tree, t': Tree, d: int, step: nat)
    requires Valid(t) && Pruned(t, t', {}) && LiveFolder(t, d)
    ensures TakesNothing(t', d, step) == TakesNothing(t, d, step)
    ensures step <= MAX_FOLDER_DEPTH ==> FoldersTakeNothing(t', d, step) == FoldersTakeNothing(t, d, step)
    decreases if step > MAX_FOLDER_DEPTH then 0 else MAX_FOLDER_DEPTH + 1 - step
  {
    hide *;
    if step > MAX_FOLDER_DEPTH {
      NothingBelowLimit(t, d, step);
      NothingBelowLimit(t', d, step);
    } else {
      SlotsAsBefore(t, t', d, FileNode(0));
      SlotsAsBefore(t, t', d, FolderNode(0));
      TakesNothingIs(t, d, step);
      TakesNothingIs(t', d, step);
      FoldersTakeNothingIs(t, d, step);
      FoldersTakeNothingIs(t', d, step);
      var slots := Slots(t, d, FolderNode(0));
      var i := FirstOccupied(slots);
      if i < |slots| {
        ChildIsLive(t, d, i);
        TakesNothingKept(t, t', slots[i], step + 1);
      }
    }
  }
}
