/** The changes that the operations make to the entry tree, and that each of them keeps the invariant. A change is a
    relation between two trees that says everything about live entries and nothing about what is left in dead
    positions. */
module TreeSteps {
  import opened Settings
  import opened EntryTree

  // ---- What changes ------------------------------------------------------------------

  /** Every entry but n stays as it is, dead or alive. */
  ghost predicate KeepsOthers(t: Tree, t': Tree, n: Node) {
    && Shape(t')
    && (forall m :: m != n ==> (Live(t', m) <==> Live(t, m)))
    && (forall m :: m != n && Live(t, m) ==> ParentOf(t', m) == ParentOf(t, m) && NameOf(t', m) == NameOf(t, m))
    && (forall d :: FolderNode(d) != n && LiveFolder(t, d) ==> IsRoot(t', d) == IsRoot(t, d))
    && ParentOf(t', FolderNode(ROOT)) == ParentOf(t, FolderNode(ROOT))
    && NameOf(t', FolderNode(ROOT)) == NameOf(t, FolderNode(ROOT))
  }

  predicate SameKind(m: Node, n: Node) {
    m.FileNode? == n.FileNode?
  }

  /** The slots for the kind of n change in the folders ps only. */
  ghost predicate KeepsSlots(t: Tree, t': Tree, n: Node, ps: set<int>) {
    forall q, m :: LiveFolder(t, q) && !(q in ps && SameKind(m, n)) ==> Slots(t', q, m) == Slots(t, q, m)
  }

  /** No child of p is called name. */
  ghost predicate Unused(t: Tree, p: int, name: string) {
    forall m :: Live(t, m) && ParentOf(t, m) == p ==> NameOf(t, m) != name
  }

  /** name may be given to a child of p. */
  ghost predicate NameFree(t: Tree, p: int, name: string) {
    NameValid(name) && Unused(t, p, name)
  }

  /** slots' is slots with v put into position s. */
  ghost predicate SlotSet(slots: seq<int>, slots': seq<int>, s: nat, v: int) {
    s < |slots| && slots' == slots[s := v]
  }

  ghost predicate Vacant(slots: seq<int>, s: nat) {
    s < |slots| && slots[s] == NULL
  }

  ghost predicate AllVacant(slots: seq<int>) {
    forall i :: 0 <= i < |slots| ==> slots[i] == NULL
  }

  ghost predicate Holds(slots: seq<int>, s: nat, n: Node) {
    n.index != NULL && s < |slots| && slots[s] == n.index
  }

  ghost predicate Childless(t: Tree, d: int) {
    forall m :: Live(t, m) ==> ParentOf(t, m) != d
  }

  /** n comes to life below p with an empty inside. */
  ghost predicate Added(t: Tree, t': Tree, n: Node, p: int, s: nat, name: string) {
    && KeepsOthers(t, t', n) && KeepsSlots(t, t', n, {p})
    && !Live(t, n) && n != FolderNode(ROOT) && n.index != NULL && LiveFolder(t, p)
    && Live(t', n) && ParentOf(t', n) == p && NameOf(t', n) == name
    && Vacant(Slots(t, p, n), s) && SlotSet(Slots(t, p, n), Slots(t', p, n), s, n.index)
    && (n.FolderNode? ==> !IsRoot(t', n.index) && forall m :: AllVacant(Slots(t', n.index, m)))
  }

  /** n, which has no children, dies. */
  ghost predicate Removed(t: Tree, t': Tree, n: Node, s: nat) {
    var p := ParentOf(t, n);
    && KeepsOthers(t, t', n) && KeepsSlots(t, t', n, {p})
    && Live(t, n) && !Live(t', n)
    && Holds(Slots(t, p, n), s, n) && SlotSet(Slots(t, p, n), Slots(t', p, n), s, NULL)
    && (n.FolderNode? ==> Childless(t, n.index))
  }

  ghost predicate Renamed(t: Tree, t': Tree, n: Node, name: string) {
    && KeepsOthers(t, t', n) && KeepsSlots(t, t', n, {})
    && Live(t, n) && Live(t', n) && ParentOf(t', n) == ParentOf(t, n) && NameOf(t', n) == name
    && (n.FolderNode? ==> IsRoot(t', n.index) == IsRoot(t, n.index))
  }

  /** n moves, with all that is below it, from slot s of its parent to slot s' of p. */
  ghost predicate Moved(t: Tree, t': Tree, n: Node, s: nat, p: int, s': nat) {
    var p0 := ParentOf(t, n);
    && KeepsOthers(t, t', n) && KeepsSlots(t, t', n, {p0, p})
    && Live(t, n) && LiveFolder(t, p) && p != p0
    && Live(t', n) && ParentOf(t', n) == p && NameOf(t', n) == NameOf(t, n)
    && Holds(Slots(t, p0, n), s, n) && SlotSet(Slots(t, p0, n), Slots(t', p0, n), s, NULL)
    && Vacant(Slots(t, p, n), s') && SlotSet(Slots(t, p, n), Slots(t', p, n), s', n.index)
    && (n.FolderNode? ==> IsRoot(t', n.index) == IsRoot(t, n.index))
  }

  /** Live entries and their slots are as they were; dead positions may differ. */
  ghost predicate Untouched(t: Tree, t': Tree) {
    && Shape(t')
    && (forall m :: Live(t', m) <==> Live(t, m))
    && (forall m :: Live(t, m) ==> ParentOf(t', m) == ParentOf(t, m) && NameOf(t', m) == NameOf(t, m))
    && (forall d :: LiveFolder(t, d) ==> IsRoot(t', d) == IsRoot(t, d))
    && ParentOf(t', FolderNode(ROOT)) == ParentOf(t, FolderNode(ROOT))
    && NameOf(t', FolderNode(ROOT)) == NameOf(t, FolderNode(ROOT))
    && (forall q, m :: LiveFolder(t, q) ==> Slots(t', q, m) == Slots(t, q, m))
  }

  // ---- Slots -------------------------------------------------------------------------

  lemma SlotFilled(slots: seq<int>, slots': seq<int>, s: nat, v: int)
    requires Vacant(slots, s) && SlotSet(slots, slots', s, v) && v != NULL
    ensures forall i :: i != NULL ==> (i in slots' <==> i in slots || i == v)
    ensures NoDuplicates(slots) && v !in slots ==> NoDuplicates(slots')
  {
    assert slots'[s] == v;
    forall i | i in slots && i != NULL ensures i in slots' {
      var j :| 0 <= j < |slots| && slots[j] == i;
      assert slots'[j] == i;
    }
  }

  lemma SlotCleared(slots: seq<int>, slots': seq<int>, s: nat, v: int)
    requires NoDuplicates(slots) && s < |slots| && slots[s] == v && v != NULL && SlotSet(slots, slots', s, NULL)
    ensures forall i :: i != NULL ==> (i in slots' <==> i in slots && i != v)
    ensures NoDuplicates(slots')
  {
    forall i | i in slots && i != NULL && i != v ensures i in slots' {
      var j :| 0 <= j < |slots| && slots[j] == i;
      assert slots'[j] == i;
    }
  }

  // ---- Adding ------------------------------------------------------------------------

  lemma AddedLinks(t: Tree, t': Tree, n: Node, p: int, s: nat, name: string)
    requires Valid(t) && Added(t, t', n, p, s, name)
    ensures Links(t') && OneSlotEach(t')
  {
    hide UniqueNames, NamesValid, AllReach, Roots;
    var slots, slots' := Slots(t, p, n), Slots(t', p, n);
    assert !HasSlot(t, p, n);
    SlotFilled(slots, slots', s, n.index);
    forall q, m | LiveFolder(t', q) ensures HasSlot(t', q, m) <==> Live(t', m) && ParentOf(t', m) == q {
      if FolderNode(q) != n {
        assert LiveFolder(t, q);
        assert HasSlot(t, q, m) <==> Live(t, m) && ParentOf(t, m) == q;
        if q == p && SameKind(m, n) {
          assert Slots(t, q, m) == slots && Slots(t', q, m) == slots';
        }
      } else {
        assert q != p;
        if Live(t, m) { assert LiveFolder(t, ParentOf(t, m)); }
      }
    }
    forall q, m | LiveFolder(t', q) ensures NoDuplicates(Slots(t', q, m)) {
      if FolderNode(q) != n {
        assert NoDuplicates(Slots(t, q, m));
        if q == p && SameKind(m, n) {
          assert Slots(t, q, m) == slots && Slots(t', q, m) == slots';
        }
      }
    }
  }

  lemma AddedNames(t: Tree, t': Tree, n: Node, p: int, s: nat, name: string)
    requires Valid(t) && Added(t, t', n, p, s, name) && NameFree(t, p, name)
    requires n.FileNode? ==> |name| < MAX_NAME_LENGTH
    ensures UniqueNames(t') && NamesValid(t') && ParentsLive(t') && Roots(t')
  {
  }

  lemma AddedReach(t: Tree, t': Tree, n: Node, p: int, s: nat, name: string)
    requires Valid(t) && Added(t, t', n, p, s, name)
    ensures AllReach(t')
  {
    var a := if n.FolderNode? then n.index else NULL - 1;
    forall d | LiveFolder(t, d) ensures Reaches(t', d) {
      forall k: nat ensures Up(t, d, k) != a {
        if Up(t, d, k) != NULL { AncestorsLive(t, d, k); }
      }
      PathKeptHere(t, t', n, a, d);
    }
    if n.FolderNode? {
      var k: nat :| Up(t', p, k) == ROOT;
      assert Up(t', n.index, k + 1) == ROOT;
    }
  }

  /** Below no changed folder the way to the root is as it was. */
  lemma PathKeptHere(t: Tree, t': Tree, n: Node, a: int, d: int)
    requires Valid(t) && KeepsOthers(t, t', n) && LiveFolder(t, d)
    requires if n.FolderNode? then a == n.index && a != NULL else a == NULL - 1
    requires !Below(t, a, d)
    ensures Reaches(t', d) && forall k :: Up(t', d, k) == Up(t, d, k)
  {
    forall e | 0 <= e < |t.folders| && e != a && LiveFolder(t, e) ensures t'.folders[e].parent == t.folders[e].parent {
      assert ParentOf(t', FolderNode(e)) == ParentOf(t, FolderNode(e));
    }
    forall k: nat ensures Up(t', d, k) == Up(t, d, k) {
      PathKept(t, t', a, d, k);
    }
    var k: nat :| Up(t, d, k) == ROOT;
    assert Up(t', d, k) == ROOT;
  }

  lemma AddedValid(t: Tree, t': Tree, n: Node, p: int, s: nat, name: string)
    requires Valid(t) && Added(t, t', n, p, s, name) && NameFree(t, p, name)
    requires n.FileNode? ==> |name| < MAX_NAME_LENGTH
    ensures Valid(t')
  {
    AddedLinks(t, t', n, p, s, name);
    AddedNames(t, t', n, p, s, name);
    AddedReach(t, t', n, p, s, name);
  }

  // ---- Removing ----------------------------------------------------------------------

  lemma RemovedLinks(t: Tree, t': Tree, n: Node, s: nat)
    requires Valid(t) && Removed(t, t', n, s)
    ensures Links(t') && OneSlotEach(t')
  {
    hide UniqueNames, NamesValid, AllReach, Roots;
    var p := ParentOf(t, n);
    var slots, slots' := Slots(t, p, n), Slots(t', p, n);
    assert LiveFolder(t, p) && NoDuplicates(slots);
    SlotCleared(slots, slots', s, n.index);
    forall q, m | LiveFolder(t', q) ensures HasSlot(t', q, m) <==> Live(t', m) && ParentOf(t', m) == q {
      assert LiveFolder(t, q);
      assert HasSlot(t, q, m) <==> Live(t, m) && ParentOf(t, m) == q;
      if q == p && SameKind(m, n) {
        assert Slots(t, q, m) == slots && Slots(t', q, m) == slots';
      }
    }
    forall q, m | LiveFolder(t', q) ensures NoDuplicates(Slots(t', q, m)) {
      assert LiveFolder(t, q) && NoDuplicates(Slots(t, q, m));
      if q == p && SameKind(m, n) {
        assert Slots(t, q, m) == slots && Slots(t', q, m) == slots';
      }
    }
  }

  lemma RemovedNames(t: Tree, t': Tree, n: Node, s: nat)
    requires Valid(t) && Removed(t, t', n, s)
    ensures UniqueNames(t') && NamesValid(t') && ParentsLive(t') && Roots(t')
  {
    forall m | Live(t', m) ensures LiveFolder(t', ParentOf(t', m)) {
      assert Live(t, m) && LiveFolder(t, ParentOf(t, m));
    }
  }

  lemma {:induction false} OnlyChildlessBelow(t: Tree, a: int, d: int, k: nat)
    requires Valid(t) && Childless(t, a) && LiveFolder(t, d) && d != a && a != NULL
    ensures Up(t, d, k) != a
    decreases k
  {
    if k > 0 {
      if d == ROOT {
        UpFromNull(t, k - 1);
      } else {
        assert Live(t, FolderNode(d));
        OnlyChildlessBelow(t, a, ParentOf(t, FolderNode(d)), k - 1);
      }
    }
  }

  lemma RemovedReach(t: Tree, t': Tree, n: Node, s: nat)
    requires Valid(t) && Removed(t, t', n, s)
    ensures AllReach(t')
  {
    var a := if n.FolderNode? then n.index else NULL - 1;
    forall d | LiveFolder(t', d) ensures Reaches(t', d) {
      assert LiveFolder(t, d);
      forall k: nat ensures Up(t, d, k) != a {
        if n.FolderNode? {
          OnlyChildlessBelow(t, a, d, k);
        } else if Up(t, d, k) != NULL {
          AncestorsLive(t, d, k);
        }
      }
      PathKeptHere(t, t', n, a, d);
    }
  }

  lemma RemovedValid(t: Tree, t': Tree, n: Node, s: nat)
    requires Valid(t) && Removed(t, t', n, s)
    ensures Valid(t')
  {
    RemovedLinks(t, t', n, s);
    RemovedNames(t, t', n, s);
    RemovedReach(t, t', n, s);
  }

  // ---- Renaming ----------------------------------------------------------------------

  lemma RenamedValid(t: Tree, t': Tree, n: Node, name: string)
    requires Valid(t) && Renamed(t, t', n, name) && NameFree(t, ParentOf(t, n), name)
    requires n.FileNode? ==> |name| < MAX_NAME_LENGTH
    ensures Valid(t')
  {
    RenamedLinks(t, t', n, name);
    RenamedNames(t, t', n, name);
    RenamedReach(t, t', n, name);
  }

  lemma RenamedLinks(t: Tree, t': Tree, n: Node, name: string)
    requires Valid(t) && Renamed(t, t', n, name)
    ensures Links(t') && OneSlotEach(t') && ParentsLive(t') && Roots(t')
  {
    forall q, m | LiveFolder(t', q)
      ensures HasSlot(t', q, m) <==> Live(t', m) && ParentOf(t', m) == q
      ensures NoDuplicates(Slots(t', q, m))
    {
      assert LiveFolder(t, q) && NoDuplicates(Slots(t, q, m));
      assert HasSlot(t, q, m) <==> Live(t, m) && ParentOf(t, m) == q;
    }
  }

  lemma RenamedNames(t: Tree, t': Tree, n: Node, name: string)
    requires Valid(t) && Renamed(t, t', n, name) && NameFree(t, ParentOf(t, n), name)
    requires n.FileNode? ==> |name| < MAX_NAME_LENGTH
    ensures UniqueNames(t') && NamesValid(t')
  {
  }

  lemma RenamedReach(t: Tree, t': Tree, n: Node, name: string)
    requires Valid(t) && Renamed(t, t', n, name)
    ensures AllReach(t')
  {
    forall d | LiveFolder(t', d) ensures Reaches(t', d) {
      assert LiveFolder(t, d);
      var k: nat :| Up(t, d, k) == ROOT;
      SameAncestors(t, t', d, k);
    }
  }

  lemma {:induction false} SameAncestors(t: Tree, t': Tree, d: int, k: nat)
    requires Valid(t) && LiveFolder(t, d) && |t'.folders| == |t.folders|
    requires forall e :: LiveFolder(t, e) ==> ParentOf(t', FolderNode(e)) == ParentOf(t, FolderNode(e))
    ensures Up(t', d, k) == Up(t, d, k)
    decreases k
  {
    if k > 0 {
      NextUp(t, d, k);
      SameParent(t, t', d, k);
      hide *;
      if d == ROOT {
        UpFromNull(t, k - 1);
        UpFromNull(t', k - 1);
      } else {
        SameAncestors(t, t', ParentOf(t, FolderNode(d)), k - 1);
      }
    }
  }

  lemma NextUp(t: Tree, d: int, k: nat)
    requires Valid(t) && LiveFolder(t, d) && 0 < k
    ensures Up(t, d, k) == Up(t, ParentOf(t, FolderNode(d)), k - 1)
    ensures if d == ROOT then ParentOf(t, FolderNode(d)) == NULL else LiveFolder(t, ParentOf(t, FolderNode(d)))
  {
    if d != ROOT { assert Live(t, FolderNode(d)); }
  }

  lemma SameParent(t: Tree, t': Tree, d: int, k: nat)
    requires Valid(t) && LiveFolder(t, d) && 0 < k && |t'.folders| == |t.folders|
    requires ParentOf(t', FolderNode(d)) == ParentOf(t, FolderNode(d))
    ensures Up(t', d, k) == Up(t', ParentOf(t, FolderNode(d)), k - 1)
  {
  }

  lemma UntouchedValid(t: Tree, t': Tree)
    requires Valid(t) && Untouched(t, t')
    ensures Valid(t')
  {
    forall q, m | LiveFolder(t', q)
      ensures HasSlot(t', q, m) <==> Live(t', m) && ParentOf(t', m) == q
      ensures NoDuplicates(Slots(t', q, m))
    {
      assert LiveFolder(t, q) && NoDuplicates(Slots(t, q, m));
      assert HasSlot(t, q, m) <==> Live(t, m) && ParentOf(t, m) == q;
    }
    forall d | LiveFolder(t', d) ensures Reaches(t', d) {
      assert LiveFolder(t, d);
      var k: nat :| Up(t, d, k) == ROOT;
      SameAncestors(t, t', d, k);
    }
  }

  // ---- Moving ------------------------------------------------------------------------

  lemma MovedLinks(t: Tree, t': Tree, n: Node, s: nat, p: int, s': nat)
    requires Valid(t) && Moved(t, t', n, s, p, s')
    ensures Links(t') && OneSlotEach(t')
  {
    hide UniqueNames, NamesValid, AllReach, Roots;
    var p0 := ParentOf(t, n);
    assert LiveFolder(t, p0) && NoDuplicates(Slots(t, p0, n)) && NoDuplicates(Slots(t, p, n));
    assert !HasSlot(t, p, n);
    SlotCleared(Slots(t, p0, n), Slots(t', p0, n), s, n.index);
    SlotFilled(Slots(t, p, n), Slots(t', p, n), s', n.index);
    forall q, m | LiveFolder(t', q)
      ensures HasSlot(t', q, m) <==> Live(t', m) && ParentOf(t', m) == q
      ensures NoDuplicates(Slots(t', q, m))
    {
      assert LiveFolder(t, q) && NoDuplicates(Slots(t, q, m));
      assert HasSlot(t, q, m) <==> Live(t, m) && ParentOf(t, m) == q;
      if (q == p || q == p0) && SameKind(m, n) {
        assert Slots(t, q, m) == Slots(t, q, n) && Slots(t', q, m) == Slots(t', q, n);
      }
    }
  }

  lemma MovedNames(t: Tree, t': Tree, n: Node, s: nat, p: int, s': nat)
    requires Valid(t) && Moved(t, t', n, s, p, s') && NameFree(t, p, NameOf(t, n))
    ensures UniqueNames(t') && NamesValid(t') && ParentsLive(t') && Roots(t')
  {
    forall m | Live(t', m) ensures LiveFolder(t', ParentOf(t', m)) {
      assert Live(t, m) && LiveFolder(t, ParentOf(t, m));
    }
  }

  /** A folder that is moved to a place not below itself still reaches the root, and so does everything below it. */
  lemma MovedReach(t: Tree, t': Tree, n: Node, s: nat, p: int, s': nat)
    requires Valid(t) && Moved(t, t', n, s, p, s')
    requires n.FolderNode? ==> !Below(t, n.index, p)
    ensures AllReach(t')
  {
    var a := if n.FolderNode? then n.index else NULL - 1;
    if n.FolderNode? { PathKeptHere(t, t', n, a, p); }
    forall d | LiveFolder(t', d) ensures Reaches(t', d) {
      assert LiveFolder(t, d);
      var k: nat :| Up(t, d, k) == ROOT;
      if n.FolderNode? {
        ReachesMoved(t, t', n.index, p, d, k);
      } else {
        SameAncestors(t, t', d, k);
      }
    }
  }

  lemma {:induction false} ReachesMoved(t: Tree, t': Tree, n: int, p: int, d: int, k: nat)
    requires Valid(t) && LiveFolder(t, d) && Up(t, d, k) == ROOT && |t'.folders| == |t.folders|
    requires forall e :: LiveFolder(t, e) && e != n ==> ParentOf(t', FolderNode(e)) == ParentOf(t, FolderNode(e))
    requires ParentOf(t', FolderNode(n)) == p && Reaches(t', p) && 0 <= n < |t.folders|
    ensures Reaches(t', d)
    decreases k
  {
    hide *;
    if d == ROOT {
      RootReaches(t');
    } else if d == n {
      ReachesViaParent(t', n);
    } else {
      RootIsNotNull();
      OneStepUp(t, ROOT, d, k);
      ReachesMoved(t, t', n, p, ParentOf(t, FolderNode(d)), k - 1);
      ReachesViaParent(t', d);
    }
  }

  lemma RootIsNotNull()
    ensures ROOT != NULL
  {
  }

  lemma RootReaches(t: Tree)
    ensures Reaches(t, ROOT)
  {
    assert Up(t, ROOT, 0) == ROOT;
  }

  lemma ReachesViaParent(t: Tree, d: int)
    requires 0 <= d < |t.folders| && Reaches(t, ParentOf(t, FolderNode(d)))
    ensures Reaches(t, d)
  {
    var j: nat :| Up(t, ParentOf(t, FolderNode(d)), j) == ROOT;
    assert Up(t, d, j + 1) == ROOT;
  }

  lemma MovedValid(t: Tree, t': Tree, n: Node, s: nat, p: int, s': nat)
    requires Valid(t) && Moved(t, t', n, s, p, s') && NameFree(t, p, NameOf(t, n))
    requires n.FolderNode? ==> !Below(t, n.index, p)
    ensures Valid(t')
  {
    MovedLinks(t, t', n, s, p, s');
    MovedNames(t, t', n, s, p, s');
    MovedReach(t, t', n, s, p, s');
  }

  lemma {:induction false} StillBelow(t: Tree, t': Tree, n: int, d: int, k: nat)
    requires Valid(t) && LiveFolder(t, d) && Up(t, d, k) == n && n != NULL && |t'.folders| == |t.folders|
    requires forall e :: LiveFolder(t, e) && e != n ==> ParentOf(t', FolderNode(e)) == ParentOf(t, FolderNode(e))
    ensures Below(t', n, d)
    decreases k
  {
    hide *;
    if d == n {
      BelowItself(t', n);
    } else {
      OneStepUp(t, n, d, k);
      var q := ParentOf(t, FolderNode(d));
      StillBelow(t, t', n, q, k - 1);
      BelowParent(t', n, d);
    }
  }

  lemma BelowItself(t: Tree, n: int)
    ensures Below(t, n, n)
  {
    assert Up(t, n, 0) == n;
  }

  lemma OneStepUp(t: Tree, n: int, d: int, k: nat)
    requires Valid(t) && LiveFolder(t, d) && Up(t, d, k) == n && n != NULL && d != n
    ensures 0 < k && 0 <= d < |t.folders|
    ensures LiveFolder(t, ParentOf(t, FolderNode(d))) && Up(t, ParentOf(t, FolderNode(d)), k - 1) == n
  {
    NullBelowNothing(t, n);
    if d != ROOT { assert Live(t, FolderNode(d)); }
  }

  lemma BelowParent(t: Tree, n: int, d: int)
    requires 0 <= d < |t.folders| && Below(t, n, ParentOf(t, FolderNode(d)))
    ensures Below(t, n, d)
  {
    BelowStep(t, n, d);
  }

  /** The condition of MovedValid is exact: moving a folder below itself cuts it off from the root. */
  lemma MovedBelowItselfIsLost(t: Tree, t': Tree, n: Node, s: nat, p: int, s': nat)
    requires Valid(t) && Moved(t, t', n, s, p, s') && n.FolderNode? && Below(t, n.index, p)
    ensures !Reaches(t', n.index)
  {
    var k: nat :| Up(t, p, k) == n.index;
    StillBelow(t, t', n.index, p, k);
    MovedRoots(t, t', n, s, p, s');
    var j: nat :| Up(t', p, j) == n.index;
    assert Up(t', n.index, j + 1) == n.index;
    CycleLost(t', n.index, j + 1);
  }

  lemma CycleLost(t: Tree, d: int, j: nat)
    requires Shape(t) && Roots(t) && 0 < j && Up(t, d, j) == d
    ensures !Reaches(t, d)
  {
    forall m: nat ensures Up(t, d, m) != ROOT {
      if Up(t, d, m) == ROOT {
        UpAdd(t, d, j, m);
        AboveRoot(t, d, m, j + m);
      }
    }
  }

  lemma MovedRoots(t: Tree, t': Tree, n: Node, s: nat, p: int, s': nat)
    requires Valid(t) && Moved(t, t', n, s, p, s')
    ensures Shape(t') && Roots(t')
  {
  }

  // ---- Pruning -----------------------------------------------------------------------

  function SameKindNode(m: Node, i: int): Node {
    if m.FileNode? then FileNode(i) else FolderNode(i)
  }

  /** slots with every reference to an entry in gone cleared. */
  ghost function Cleared(slots: seq<int>, m: Node, gone: set<Node>): seq<int> {
    seq(|slots|, i requires 0 <= i < |slots| => if SameKindNode(m, slots[i]) in gone then NULL else slots[i])
  }

  /** From t to t' the entries in gone have died and been cleared from the slots, and nothing else has changed. */
  ghost predicate Pruned(t: Tree, t': Tree, gone: set<Node>) {
    && Shape(t')
    && (forall m :: Live(t', m) <==> Live(t, m) && m !in gone)
    && (forall m :: Live(t', m) ==> ParentOf(t', m) == ParentOf(t, m) && NameOf(t', m) == NameOf(t, m))
    && (forall d :: LiveFolder(t', d) ==> IsRoot(t', d) == IsRoot(t, d))
    && ParentOf(t', FolderNode(ROOT)) == ParentOf(t, FolderNode(ROOT))
    && NameOf(t', FolderNode(ROOT)) == NameOf(t, FolderNode(ROOT))
    && (forall q, m :: LiveFolder(t', q) ==> Slots(t', q, m) == Cleared(Slots(t, q, m), m, gone))
  }

  lemma PrunedNothing(t: Tree)
    requires Shape(t)
    ensures Pruned(t, t, {})
  {
  }

  lemma PrunedTwice(t: Tree, t1: Tree, t2: Tree, gone: set<Node>, more: set<Node>)
    requires Pruned(t, t1, gone) && Pruned(t1, t2, more)
    requires forall m :: m in more ==> m.index != NULL
    ensures Pruned(t, t2, gone + more)
  {
    forall q, m | LiveFolder(t2, q) ensures Slots(t2, q, m) == Cleared(Slots(t, q, m), m, gone + more) {
      assert LiveFolder(t1, q);
      assert Slots(t1, q, m) == Cleared(Slots(t, q, m), m, gone);
      assert Slots(t2, q, m) == Cleared(Slots(t1, q, m), m, more);
    }
  }

  lemma OnlySlotCleared(t: Tree, n: Node, s: nat, q: int, m: Node)
    requires Valid(t) && Live(t, n) && LiveFolder(t, q) && Holds(Slots(t, ParentOf(t, n), n), s, n)
    ensures Cleared(Slots(t, q, m), m, {n}) ==
            if q == ParentOf(t, n) && SameKind(m, n) then Slots(t, q, m)[s := NULL] else Slots(t, q, m)
  {
    assert NoDuplicates(Slots(t, q, m)) && (HasSlot(t, q, n) <==> q == ParentOf(t, n));
    var slots := Slots(t, q, m);
    hide Valid;
    forall i | 0 <= i < |slots| && SameKindNode(m, slots[i]) == n ensures q == ParentOf(t, n) && i == s {
      assert SameKind(m, n) && slots == Slots(t, q, n) && slots[i] == n.index;
      assert slots[i] in slots;
    }
  }

  lemma RemovedIsPruned(t: Tree, t': Tree, n: Node, s: nat)
    requires Valid(t) && Removed(t, t', n, s)
    ensures Pruned(t, t', {n})
  {
    hide *;
    forall q, m | LiveFolder(t', q) ensures Slots(t', q, m) == Cleared(Slots(t, q, m), m, {n}) {
      RemovedSlots(t, t', n, s, q, m);
      OnlySlotCleared(t, n, s, q, m);
    }
    ValidShape(t);
    PrunedFromSlots(t, t', n, s);
  }

  lemma ValidShape(t: Tree)
    requires Valid(t)
    ensures Shape(t)
  {
  }

  lemma PrunedFromSlots(t: Tree, t': Tree, n: Node, s: nat)
    requires Shape(t) && Removed(t, t', n, s)
    requires forall q, m :: LiveFolder(t', q) ==> Slots(t', q, m) == Cleared(Slots(t, q, m), m, {n})
    ensures Pruned(t, t', {n})
  {
    hide Slots, Cleared, SlotSet, Holds, Childless;
  }

  lemma RemovedSlots(t: Tree, t': Tree, n: Node, s: nat, q: int, m: Node)
    requires Removed(t, t', n, s) && LiveFolder(t', q)
    ensures Live(t, n) && LiveFolder(t, q) && Holds(Slots(t, ParentOf(t, n), n), s, n)
    ensures s < |Slots(t, ParentOf(t, n), n)|
    ensures q == ParentOf(t, n) && SameKind(m, n) ==> s < |Slots(t, q, m)|
    ensures Slots(t', q, m) ==
            if q == ParentOf(t, n) && SameKind(m, n) then Slots(t, q, m)[s := NULL] else Slots(t, q, m)
  {
    if q == ParentOf(t, n) && SameKind(m, n) {
      assert Slots(t', q, m) == Slots(t', q, n) && Slots(t, q, m) == Slots(t, q, n);
    }
  }
}
