/** What a set of files makes of the disk, and the frame rule by which an operation on one file is shown to leave all
    the others alone. */
module Disk {
  import opened Settings
  import opened ChunkMath
  import opened Storage
  import opened Extents

  /** The state of a storage manager as a value. */
  datatype View = View(marks: seq<bool>, free: int, bytes: seq<byte>) {
    ghost predicate Sized() {
      |marks| == CHUNKS_AMOUNT && |bytes| >= Span(CHUNKS_AMOUNT)
    }
  }

  ghost function ViewOf(man: StorageMan): View
    requires man.Sized()
    reads man, man.storage, man.allocationMap
  {
    View(man.Marks(), man.freeChunkCount, man.Bytes())
  }

  /** The step from (v, own) to (v', own') of a file that owns the chunks own is confined to that file: it may give
      chunks back and take free ones, and every other allocated chunk keeps its mark and its bytes. */
  ghost predicate Confined(v: View, own: seq<nat>, v': View, own': seq<nat>) {
    && v.Sized() && v'.Sized() && |v'.bytes| == |v.bytes|
    && Owned(own, v.marks) && Owned(own', v'.marks)
    && (forall c :: c in own' ==> c in own || !v.marks[c])
    && (forall c :: 0 <= c < CHUNKS_AMOUNT ==> (v'.marks[c] <==> c in own' || (v.marks[c] && c !in own)))
    && v'.free + |own'| == v.free + |own|
    && (forall c: nat :: c < CHUNKS_AMOUNT && v.marks[c] && c !in own ==>
         ChunkBytes(v'.bytes, c) == ChunkBytes(v.bytes, c))
  }

  /** A disk shared by files: owned[i] lists the chunks of file i. */
  datatype Disk = Disk(view: View, owned: seq<seq<nat>>) {

    /** Chunks are in bounds and marked, no chunk has two owners, every marked chunk has one, and no chunk is lost. */
    ghost predicate Consistent() {
      && view.Sized()
      && (forall i :: 0 <= i < |owned| ==> Owned(owned[i], view.marks))
      && Apart(owned)
      && (forall c :: 0 <= c < CHUNKS_AMOUNT && view.marks[c] ==> HasOwner(owned, c))
      && view.free + TotalLength(owned) == CHUNKS_AMOUNT
    }

    ghost function ContentOf(i: nat): seq<byte>
      requires Consistent() && i < |owned|
    {
      Content(owned[i], view.bytes)
    }

    ghost function Contents(): (r: seq<seq<byte>>)
      requires Consistent()
    {
      seq(|owned|, i requires 0 <= i < |owned| => ContentOf(i))
    }
  }

  ghost predicate Apart(owned: seq<seq<nat>>) {
    forall i, j, c :: 0 <= i < j < |owned| && c in owned[i] ==> c !in owned[j]
  }

  ghost predicate HasOwner(owned: seq<seq<nat>>, c: nat) {
    exists i :: 0 <= i < |owned| && c in owned[i]
  }

  ghost function TotalLength(lists: seq<seq<nat>>): nat {
    if lists == [] then 0 else TotalLength(lists[..|lists| - 1]) + |lists[|lists| - 1]|
  }

  lemma {:induction false} TotalLengthUpdate(lists: seq<seq<nat>>, i: nat, l: seq<nat>)
    requires i < |lists|
    ensures TotalLength(lists[i := l]) == TotalLength(lists) - |lists[i]| + |l|
  {
    var n := |lists| - 1;
    if i == n {
      assert lists[i := l][..n] == lists[..n];
    } else {
      TotalLengthUpdate(lists[..n], i, l);
      assert lists[i := l][..n] == lists[..n][i := l];
    }
  }

  lemma OtherFileKept(d: Disk, i: nat, v': View, own': seq<nat>, j: nat)
    requires d.Consistent() && i < |d.owned| && j < |d.owned| && i != j
    requires Confined(d.view, d.owned[i], v', own')
    ensures Owned(d.owned[j], v'.marks)
    ensures Content(d.owned[j], v'.bytes) == Content(d.owned[j], d.view.bytes)
    ensures forall c :: c in d.owned[j] ==> c !in own'
  {
    var others := d.owned[j];
    forall k | 0 <= k < |others|
      ensures v'.marks[others[k]] && others[k] !in own'
      ensures ChunkBytes(v'.bytes, others[k]) == ChunkBytes(d.view.bytes, others[k])
    {
      var c := others[k];
      assert c in others;
      assert d.view.marks[c] && c !in d.owned[i];
    }
    ContentFrame(others, d.view.bytes, v'.bytes);
  }

  lemma MarkedHasOwner(d: Disk, i: nat, v': View, own': seq<nat>, c: nat)
    requires d.Consistent() && i < |d.owned|
    requires Confined(d.view, d.owned[i], v', own')
    requires c < CHUNKS_AMOUNT && v'.marks[c]
    ensures HasOwner(d.owned[i := own'], c)
  {
    var owned' := d.owned[i := own'];
    if c in own' {
      assert c in owned'[i];
    } else {
      var j :| 0 <= j < |d.owned| && c in d.owned[j];
      assert c in owned'[j];
    }
  }

  lemma OwnersStayApart(d: Disk, i: nat, v': View, own': seq<nat>)
    requires d.Consistent() && i < |d.owned|
    requires Confined(d.view, d.owned[i], v', own')
    ensures Apart(d.owned[i := own'])
  {
    var owned' := d.owned[i := own'];
    forall j, k, c | 0 <= j < k < |owned'| && c in owned'[j] ensures c !in owned'[k] {
      if j == i {
        OtherFileKept(d, i, v', own', k);
      } else if k == i {
        OtherFileKept(d, i, v', own', j);
      } else {
        assert c in d.owned[j] && owned'[k] == d.owned[k];
      }
    }
  }

  /** The frame rule: a confined step of one file keeps the whole disk consistent, so extents stay pairwise disjoint,
      their union stays the marked chunks and no chunk is lost. */
  lemma ConfinedStep(d: Disk, i: nat, v': View, own': seq<nat>)
    requires d.Consistent() && i < |d.owned|
    requires Confined(d.view, d.owned[i], v', own')
    ensures Disk(v', d.owned[i := own']).Consistent()
  {
    var owned' := d.owned[i := own'];
    TotalLengthUpdate(d.owned, i, own');
    OwnersStayApart(d, i, v', own');
    forall j | 0 <= j < |owned'| ensures Owned(owned'[j], v'.marks) {
      if j != i { OtherFileKept(d, i, v', own', j); }
    }
    forall c | 0 <= c < CHUNKS_AMOUNT && v'.marks[c] ensures HasOwner(owned', c) {
      MarkedHasOwner(d, i, v', own', c);
    }
  }

  /** The other half of the frame rule, non-interference: a confined step changes the content of no other file. */
  lemma ConfinedStepContents(d: Disk, i: nat, v': View, own': seq<nat>)
    requires d.Consistent() && i < |d.owned|
    requires Confined(d.view, d.owned[i], v', own')
    ensures Disk(v', d.owned[i := own']).Consistent()
    ensures Disk(v', d.owned[i := own']).Contents() == d.Contents()[i := Content(own', v'.bytes)]
  {
    ConfinedStep(d, i, v', own');
    var d' := Disk(v', d.owned[i := own']);
    forall j | 0 <= j < |d.owned| && j != i ensures d'.ContentOf(j) == d.ContentOf(j) {
      OtherFileKept(d, i, v', own', j);
    }
    assert d'.ContentOf(i) == Content(own', v'.bytes);
  }
}
