/** Whole runs: any number of files on one disk under any sequence of appends, truncations and clears. */
module FileRuns {
  import opened Settings
  import opened ChunkMath
  import opened Storage
  import opened Seqs
  import opened Extents
  import opened Disk
  import opened FileStorage
  import opened FileLogic

  // ---- Files that share a disk -------------------------------------------------------

  /** The slots hold different files with different extent tables. */
  ghost predicate Separate(files: seq<File>) {
    && (forall i :: 0 <= i < |files| ==> files[i].Shaped())
    && forall i, j :: 0 <= i < j < |files| ==> files[i] != files[j] && files[i].extents != files[j].extents
  }

  /** The chunks of each live file; a slot that is not live owns nothing, whatever its table says. */
  ghost function OwnedBy(files: seq<File>, live: seq<bool>): seq<seq<nat>>
    requires |live| == |files|
    reads set f | f in files :: f.extents
  {
    seq(|files|, i requires 0 <= i < |files| reads if 0 <= i < |files| then {files[i].extents} else {} =>
      if live[i] then files[i].Chunks() else [])
  }

  ghost function DiskOf(man: StorageMan, files: seq<File>, live: seq<bool>): Disk
    requires |live| == |files| && man.Sized()
    reads man, man.storage, man.allocationMap, set f | f in files :: f.extents
  {
    Disk(ViewOf(man), OwnedBy(files, live))
  }

  /** The storage invariant: every live file is well formed, and together they account for every allocated chunk. */
  ghost predicate Sound(man: StorageMan, files: seq<File>, live: seq<bool>)
    reads man, man.storage, man.allocationMap, files, set f | f in files :: f.extents
  {
    && |live| == |files| && Separate(files) && man.Valid()
    && (forall i :: 0 <= i < |files| && live[i] ==> files[i].Valid())
    && DiskOf(man, files, live).Consistent()
  }

  ghost function ContentsOf(man: StorageMan, files: seq<File>, live: seq<bool>): seq<seq<byte>>
    requires Sound(man, files, live)
    reads man, man.storage, man.allocationMap, files, set f | f in files :: f.extents
  {
    DiskOf(man, files, live).Contents()
  }

  /** The occupied extents of each live file. */
  ghost function LayoutOf(files: seq<File>, live: seq<bool>): seq<seq<ChunkExtent>>
    requires |live| == |files|
    reads set f | f in files :: f.extents
  {
    seq(|files|, i requires 0 <= i < |files| reads if 0 <= i < |files| then {files[i].extents} else {} =>
      if live[i] then files[i].Layout() else [])
  }

  lemma SoundFile(man: StorageMan, files: seq<File>, live: seq<bool>, i: nat)
    requires Sound(man, files, live) && i < |files| && live[i]
    ensures FileOn(files[i], man) && ContentOn(files[i], man) == ContentsOf(man, files, live)[i]
  {
    var d := DiskOf(man, files, live);
    assert d.owned[i] == files[i].Chunks();
    assert Owned(d.owned[i], d.view.marks);
  }

  /** The frame rule for the storage invariant: after a confined step of the live file i from the disk d, in which the
      chunks of no other file have changed, the invariant holds again and the contents differ at i only. */
  lemma SoundStep(man: StorageMan, files: seq<File>, live: seq<bool>, i: nat, d: Disk)
    requires |live| == |files| == |d.owned| && Separate(files)
    requires forall j :: 0 <= j < |files| && live[j] ==> files[j].Valid()
    requires d.Consistent() && i < |files| && live[i] && FileOn(files[i], man)
    requires Confined(d.view, d.owned[i], ViewOf(man), files[i].Chunks())
    requires OwnedBy(files, live) == d.owned[i := files[i].Chunks()]
    ensures Sound(man, files, live)
    ensures ContentsOf(man, files, live) == d.Contents()[i := ContentOn(files[i], man)]
  {
    ConfinedStepContents(d, i, ViewOf(man), files[i].Chunks());
  }

  lemma SoundParts(man: StorageMan, files: seq<File>, live: seq<bool>)
    requires Sound(man, files, live)
    ensures |live| == |files| && Separate(files) && man.Valid() && DiskOf(man, files, live).Consistent()
    ensures forall i :: 0 <= i < |files| && live[i] ==> files[i].Valid()
  {
  }

  lemma SoundFrom(man: StorageMan, files: seq<File>, live: seq<bool>, d: Disk)
    requires |live| == |files| && Separate(files) && man.Valid() && d.Consistent()
    requires forall i :: 0 <= i < |files| && live[i] ==> files[i].Valid()
    requires d.view == ViewOf(man) && d.owned == OwnedBy(files, live)
    ensures Sound(man, files, live) && DiskOf(man, files, live) == d
  {
  }

  lemma EmptySlotOwnsNothing(files: seq<File>, live: seq<bool>, i: nat, b: bool)
    requires |live| == |files| && i < |files| && files[i].Chunks() == []
    ensures OwnedBy(files, live[i := b]) == OwnedBy(files, live)
  {
    forall j | 0 <= j < |files| ensures OwnedBy(files, live[i := b])[j] == OwnedBy(files, live)[j] {
      if j != i { assert live[i := b][j] == live[j]; }
    }
  }

  lemma ChunksOfRuns(runs: seq<ChunkExtent>)
    requires forall j :: 0 <= j < |runs| ==> 0 < runs[j].chunkAmount
    ensures ChunksOf(runs) == [] <==> runs == []
  {
    if runs != [] { assert 0 < runs[|runs| - 1].chunkAmount; }
  }

  lemma EmptySlotHasNoExtents(files: seq<File>, live: seq<bool>, i: nat, b: bool)
    requires |live| == |files| && i < |files| && files[i].Valid() && files[i].Chunks() == []
    ensures files[i].Layout() == [] && LayoutOf(files, live[i := b]) == LayoutOf(files, live)
  {
    ChunksOfRuns(files[i].Layout());
    forall j | 0 <= j < |files| ensures LayoutOf(files, live[i := b])[j] == LayoutOf(files, live)[j] {
      if j != i { assert live[i := b][j] == live[j]; }
    }
  }

  /** A slot that owns nothing may become live or cease to be. */
  lemma SoundEmptySlot(man: StorageMan, files: seq<File>, live: seq<bool>, i: nat, b: bool)
    requires Sound(man, files, live) && i < |files| && files[i].Valid() && files[i].Chunks() == []
    ensures Sound(man, files, live[i := b])
    ensures man.Sized() && DiskOf(man, files, live[i := b]) == DiskOf(man, files, live)
    ensures LayoutOf(files, live[i := b]) == LayoutOf(files, live)
  {
    hide *;
    SoundParts(man, files, live);
    EmptySlotHasNoExtents(files, live, i, b);
    DiskIs(man, files, live);
    EmptySlotOwnsNothing(files, live, i, b);
    SoundFrom(man, files, live[i := b], DiskOf(man, files, live));
  }

  lemma DiskIs(man: StorageMan, files: seq<File>, live: seq<bool>)
    requires Sound(man, files, live)
    ensures man.Sized() && DiskOf(man, files, live) == Disk(ViewOf(man), OwnedBy(files, live))
    ensures ContentsOf(man, files, live) == DiskOf(man, files, live).Contents()
    ensures forall i :: 0 <= i < |files| && live[i] ==> OwnedBy(files, live)[i] == files[i].Chunks()
  {
  }

  // ---- The invariant on the arrays ---------------------------------------------------

  lemma TableOf(f: File)
    requires f.Valid()
    ensures f.Shaped() && Used(f.Table()) <= f.extents.Length && |f.Layout()| == Used(f.Table())
    ensures forall j :: 0 <= j < Used(f.Table()) ==> f.Layout()[j] == f.extents[j] && !f.extents[j].isEmpty
    ensures forall j :: Used(f.Table()) <= j < f.extents.Length ==> f.extents[j].isEmpty
    ensures f.Chunks() == ChunksOf(f.Layout())
  {
    UsedParts(f.Table());
  }

  /** A chunk is marked exactly when an occupied extent of a live file covers it. */
  lemma MarkedIsCovered(man: StorageMan, files: seq<File>, live: seq<bool>, c: nat)
    requires Sound(man, files, live) && c < CHUNKS_AMOUNT
    ensures |live| == |files| && CHUNKS_AMOUNT <= man.allocationMap.Length
    ensures man.allocationMap[c] <==>
              exists i, j :: && 0 <= i < |files| && live[i] && 0 <= j < files[i].extents.Length
                             && !files[i].extents[j].isEmpty
                             && files[i].extents[j].start <= c
                             && c < files[i].extents[j].start + files[i].extents[j].chunkAmount
  {
    var d := DiskOf(man, files, live);
    assert d.view.marks[c] == man.allocationMap[c];
    if man.allocationMap[c] {
      assert HasOwner(d.owned, c);
      var i :| 0 <= i < |d.owned| && c in d.owned[i];
      TableOf(files[i]);
      ChunksOfMember(files[i].Layout(), c);
    }
    if i, j :| 0 <= i < |files| && live[i] && 0 <= j < files[i].extents.Length && !files[i].extents[j].isEmpty
               && files[i].extents[j].start <= c < files[i].extents[j].start + files[i].extents[j].chunkAmount {
      CoveringFile(man, files, live, c, i, j);
    }
  }

  lemma CoveringFile(man: StorageMan, files: seq<File>, live: seq<bool>, c: nat, i: nat, j: nat)
    requires Sound(man, files, live) && i < |files| && live[i]
    requires j < files[i].extents.Length && !files[i].extents[j].isEmpty
    requires files[i].extents[j].start <= c < files[i].extents[j].start + files[i].extents[j].chunkAmount
    ensures man.Sized() && DiskOf(man, files, live).owned[i] == files[i].Chunks()
    ensures j < |files[i].Layout()| && c in files[i].Chunks() && c < CHUNKS_AMOUNT && man.Marks()[c]
  {
    TableOf(files[i]);
    ChunksOfMember(files[i].Layout(), c);
    var d := DiskOf(man, files, live);
    assert Owned(d.owned[i], d.view.marks);
  }

  /** No chunk is covered twice, by two files or by two extents of one. */
  lemma CoveredOnce(man: StorageMan, files: seq<File>, live: seq<bool>, c: nat, i: nat, j: nat, i': nat, j': nat)
    requires Sound(man, files, live) && i < |files| && live[i] && i' < |files| && live[i']
    requires j < files[i].extents.Length && !files[i].extents[j].isEmpty
    requires j' < files[i'].extents.Length && !files[i'].extents[j'].isEmpty
    requires files[i].extents[j].start <= c < files[i].extents[j].start + files[i].extents[j].chunkAmount
    requires files[i'].extents[j'].start <= c < files[i'].extents[j'].start + files[i'].extents[j'].chunkAmount
    ensures i == i' && j == j'
  {
    CoveringFile(man, files, live, c, i, j);
    CoveringFile(man, files, live, c, i', j');
    TableOf(files[i]);
    var d := DiskOf(man, files, live);
    assert Owned(d.owned[i], d.view.marks);
    assert i == i';
    hide Sound, Disk.Consistent, File.Valid, File.Chunks, DiskOf;
    if j < j' { CoveredTwice(files[i].Layout(), c, j, j'); }
    if j' < j { CoveredTwice(files[i].Layout(), c, j', j); }
  }

  lemma CoveredTwice(runs: seq<ChunkExtent>, c: nat, j: nat, j': nat)
    requires j < j' < |runs|
    requires runs[j].start <= c < runs[j].start + runs[j].chunkAmount
    requires runs[j'].start <= c < runs[j'].start + runs[j'].chunkAmount
    ensures !Distinct(ChunksOf(runs))
  {
    ChunkInExtent(runs, j, c - runs[j].start);
    ChunkInExtent(runs, j', c - runs[j'].start);
    TotalGrows(runs, j, j');
  }

  lemma {:induction false} TotalGrows(runs: seq<ChunkExtent>, j: nat, j': nat)
    requires j < j' <= |runs|
    ensures Total(runs[..j]) + runs[j].chunkAmount <= Total(runs[..j'])
    decreases j'
  {
    assert runs[..j'][..j' - 1] == runs[..j' - 1];
    if j < j' - 1 { TotalGrows(runs, j, j' - 1); }
  }

  /** The cached free count is the number of chunks without a mark. */
  lemma FreeCountIsExact(man: StorageMan, files: seq<File>, live: seq<bool>)
    requires Sound(man, files, live)
    ensures CHUNKS_AMOUNT <= man.allocationMap.Length
    ensures man.freeChunkCount == |set c | 0 <= c < CHUNKS_AMOUNT && !man.allocationMap[c]|
  {
    CountFreeIsCardinality(man.Marks());
    assert (set c | 0 <= c < CHUNKS_AMOUNT && !man.allocationMap[c]) ==
           set c | 0 <= c < |man.Marks()| && !man.Marks()[c];
  }

  // ---- The ideal model: one byte sequence per file, laid out by first fit ------------

  datatype Op =
    | Append(file: nat, data: seq<byte>)
    | Truncate(file: nat, amount: nat)
    | Clear(file: nat)

  /** What an operation makes of the content of its file, given whether the system accepted it. */
  ghost function Ideal(content: seq<byte>, op: Op, accepted: bool): seq<byte> {
    if !accepted then content
    else match op
      case Append(_, data) => content + Padded(data)
      case Truncate(_, amount) => if amount <= |content| then Shortened(content, amount) else content
      case Clear(_) => []
  }

  /** The chunks that a layout takes. */
  ghost function MarksOf(layout: seq<seq<ChunkExtent>>): (marks: seq<bool>)
    ensures |marks| == CHUNKS_AMOUNT
  {
    seq(CHUNKS_AMOUNT, c requires 0 <= c => exists i :: 0 <= i < |layout| && c in ChunksOf(layout[i]))
  }

  /** The verdict on an operation on a file with the given extents, on a disk with the given marks. */
  ghost function VerdictOn(marks: seq<bool>, runs: seq<ChunkExtent>, op: Op): Status {
    match op
    case Append(_, data) => AppendStatus(marks, |runs|, data)
    case Truncate(_, amount) => TruncateStatus(|ChunksOf(runs)|, amount)
    case Clear(_) => Success
  }

  /** The extents of the file after an operation that was accepted. */
  ghost function RunsAfter(marks: seq<bool>, runs: seq<ChunkExtent>, op: Op): seq<ChunkExtent> {
    match op
    case Append(_, data) => if HasRoom(marks, ChunksFor(|data|)) then runs + [NewExtent(marks, data)] else runs
    case Truncate(_, amount) => CutRuns(runs, FullChunks(amount))
    case Clear(_) => []
  }

  /** The layout alone decides what the system answers, and what the layout is afterwards. */
  ghost function Verdict(layout: seq<seq<ChunkExtent>>, op: Op): Status {
    if op.file < |layout| then VerdictOn(MarksOf(layout), layout[op.file], op) else UnknownEntry
  }

  ghost function LayoutAfter(layout: seq<seq<ChunkExtent>>, op: Op): (r: seq<seq<ChunkExtent>>)
    ensures |r| == |layout|
  {
    if Verdict(layout, op) == Success then layout[op.file := RunsAfter(MarksOf(layout), layout[op.file], op)]
    else layout
  }

  /** What the system answers to a run. */
  ghost function Verdicts(layout: seq<seq<ChunkExtent>>, ops: seq<Op>): (statuses: seq<Status>)
    ensures |statuses| == |ops|
    decreases |ops|
  {
    if ops == [] then [] else [Verdict(layout, ops[0])] + Verdicts(LayoutAfter(layout, ops[0]), ops[1..])
  }

  ghost function Accepted(statuses: seq<Status>): (accepted: seq<bool>)
    ensures |accepted| == |statuses|
  {
    seq(|statuses|, k requires 0 <= k < |statuses| => statuses[k] == Success)
  }

  ghost function LayoutAtEnd(layout: seq<seq<ChunkExtent>>, ops: seq<Op>): (r: seq<seq<ChunkExtent>>)
    ensures |r| == |layout|
    decreases |ops|
  {
    if ops == [] then layout else LayoutAtEnd(LayoutAfter(layout, ops[0]), ops[1..])
  }

  ghost function After(contents: seq<seq<byte>>, op: Op, accepted: bool): (r: seq<seq<byte>>)
    ensures |r| == |contents|
  {
    if op.file < |contents| then contents[op.file := Ideal(contents[op.file], op, accepted)] else contents
  }

  ghost function Replay(contents: seq<seq<byte>>, ops: seq<Op>, accepted: seq<bool>): (r: seq<seq<byte>>)
    requires |accepted| == |ops|
    ensures |r| == |contents|
    decreases |ops|
  {
    if ops == [] then contents
    else Replay(After(contents, ops[0], accepted[0]), ops[1..], accepted[1..])
  }

  /** The run as one file sees it. */
  ghost function ReplayOne(content: seq<byte>, ops: seq<Op>, accepted: seq<bool>, i: nat): seq<byte>
    requires |accepted| == |ops|
    decreases |ops|
  {
    if ops == [] then content
    else
      ReplayOne(if ops[0].file == i then Ideal(content, ops[0], accepted[0]) else content, ops[1..], accepted[1..], i)
  }

  /** Non-interference: what a file holds after a run depends on its own operations only, whatever other files did with
      the chunks it never had or gave back. */
  lemma {:induction false} NonInterference(contents: seq<seq<byte>>, ops: seq<Op>, accepted: seq<bool>, i: nat)
    requires |accepted| == |ops| && i < |contents|
    ensures Replay(contents, ops, accepted)[i] == ReplayOne(contents[i], ops, accepted, i)
    decreases |ops|
  {
    if ops != [] {
      NonInterference(After(contents, ops[0], accepted[0]), ops[1..], accepted[1..], i);
    }
  }

  /** The padded data of the accepted appends to file i, in order. */
  ghost function Joined(ops: seq<Op>, accepted: seq<bool>, i: nat): seq<byte>
    requires |accepted| == |ops|
    decreases |ops|
  {
    if ops == [] then []
    else (if ops[0].Append? && ops[0].file == i && accepted[0] then Padded(ops[0].data) else [])
         + Joined(ops[1..], accepted[1..], i)
  }

  /** A file to which a run only appends holds its old content and then each accepted piece, padded to a chunk
      boundary. */
  lemma {:induction false} AppendsJoin(content: seq<byte>, ops: seq<Op>, accepted: seq<bool>, i: nat)
    requires |accepted| == |ops| && forall k :: 0 <= k < |ops| && ops[k].file == i ==> ops[k].Append?
    ensures ReplayOne(content, ops, accepted, i) == content + Joined(ops, accepted, i)
    decreases |ops|
  {
    if ops == [] {
      assert content + [] == content;
    } else {
      var next := if ops[0].file == i then Ideal(content, ops[0], accepted[0]) else content;
      var piece := if ops[0].file == i && accepted[0] then Padded(ops[0].data) else [];
      assert next == content + piece;
      AppendsJoin(next, ops[1..], accepted[1..], i);
      ConcatAssociates(content, piece, Joined(ops[1..], accepted[1..], i));
    }
  }

  /** Every accepted piece is read back at its own offset: behind the old content and the pieces appended before it. */
  lemma {:induction false} AppendedPieceReadsBack(content: seq<byte>, ops: seq<Op>, accepted: seq<bool>, i: nat, k: nat)
    requires |accepted| == |ops| && forall j :: 0 <= j < |ops| && ops[j].file == i ==> ops[j].Append?
    requires k < |ops| && ops[k].file == i && accepted[k]
    ensures HoldsAt(ReplayOne(content, ops, accepted, i), |content| + |Joined(ops[..k], accepted[..k], i)|, ops[k].data)
    decreases k
  {
    if k == 0 {
      FirstPieceReadsBack(content, ops, accepted, i);
    } else {
      var next := if ops[0].file == i then Ideal(content, ops[0], accepted[0]) else content;
      assert ReplayOne(content, ops, accepted, i) == ReplayOne(next, ops[1..], accepted[1..], i);
      hide Joined, Ideal, HoldsAt, ReplayOne;
      AppendedPieceReadsBack(next, ops[1..], accepted[1..], i, k - 1);
      JoinedLength(content, ops, accepted, i, k);
    }
  }

  /** data stands in content from position at on. */
  ghost predicate HoldsAt(content: seq<byte>, at: nat, data: seq<byte>) {
    at + |data| <= |content| && content[at..at + |data|] == data
  }

  lemma FirstPieceReadsBack(content: seq<byte>, ops: seq<Op>, accepted: seq<bool>, i: nat)
    requires |accepted| == |ops| && forall j :: 0 <= j < |ops| && ops[j].file == i ==> ops[j].Append?
    requires 0 < |ops| && ops[0].file == i && accepted[0]
    ensures HoldsAt(ReplayOne(content, ops, accepted, i), |content| + |Joined(ops[..0], accepted[..0], i)|, ops[0].data)
  {
    AppendsJoin(content, ops, accepted, i);
    PrefixInMiddle(content, Padded(ops[0].data), Joined(ops[1..], accepted[1..], i), ops[0].data);
    hide ReplayOne;
  }

  lemma JoinedLength(content: seq<byte>, ops: seq<Op>, accepted: seq<bool>, i: nat, k: nat)
    requires |accepted| == |ops| && 0 < k <= |ops| && (ops[0].file == i ==> ops[0].Append?)
    ensures var next := if ops[0].file == i then Ideal(content, ops[0], accepted[0]) else content;
            |content| + |Joined(ops[..k], accepted[..k], i)| ==
            |next| + |Joined(ops[1..][..k - 1], accepted[1..][..k - 1], i)|
  {
    assert ops[..k][1..] == ops[1..][..k - 1] && accepted[..k][1..] == accepted[1..][..k - 1];
  }

  // ---- Runs of the real operations ---------------------------------------------------

  ghost function Footprint(man: StorageMan, files: seq<File>): set<object> {
    {man, man.storage, man.allocationMap} + (set f | f in files) + set f | f in files :: f.extents
  }

  lemma VerdictIs(f: File, man: StorageMan, op: Op)
    requires FileOn(f, man)
    ensures |f.Layout()| <= MAX_FILE_CHUNK_EXTENTS_AMOUNT && |man.Marks()| == CHUNKS_AMOUNT
    ensures f.allocatedSize == |ChunksOf(f.Layout())| && |ContentOn(f, man)| == Span(f.allocatedSize)
    ensures VerdictOn(man.Marks(), f.Layout(), op) ==
            match op
            case Append(_, data) => AppendStatus(man.Marks(), |f.Layout()|, data)
            case Truncate(_, amount) => TruncateStatus(f.allocatedSize, amount)
            case Clear(_) => Success
  {
    ContentOnIs(f, man);
  }

  lemma AcceptedAppend(content: seq<byte>, marks: seq<bool>, runs: seq<ChunkExtent>, op: Op)
    requires op.Append? && HasRoom(marks, ChunksFor(|op.data|))
    ensures RunsAfter(marks, runs, op) == runs + [NewExtent(marks, op.data)]
    ensures Ideal(content, op, true) == content + Padded(op.data)
  {
  }

  lemma AcceptedCut(content: seq<byte>, marks: seq<bool>, runs: seq<ChunkExtent>, op: Op)
    requires op.Truncate? && op.amount <= |content|
    ensures RunsAfter(marks, runs, op) == CutRuns(runs, FullChunks(op.amount))
    ensures Ideal(content, op, true) == Shortened(content, op.amount)
  {
  }

  lemma AcceptedClear(content: seq<byte>, marks: seq<bool>, runs: seq<ChunkExtent>, op: Op)
    requires op.Clear?
    ensures RunsAfter(marks, runs, op) == [] && Ideal(content, op, true) == []
  {
  }

  lemma RefusedKeeps(content: seq<byte>, op: Op)
    ensures Ideal(content, op, false) == content
  {
  }

  /** One operation on one file: verdict, extents and content are those of the ideal model. */
  method Apply(f: File, man: StorageMan, op: Op) returns (status: Status)
    requires FileOn(f, man)
    modifies f, f.extents, man, man.storage, man.allocationMap
    ensures FileOn(f, man) && Confined(old(ViewOf(man)), old(f.Chunks()), ViewOf(man), f.Chunks())
    ensures status == VerdictOn(old(man.Marks()), old(f.Layout()), op)
    ensures f.Layout() == if status == Success then RunsAfter(old(man.Marks()), old(f.Layout()), op)
                          else old(f.Layout())
    ensures ContentOn(f, man) == Ideal(old(ContentOn(f, man)), op, status == Success)
    ensures status != Success ==> ViewOf(man) == old(ViewOf(man))
  {
    hide *;
    VerdictIs(f, man, op);
    FileParts(f, man);
    ContentOnIs(f, man);
    ghost var content, marks, runs := ContentOn(f, man), man.Marks(), f.Layout();
    RefusedKeeps(content, op);
    if op.Append? {
      AppendAccepted(marks, |runs|, op.data);
      status := FileAppend(f, man, op.data);
      if status == Success { AcceptedAppend(content, marks, runs, op); }
    } else if op.Truncate? {
      TruncateStatusIs(f.allocatedSize, op.amount);
      status := FileTruncateBy(f, man, op.amount);
      if status == Success { AcceptedCut(content, marks, runs, op); }
    } else {
      status := FileDeleteData(f, man);
      AcceptedClear(content, marks, runs, op);
    }
    FileParts(f, man);
    ContentOnIs(f, man);
    NoContent(man.Bytes());
  }

  lemma NoContent(bytes: seq<byte>)
    ensures Content([], bytes) == []
  {
  }

  /** The marks on the disk are those of the layout. */
  lemma MarksAreLayout(man: StorageMan, files: seq<File>, live: seq<bool>)
    requires Sound(man, files, live)
    ensures man.Sized() && MarksOf(LayoutOf(files, live)) == man.Marks()
  {
    var d, layout := DiskOf(man, files, live), LayoutOf(files, live);
    OwnedIsLayout(files, live);
    forall c | 0 <= c < CHUNKS_AMOUNT ensures MarksOf(layout)[c] == d.view.marks[c] {
      if d.view.marks[c] {
        assert HasOwner(d.owned, c);
      } else {
        forall i | 0 <= i < |layout| ensures c !in ChunksOf(layout[i]) {
          assert Owned(d.owned[i], d.view.marks);
        }
      }
    }
  }

  lemma OwnedIsLayout(files: seq<File>, live: seq<bool>)
    requires |live| == |files|
    ensures |OwnedBy(files, live)| == |LayoutOf(files, live)| == |files|
    ensures forall i :: 0 <= i < |files| ==> OwnedBy(files, live)[i] == ChunksOf(LayoutOf(files, live)[i])
    ensures forall i :: 0 <= i < |files| && live[i] ==> LayoutOf(files, live)[i] == files[i].Layout()
  {
    assert ChunksOf([]) == [];
  }

  /** What an operation on one live file amounts to for all of them. */
  lemma LayoutStep(layout: seq<seq<ChunkExtent>>, marks: seq<bool>, runs: seq<ChunkExtent>, op: Op)
    requires op.file < |layout| && marks == MarksOf(layout) && runs == layout[op.file]
    ensures Verdict(layout, op) == VerdictOn(marks, runs, op)
    ensures LayoutAfter(layout, op) ==
            if VerdictOn(marks, runs, op) == Success then layout[op.file := RunsAfter(marks, runs, op)] else layout
  {
  }

  lemma LayoutUpdated(layout: seq<seq<ChunkExtent>>, i: nat, runs: seq<ChunkExtent>)
    requires i < |layout| && runs == layout[i]
    ensures layout == layout[i := runs]
  {
  }

  method Step(man: StorageMan, files: seq<File>, ghost live: seq<bool>, op: Op) returns (status: Status)
    requires Sound(man, files, live) && op.file < |files| && live[op.file]
    modifies Footprint(man, files)
    ensures Sound(man, files, live)
    ensures status == Verdict(old(LayoutOf(files, live)), op)
    ensures LayoutOf(files, live) == LayoutAfter(old(LayoutOf(files, live)), op)
    ensures ContentsOf(man, files, live) == After(old(ContentsOf(man, files, live)), op, status == Success)
    ensures status != Success ==> DiskOf(man, files, live) == old(DiskOf(man, files, live))
  {
    hide *;
    SoundParts(man, files, live);
    DiskIs(man, files, live);
    var f := files[op.file];
    ghost var d, layout := DiskOf(man, files, live), LayoutOf(files, live);
    SoundFile(man, files, live, op.file);
    MarksAreLayout(man, files, live);
    OwnedIsLayout(files, live);
    LayoutStep(layout, man.Marks(), f.Layout(), op);
    LayoutUpdated(layout, op.file, f.Layout());
    FileParts(f, man);
    status := ApplyTo(man, files, live, op);
    OneContentChanged(d, op, status == Success, ContentOn(f, man));
    SoundStep(man, files, live, op.file, d);
    DiskIs(man, files, live);
    OwnedIsLayout(files, live);
    if status != Success { SameLayoutSameDisk(d, DiskOf(man, files, live), layout); }
  }

  lemma SameLayoutSameDisk(d: Disk, d': Disk, layout: seq<seq<ChunkExtent>>)
    requires d'.view == d.view && |d.owned| == |d'.owned| == |layout|
    requires forall i :: 0 <= i < |layout| ==> d.owned[i] == ChunksOf(layout[i]) && d'.owned[i] == ChunksOf(layout[i])
    ensures d' == d
  {
    hide ChunksOf;
    assert d'.owned == d.owned;
  }

  lemma OneContentChanged(d: Disk, op: Op, accepted: bool, content: seq<byte>)
    requires d.Consistent() && op.file < |d.owned|
    requires content == Ideal(d.Contents()[op.file], op, accepted)
    ensures d.Contents()[op.file := content] == After(d.Contents(), op, accepted)
  {
  }

  /** An operation on one file of many, and that it leaves the tables of the others alone. */
  method ApplyTo(man: StorageMan, files: seq<File>, ghost live: seq<bool>, op: Op) returns (status: Status)
    requires |live| == |files| && Separate(files) && op.file < |files| && live[op.file] && FileOn(files[op.file], man)
    requires forall i :: 0 <= i < |files| && live[i] ==> files[i].Valid()
    modifies Footprint(man, files)
    ensures var f, marks, runs := files[op.file], old(man.Marks()), old(files[op.file].Layout());
            && FileOn(f, man) && Confined(old(ViewOf(man)), old(f.Chunks()), ViewOf(man), f.Chunks())
            && status == VerdictOn(marks, runs, op)
            && f.Layout() == (if status == Success then RunsAfter(marks, runs, op) else runs)
            && ContentOn(f, man) == Ideal(old(ContentOn(f, man)), op, status == Success)
            && OwnedBy(files, live) == old(OwnedBy(files, live))[op.file := f.Chunks()]
            && LayoutOf(files, live) == old(LayoutOf(files, live))[op.file := f.Layout()]
    ensures forall i :: 0 <= i < |files| && live[i] ==> files[i].Valid()
    ensures status != Success ==> ViewOf(man) == old(ViewOf(man))
  {
    hide FileOn, Confined, Content, ChunksOf, Used, Ideal, VerdictOn, RunsAfter;
    ghost var owned, layout := OwnedBy(files, live), LayoutOf(files, live);
    status := Apply(files[op.file], man, op);
    forall j | 0 <= j < |files| && j != op.file
      ensures files[j].Table() == old(files[j].Table()) && (live[j] ==> files[j].Valid())
    {
    }
    FileOnFacts(files[op.file], man);
    assert OwnedBy(files, live) == owned[op.file := files[op.file].Chunks()];
    assert LayoutOf(files, live) == layout[op.file := files[op.file].Layout()];
  }

  /** Every run refines the ideal model: whatever is done to the files, the storage invariant holds at the end, every
      answer is the one that first fit on the layout gives, and the contents are those of byte sequences that were
      appended to, shortened and emptied. */
  method Run(man: StorageMan, files: seq<File>, ghost live: seq<bool>, ops: seq<Op>) returns (statuses: seq<Status>)
    requires Sound(man, files, live)
    requires forall k :: 0 <= k < |ops| ==> ops[k].file < |files| && live[ops[k].file]
    modifies Footprint(man, files)
    ensures Sound(man, files, live)
    ensures statuses == Verdicts(old(LayoutOf(files, live)), ops)
    ensures LayoutOf(files, live) == LayoutAtEnd(old(LayoutOf(files, live)), ops)
    ensures ContentsOf(man, files, live) == Replay(old(ContentsOf(man, files, live)), ops, Accepted(statuses))
    ensures |old(ContentsOf(man, files, live))| == |files|
    ensures forall i: nat :: i < |files| ==>
              ContentsOf(man, files, live)[i] ==
              ReplayOne(old(ContentsOf(man, files, live))[i], ops, Accepted(statuses), i)
    decreases |ops|
  {
    hide *;
    SoundParts(man, files, live);
    ContentsAmount(man, files, live);
    ghost var contents, layout := ContentsOf(man, files, live), LayoutOf(files, live);
    if |ops| == 0 {
      RunOfNothing(layout, contents, ops);
      EachFile(contents, ops, Accepted([]));
      return [];
    }
    var status := Step(man, files, live, ops[0]);
    var rest := Run(man, files, live, ops[1..]);
    RunOfOneMore(layout, contents, ops, status, rest);
    statuses := [status] + rest;
    EachFile(contents, ops, Accepted(statuses));
  }

  lemma EachFile(contents: seq<seq<byte>>, ops: seq<Op>, accepted: seq<bool>)
    requires |accepted| == |ops|
    ensures forall i: nat :: i < |contents| ==>
              Replay(contents, ops, accepted)[i] == ReplayOne(contents[i], ops, accepted, i)
  {
    forall i: nat | i < |contents|
      ensures Replay(contents, ops, accepted)[i] == ReplayOne(contents[i], ops, accepted, i)
    {
      NonInterference(contents, ops, accepted, i);
    }
  }

  lemma RunOfNothing(layout: seq<seq<ChunkExtent>>, contents: seq<seq<byte>>, ops: seq<Op>)
    requires ops == []
    ensures Verdicts(layout, ops) == [] && LayoutAtEnd(layout, ops) == layout
    ensures |Accepted([])| == |ops| && Replay(contents, ops, Accepted([])) == contents
  {
  }

  lemma RunOfOneMore(layout: seq<seq<ChunkExtent>>, contents: seq<seq<byte>>, ops: seq<Op>, status: Status,
                     rest: seq<Status>)
    requires ops != [] && |rest| == |ops| - 1
    requires status == Verdict(layout, ops[0]) && rest == Verdicts(LayoutAfter(layout, ops[0]), ops[1..])
    ensures Verdicts(layout, ops) == [status] + rest
    ensures LayoutAtEnd(layout, ops) == LayoutAtEnd(LayoutAfter(layout, ops[0]), ops[1..])
    ensures |Accepted([status] + rest)| == |ops| && |Accepted(rest)| == |ops[1..]|
    ensures Replay(contents, ops, Accepted([status] + rest)) ==
            Replay(After(contents, ops[0], status == Success), ops[1..], Accepted(rest))
  {
    hide Verdict, LayoutAfter, After;
    assert Accepted([status] + rest) == [status == Success] + Accepted(rest);
    assert Accepted([status] + rest)[1..] == Accepted(rest);
  }

  lemma ContentsAmount(man: StorageMan, files: seq<File>, live: seq<bool>)
    requires Sound(man, files, live)
    ensures |ContentsOf(man, files, live)| == |files|
  {
  }

  lemma BufferApart(man: StorageMan, files: seq<File>, buffer: array<byte>)
    requires buffer != man.storage
    ensures buffer !in Footprint(man, files)
  {
    assert forall f :: f in files ==> f != buffer as object;
  }

  /** A run and then a read of one file: the read delivers what the file's own operations made of its content. */
  method RunThenRead(man: StorageMan, files: seq<File>, ghost live: seq<bool>, ops: seq<Op>,
                     i: nat, offset: nat, amount: nat, buffer: array<byte>)
    returns (statuses: seq<Status>, status: Status)
    requires Sound(man, files, live) && i < |files| && live[i] && buffer != man.storage
    requires forall k :: 0 <= k < |ops| ==> ops[k].file < |files| && live[ops[k].file]
    modifies Footprint(man, files), buffer
    ensures Sound(man, files, live) && statuses == Verdicts(old(LayoutOf(files, live)), ops)
    ensures |old(ContentsOf(man, files, live))| == |files|
    ensures var end := ReplayOne(old(ContentsOf(man, files, live))[i], ops, Accepted(statuses), i);
            && status == (if offset + amount > |end| then IndexOutOfBounds
                          else if amount == 0 then InvalidOperation
                          else if buffer.Length < amount then InsufficientArrayPassed
                          else Success)
            && (status == Success ==> Copied(old(buffer[..]), buffer[..], 0, end, offset, amount))
  {
    hide *;
    ContentsAmount(man, files, live);
    ghost var contents, was := ContentsOf(man, files, live), buffer[..];
    BufferApart(man, files, buffer);
    statuses := Run(man, files, live, ops);
    SoundFile(man, files, live, i);
    FileOnFacts(files[i], man);
    status := FileReadAt(files[i], man, offset, amount, buffer, buffer.Length);
  }

  /** What was appended in a run is read back by file_read_at: the k-th operation, if it is accepted and the file is
      only appended to, is found behind the old content and the pieces accepted before it. */
  method AppendedPieceIsRead(man: StorageMan, files: seq<File>, ghost live: seq<bool>, ops: seq<Op>,
                             i: nat, k: nat, at: nat, buffer: array<byte>)
    returns (status: Status)
    requires Sound(man, files, live) && i < |files| && live[i] && buffer != man.storage
    requires forall j :: 0 <= j < |ops| ==>
               ops[j].file < |files| && live[ops[j].file] && (ops[j].file == i ==> ops[j].Append?)
    requires k < |ops| && ops[k].file == i && Verdicts(LayoutOf(files, live), ops)[k] == Success
    requires |ContentsOf(man, files, live)| == |files| && buffer.Length == |ops[k].data|
    requires var accepted := Accepted(Verdicts(LayoutOf(files, live), ops));
             at == |ContentsOf(man, files, live)[i]| + |Joined(ops[..k], accepted[..k], i)|
    modifies Footprint(man, files), buffer
    ensures status == Success && buffer[..] == ops[k].data
  {
    hide *;
    SoundParts(man, files, live);
    AcceptedHasData(LayoutOf(files, live), ops, k);
    ghost var content := ContentsOf(man, files, live)[i];
    ghost var accepted := Accepted(Verdicts(LayoutOf(files, live), ops));
    ghost var end := ReplayOne(content, ops, accepted, i);
    AcceptedAt(Verdicts(LayoutOf(files, live), ops), k);
    AppendedPieceReadsBack(content, ops, accepted, i, k);
    HoldsAtIs(end, at, ops[k].data);
    ghost var was := buffer[..];
    var statuses;
    statuses, status := RunThenRead(man, files, live, ops, i, at, |ops[k].data|, buffer);
    WholeSlice(was, buffer[..], end, at, ops[k].data);
  }

  lemma {:induction false} AcceptedHasData(layout: seq<seq<ChunkExtent>>, ops: seq<Op>, k: nat)
    requires k < |ops| && ops[k].Append? && Verdicts(layout, ops)[k] == Success
    ensures ops[k].data != []
    decreases |ops|
  {
    if k > 0 { AcceptedHasData(LayoutAfter(layout, ops[0]), ops[1..], k - 1); }
  }

  lemma AcceptedAt(statuses: seq<Status>, k: nat)
    requires k < |statuses| && statuses[k] == Success
    ensures Accepted(statuses)[k]
  {
  }

  lemma HoldsAtIs(content: seq<byte>, at: nat, data: seq<byte>)
    requires HoldsAt(content, at, data)
    ensures at + |data| <= |content| && content[at..at + |data|] == data
  {
  }

  lemma WholeSlice(was: seq<byte>, now: seq<byte>, text: seq<byte>, from: nat, data: seq<byte>)
    requires |now| == |data| && Copied(was, now, 0, text, from, |data|)
    requires from + |data| <= |text| && text[from..from + |data|] == data
    ensures now == data
  {
    WholeCopy(was, now, text, from);
  }
}
