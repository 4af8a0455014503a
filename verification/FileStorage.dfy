/** Files and their extent tables (system/files.c, system/file_storage.c). */
module FileStorage {
  import opened Settings
  import opened Seqs
  import opened Storage
  import opened Extents

  ghost function Unmarked(marks: seq<bool>, start: nat, amount: nat): seq<bool> {
    seq(|marks|, c requires 0 <= c < |marks| => marks[c] && !(start <= c < start + amount))
  }

  // ---- Shifting extents, as functions of the table -----------------------------------

  ghost function Emptied(e: ChunkExtent): ChunkExtent { e.(isEmpty := true) }

  /** The end of the occupied extents that follow position k. */
  ghost function ClusterEnd(table: seq<ChunkExtent>, k: nat): (n: nat)
    requires k < |table|
    ensures k < n <= |table|
    ensures forall j :: k < j < n ==> !table[j].isEmpty
    ensures n < |table| ==> table[n].isEmpty
  {
    var after := table[k + 1..];
    var m := Used(after);
    assert forall j :: k < j <= k + m ==> table[j] == after[j - (k + 1)];
    assert k + 1 + m < |table| ==> table[k + 1 + m] == after[m];
    k + 1 + m
  }

  /** What chunk_extent_left_shift leaves: the extents after k move down by one over the gap at k. */
  ghost function LeftShifted(table: seq<ChunkExtent>, k: nat): (r: seq<ChunkExtent>)
    requires k < |table|
    ensures |r| == |table|
  {
    var n := ClusterEnd(table, k);
    seq(|table|, j requires 0 <= j < |table| =>
      if k <= j < n - 1 then table[j + 1]
      else if k < j == n - 1 then Emptied(table[j])
      else table[j])
  }

  /** What chunk_extent_right_shift leaves: a gap of shift positions opens at k. */
  ghost function RightShifted(table: seq<ChunkExtent>, k: nat, shift: nat): (r: seq<ChunkExtent>)
    requires k < Used(table) && Used(table) + shift <= |table|
    ensures |r| == |table|
  {
    seq(|table|, j requires 0 <= j < |table| =>
      if k + shift <= j < Used(table) + shift then table[j - shift]
      else if k <= j < k + shift then Emptied(table[j])
      else table[j])
  }

  lemma {:induction false} UsedIs(table: seq<ChunkExtent>, n: nat)
    requires n <= |table|
    requires forall i :: 0 <= i < n ==> !table[i].isEmpty
    requires n < |table| ==> table[n].isEmpty
    ensures Used(table) == n
  {
  }

  /** A left shift, position by position. */
  lemma ShiftedAt(table: seq<ChunkExtent>, k: nat, n: nat)
    requires k < n <= |table| && (forall j :: k < j < n ==> !table[j].isEmpty) && (n < |table| ==> table[n].isEmpty)
    ensures var r := LeftShifted(table, k);
            && |r| == |table|
            && (forall j :: 0 <= j < k || n <= j < |table| ==> r[j] == table[j])
            && (forall j :: k <= j < n - 1 ==> r[j] == table[j + 1])
            && r[n - 1] == if k < n - 1 then Emptied(table[n - 1]) else table[n - 1]
  {
    hide Used;
    var m := ClusterEnd(table, k);
    assert m == n;
  }

  lemma NothingToShift(table: seq<ChunkExtent>, k: nat)
    requires k < |table|
    ensures k + 1 == |table| || table[k + 1].isEmpty ==> LeftShifted(table, k) == table
  {
    if k + 1 == |table| || table[k + 1].isEmpty {
      ShiftedAt(table, k, k + 1);
      hide LeftShifted;
      assert LeftShifted(table, k) == table;
    }
  }

  lemma UsedParts(table: seq<ChunkExtent>)
    ensures Used(table) <= |table| && forall j :: 0 <= j < Used(table) ==> !table[j].isEmpty
    ensures Compact(table) ==> forall j :: Used(table) <= j < |table| ==> table[j].isEmpty
    ensures Occupied(table) == table[..Used(table)] && TableChunks(table) == ChunksOf(Occupied(table))
  {
  }

  lemma CompactIs(table: seq<ChunkExtent>, n: nat)
    requires n <= |table| && forall i :: 0 <= i < n ==> !table[i].isEmpty
    requires forall i :: n <= i < |table| ==> table[i].isEmpty
    ensures Used(table) == n && Compact(table)
  {
    UsedIs(table, n);
  }

  /** Freeing extent k removes exactly that element from the ordered list of extents and keeps the table compact. */
  lemma LeftShiftRemoves(table: seq<ChunkExtent>, k: nat)
    requires Compact(table) && k < Used(table)
    ensures var table' := LeftShifted(table[k := Emptied(table[k])], k);
            && Compact(table')
            && Used(table') == Used(table) - 1
            && table'[..Used(table')] == table[..k] + table[k + 1..Used(table)]
  {
    hide Used, Compact, Occupied, TableChunks, LeftShifted;
    var n, gap := Used(table), table[k := Emptied(table[k])];
    UsedParts(table);
    ShiftedAt(gap, k, n);
    CompactIs(LeftShifted(gap, k), n - 1);
    WithoutOne(table, LeftShifted(gap, k), k, n);
  }

  /** Filling the first empty position appends the new chunks. */
  lemma AppendedTable(table: seq<ChunkExtent>, table': seq<ChunkExtent>, e: ChunkExtent)
    requires Compact(table) && Used(table) < |table| && !e.isEmpty
    requires table' == table[Used(table) := e]
    ensures Used(table') == Used(table) + 1 && Compact(table')
    ensures Occupied(table') == Occupied(table) + [e]
    ensures TableChunks(table') == TableChunks(table) + Run(e)
  {
    hide *;
    var n := Used(table);
    UsedParts(table);
    UsedParts(table');
    CompactIs(table', n + 1);
    SplitAt(table', n, n + 1);
    UpdatedBehind(table, n, e);
    ChunksOfAppend(table[..n], [e]);
    ChunksOfOne(e);
  }

  /** Left shifts at positions hi, hi - 1, .., lo. */
  ghost function LeftShiftedDown(table: seq<ChunkExtent>, hi: int, lo: nat): (r: seq<ChunkExtent>)
    requires hi < |table|
    ensures |r| == |table|
    decreases hi + 1 - lo
  {
    if hi < lo then table else LeftShiftedDown(LeftShifted(table, hi), hi - 1, lo)
  }

  /** table' holds the extents of table with a gap of size gap opened at k. */
  ghost predicate HasGap(table: seq<ChunkExtent>, table': seq<ChunkExtent>, k: nat, gap: nat) {
    var n := Used(table);
    && |table'| == |table| && k < n && n + gap <= |table|
    && (forall j :: 0 <= j < k ==> table'[j] == table[j])
    && (forall j :: k <= j < k + gap ==> table'[j].isEmpty)
    && (forall j :: k <= j < n ==> table'[j + gap] == table[j])
    && (forall j :: n + gap <= j < |table| ==> table'[j].isEmpty)
  }

  lemma CloseOne(table: seq<ChunkExtent>, table': seq<ChunkExtent>, k: nat, gap: nat)
    requires 0 < gap && HasGap(table, table', k, gap)
    ensures HasGap(table, LeftShifted(table', k + gap - 1), k, gap - 1)
  {
    var n := Used(table);
    UsedParts(table);
    hide Used, LeftShifted;
    forall j | k + gap - 1 < j < n + gap ensures !table'[j].isEmpty {
      assert table'[(j - gap) + gap] == table[j - gap];
    }
    ShiftedAt(table', k + gap - 1, n + gap);
    var less := LeftShifted(table', k + gap - 1);
    forall j | k <= j < n ensures less[j + (gap - 1)] == table[j] {
      assert table'[j + gap] == table[j];
    }
  }

  lemma ShiftedDownIs(table: seq<ChunkExtent>, hi: int, lo: nat)
    requires hi < |table|
    ensures LeftShiftedDown(table, hi, lo) ==
            if hi < lo then table else LeftShiftedDown(LeftShifted(table, hi), hi - 1, lo)
  {
  }

  lemma GapFits(table: seq<ChunkExtent>, table': seq<ChunkExtent>, k: nat, gap: nat)
    requires HasGap(table, table', k, gap)
    ensures |table'| == |table| && k + gap < |table|
  {
  }

  lemma {:induction false} ClosingTheGap(table: seq<ChunkExtent>, table': seq<ChunkExtent>, k: nat, gap: nat)
    requires HasGap(table, table', k, gap)
    ensures HasGap(table, LeftShiftedDown(table', k + gap - 1, k), k, 0)
    decreases gap
  {
    hide *;
    GapFits(table, table', k, gap);
    ShiftedDownIs(table', k + gap - 1, k);
    if gap > 0 {
      CloseOne(table, table', k, gap);
      ClosingTheGap(table, LeftShifted(table', k + gap - 1), k, gap - 1);
    }
  }

  /** A right shift is undone by left shifts from the last position of the gap down to the first. */
  lemma RightThenLeftShifts(table: seq<ChunkExtent>, k: nat, shift: nat)
    requires Compact(table) && k < Used(table) && Used(table) + shift <= |table|
    ensures var table' := LeftShiftedDown(RightShifted(table, k, shift), k + shift - 1, k);
            Compact(table') && Used(table') == Used(table) && table'[..Used(table)] == table[..Used(table)]
  {
    var table' := LeftShiftedDown(RightShifted(table, k, shift), k + shift - 1, k);
    GapOpened(table, k, shift);
    hide *;
    ClosingTheGap(table, RightShifted(table, k, shift), k, shift);
    GapClosed(table, table', k);
  }

  lemma RightShiftedAt(table: seq<ChunkExtent>, k: nat, shift: nat, j: nat)
    requires k < Used(table) && Used(table) + shift <= |table| && j < |table|
    ensures RightShifted(table, k, shift)[j] ==
            if k + shift <= j < Used(table) + shift then table[j - shift]
            else if k <= j < k + shift then Emptied(table[j])
            else table[j]
  {
    hide Used;
  }

  lemma GapFrom(table: seq<ChunkExtent>, table': seq<ChunkExtent>, k: nat, gap: nat, n: nat)
    requires |table'| == |table| && k < n == Used(table) && n + gap <= |table|
    requires forall j :: 0 <= j < k ==> table'[j] == table[j]
    requires forall j :: k <= j < k + gap ==> table'[j].isEmpty
    requires forall j :: k <= j < n ==> table'[j + gap] == table[j]
    requires forall j :: n + gap <= j < |table| ==> table'[j].isEmpty
    ensures HasGap(table, table', k, gap)
  {
    hide Used;
  }

  lemma GapOpened(table: seq<ChunkExtent>, k: nat, shift: nat)
    requires Compact(table) && k < Used(table) && Used(table) + shift <= |table|
    ensures HasGap(table, RightShifted(table, k, shift), k, shift)
  {
    hide *;
    var n, r := Used(table), RightShifted(table, k, shift);
    UsedParts(table);
    EmptiedIsEmpty();
    forall j | 0 <= j < k ensures r[j] == table[j] { RightShiftedAt(table, k, shift, j); }
    forall j | k <= j < k + shift ensures r[j].isEmpty { RightShiftedAt(table, k, shift, j); }
    forall j | k <= j < n ensures r[j + shift] == table[j] { RightShiftedAt(table, k, shift, j + shift); }
    forall j | n + shift <= j < |table| ensures r[j].isEmpty { RightShiftedAt(table, k, shift, j); }
    GapFrom(table, r, k, shift, n);
  }

  /** What a right shift leaves, position by position. */
  lemma RightShiftOpensGap(table: seq<ChunkExtent>, k: nat, shift: nat)
    requires Compact(table) && k < Used(table) && Used(table) + shift <= |table|
    ensures var r := RightShifted(table, k, shift);
            && |r| == |table|
            && (forall j :: 0 <= j < k ==> r[j] == table[j])
            && (forall j :: k <= j < k + shift ==> r[j].isEmpty)
            && (forall j :: k <= j < |table| && !table[j].isEmpty ==> j + shift < |r| && r[j + shift] == table[j])
  {
    GapOpened(table, k, shift);
    UsedParts(table);
    hide RightShifted, Used, Compact;
  }

  lemma EmptiedIs(e: ChunkExtent)
    ensures Emptied(e) == e.(isEmpty := true)
  {
  }

  lemma EmptiedIsEmpty()
    ensures forall e :: Emptied(e).isEmpty
  {
  }

  lemma GapClosed(table: seq<ChunkExtent>, table': seq<ChunkExtent>, k: nat)
    requires HasGap(table, table', k, 0)
    ensures Compact(table') && Used(table') == Used(table) <= |table| == |table'|
    ensures table'[..Used(table)] == table[..Used(table)]
  {
    var n := Used(table);
    UsedParts(table);
    hide Used;
    forall j | 0 <= j < n ensures table'[j] == table[j] {
      if k <= j { assert table'[j + 0] == table[j]; }
    }
    CompactIs(table', n);
  }

  // ---- Files -------------------------------------------------------------------------

  /** The storage half of a file: its size in chunks and its extent table. */
  class File {
    var allocatedSize: nat
    const extents: array<ChunkExtent>

    /** A file slot before initialisation: the table has its size and arbitrary entries. */
    constructor (entries: seq<ChunkExtent>)
      requires |entries| == MAX_FILE_CHUNK_EXTENTS_AMOUNT
      ensures Shaped() && fresh(extents)
    {
      allocatedSize := *;
      extents := new ChunkExtent[|entries|](i requires 0 <= i < |entries| => entries[i]);
    }

    ghost predicate Shaped() {
      extents.Length == MAX_FILE_CHUNK_EXTENTS_AMOUNT
    }

    ghost function Table(): seq<ChunkExtent>
      reads extents
    {
      extents[..]
    }

    /** The occupied extents, in order. */
    ghost function Layout(): seq<ChunkExtent>
      reads extents
    {
      Occupied(Table())
    }

    /** The chunks of the file in the order of its content. */
    ghost function Chunks(): seq<nat>
      reads extents
    {
      TableChunks(Table())
    }

    /** The table is compact, no extent in it is empty of chunks, and the recorded size is the number of chunks. */
    ghost predicate Valid()
      reads this, extents
    {
      && Shaped() && Compact(Table()) && allocatedSize == |Chunks()|
      && forall i :: 0 <= i < Used(Table()) ==> 0 < Table()[i].chunkAmount
    }

    /** The storage part of file_init. */
    method Init()
      requires Shaped()
      modifies this`allocatedSize, extents
      ensures Valid() && Chunks() == []
    {
      allocatedSize := 0;
      for i := 0 to MAX_FILE_CHUNK_EXTENTS_AMOUNT
        invariant allocatedSize == 0
        invariant forall j :: 0 <= j < i ==> extents[j].isEmpty
      {
        extents[i] := extents[i].(isEmpty := true);
      }
      UsedIs(Table(), 0);
      assert Table()[..0] == [];
    }

    /** get_available_chunk_extent_index: the first empty position, -1 when there is none. */
    method GetAvailableChunkExtentIndex() returns (index: int)
      requires Shaped()
      ensures index == if Used(Table()) == MAX_FILE_CHUNK_EXTENTS_AMOUNT then -1 else Used(Table())
    {
      for i := 0 to MAX_FILE_CHUNK_EXTENTS_AMOUNT
        invariant forall j :: 0 <= j < i ==> !extents[j].isEmpty
      {
        if extents[i].isEmpty {
          UsedIs(Table(), i);
          return i;
        }
      }
      return -1;
    }

    /** file_allocate_chunks: a first-fit run goes to the first empty position of the table. */
    method AllocateChunks(man: StorageMan, amount: nat) returns (status: Status, index: nat)
      requires Shaped() && man.Valid()
      modifies this`allocatedSize, extents, man`freeChunkCount, man.allocationMap
      ensures man.Valid()
      ensures status == (if old(Used(Table())) == MAX_FILE_CHUNK_EXTENTS_AMOUNT then FileChunkExtentLimitExceeded
                         else if amount == 0 || amount > CHUNKS_AMOUNT then InvalidArgument
                         else if HasRoom(old(man.Marks()), amount) then Success
                         else NoSpace)
      ensures status != Success ==>
                && Table() == old(Table()) && allocatedSize == old(allocatedSize)
                && man.Marks() == old(man.Marks()) && man.freeChunkCount == old(man.freeChunkCount)
      ensures status == Success ==>
                && index == old(Used(Table()))
                && allocatedSize == old(allocatedSize) + amount
                && FirstFit(old(man.Marks()), Table()[index].start, amount)
                && Table() == old(Table())[index := ChunkExtent(false, Table()[index].start, amount)]
                && man.Marks() == Marked(old(man.Marks()), Table()[index].start, amount)
                && man.freeChunkCount == old(man.freeChunkCount) - amount
      ensures status == Success && old(Valid()) ==>
                && Valid() && Layout() == old(Layout()) + [Table()[index]]
                && Chunks() == old(Chunks()) + Run(Table()[index])
    {
      index := 0;
      var i := GetAvailableChunkExtentIndex();
      if i == -1 { return FileChunkExtentLimitExceeded, index; }
      var first;
      status, first := man.Challoc(amount);
      if status != Success { return status, index; }
      extents[i] := ChunkExtent(false, first, amount);
      allocatedSize := allocatedSize + amount;
      if old(Valid()) { AppendedTable(old(Table()), Table(), Table()[i]); }
      return Success, i;
    }

    /** free_chunk_extent: frees the chunks of one allocated extent. */
    static method FreeExtentChunks(e: ChunkExtent, man: StorageMan)
      requires man.Valid() && e.start + e.chunkAmount <= CHUNKS_AMOUNT
      requires forall c :: e.start <= c < e.start + e.chunkAmount ==> man.Marks()[c]
      modifies man`freeChunkCount, man.allocationMap
      ensures man.Valid()
      ensures man.Marks() == Unmarked(old(man.Marks()), e.start, e.chunkAmount)
      ensures man.freeChunkCount == old(man.freeChunkCount) + e.chunkAmount
    {
      for c := e.start to e.start + e.chunkAmount
        invariant man.Valid()
        invariant man.Marks() == Unmarked(old(man.Marks()), e.start, c - e.start)
        invariant man.freeChunkCount == old(man.freeChunkCount) + (c - e.start)
      {
        var _ := man.Chfree(c);
      }
    }

    /** file_free_chunk_extent */
    method FreeChunkExtent(k: nat, man: StorageMan) returns (status: Status)
      requires Shaped() && man.Valid() && k < MAX_FILE_CHUNK_EXTENTS_AMOUNT
      requires var e := extents[k];
               !e.isEmpty ==>
                 && e.start + e.chunkAmount <= CHUNKS_AMOUNT && e.chunkAmount <= allocatedSize
                 && forall c :: e.start <= c < e.start + e.chunkAmount ==> man.Marks()[c]
      modifies this`allocatedSize, extents, man`freeChunkCount, man.allocationMap
      ensures man.Valid()
      ensures status == if old(Table())[k].isEmpty then InvalidArgument else Success
      ensures status != Success ==>
                && Table() == old(Table()) && allocatedSize == old(allocatedSize)
                && man.Marks() == old(man.Marks()) && man.freeChunkCount == old(man.freeChunkCount)
      ensures status == Success ==>
                var e := old(Table())[k];
                && Table() == LeftShifted(old(Table())[k := Emptied(e)], k)
                && allocatedSize == old(allocatedSize) - e.chunkAmount
                && man.Marks() == Unmarked(old(man.Marks()), e.start, e.chunkAmount)
                && man.freeChunkCount == old(man.freeChunkCount) + e.chunkAmount
    {
      if extents[k].isEmpty { return InvalidArgument; }
      FreeExtentChunks(extents[k], man);
      allocatedSize := allocatedSize - extents[k].chunkAmount;
      extents[k] := extents[k].(isEmpty := true);
      assert Table() == old(Table())[k := Emptied(old(Table())[k])];
      status := LeftShift(k);
    }

    /** chunk_extent_left_shift: closes the gap at k by moving the extents after it down one position. */
    method LeftShift(k: nat) returns (status: Status)
      requires Shaped() && k < MAX_FILE_CHUNK_EXTENTS_AMOUNT
      modifies extents
      ensures status == if old(Table())[k].isEmpty then Success else InvalidArgument
      ensures Table() == if status == Success then LeftShifted(old(Table()), k) else old(Table())
    {
      if !extents[k].isEmpty { return InvalidArgument; }
      NothingToShift(Table(), k);
      if k + 1 == MAX_FILE_CHUNK_EXTENTS_AMOUNT { return Success; }
      if extents[k + 1].isEmpty { return Success; }
      ghost var table := Table();
      ghost var n := ClusterEnd(table, k);
      ShiftedAt(table, k, n);
      hide LeftShifted, ClusterEnd, Used;
      MoveLeft(k, n);
      assert Table() == LeftShifted(table, k);
      return Success;
    }

    /** The loop of chunk_extent_left_shift over the occupied extents up to position n. */
    method MoveLeft(k: nat, ghost n: nat)
      requires Shaped() && k + 1 < n <= MAX_FILE_CHUNK_EXTENTS_AMOUNT
      requires forall j :: k < j < n ==> !extents[j].isEmpty
      requires n < MAX_FILE_CHUNK_EXTENTS_AMOUNT ==> extents[n].isEmpty
      modifies extents
      ensures forall j :: 0 <= j < k || n <= j < MAX_FILE_CHUNK_EXTENTS_AMOUNT ==> extents[j] == old(extents[j])
      ensures forall j :: k <= j < n - 1 ==> extents[j] == old(extents[j + 1])
      ensures extents[n - 1] == Emptied(old(extents[n - 1]))
    {
      assert extents.Length == MAX_FILE_CHUNK_EXTENTS_AMOUNT;
      hide *;
      EmptiedIs(extents[n - 1]);
      extents[k] := extents[k].(isEmpty := false);
      var pos := k;
      while pos < MAX_FILE_CHUNK_EXTENTS_AMOUNT
        invariant k <= pos < n
        invariant forall j :: 0 <= j < k || pos < j < MAX_FILE_CHUNK_EXTENTS_AMOUNT ==> extents[j] == old(extents[j])
        invariant forall j :: k <= j < pos ==> extents[j] == old(extents[j + 1])
        invariant k < pos ==> extents[pos] == old(extents[pos])
      {
        if pos + 1 >= MAX_FILE_CHUNK_EXTENTS_AMOUNT || extents[pos + 1].isEmpty {
          extents[pos] := extents[pos].(isEmpty := true);
          return;
        }
        extents[pos] := ChunkExtent(false, extents[pos + 1].start, extents[pos + 1].chunkAmount);
        pos := pos + 1;
      }
    }

    /** get_last_chunk_extent, as chunk_extent_right_shift uses it: refuses a table without room on its right. */
    method GetLastChunkExtent() returns (status: Status, last: nat)
      requires Shaped()
      ensures status == (if Used(Table()) == 0 then DataSetIsEmpty
                         else if Used(Table()) == MAX_FILE_CHUNK_EXTENTS_AMOUNT then DataOverFlow
                         else Success)
      ensures status == Success ==> last == Used(Table()) - 1
    {
      last := 0;
      if extents[0].isEmpty { return DataSetIsEmpty, last; }
      for i := 1 to MAX_FILE_CHUNK_EXTENTS_AMOUNT
        invariant forall j :: 0 <= j < i ==> !extents[j].isEmpty
      {
        if extents[i].isEmpty {
          UsedIs(Table(), i);
          return Success, i - 1;
        }
      }
      return DataOverFlow, last;
    }

    /** chunk_extent_right_shift */
    method RightShift(k: nat, shift: nat) returns (status: Status)
      requires Shaped() && Compact(Table()) && k < MAX_FILE_CHUNK_EXTENTS_AMOUNT
      modifies extents
      ensures status == (if shift == 0 then InvalidOperation
                         else if old(Table())[k].isEmpty then InvalidArgument
                         else if old(Used(Table())) - 1 + shift >= MAX_FILE_CHUNK_EXTENTS_AMOUNT then DataOverFlow
                         else Success)
      ensures Table() == if status == Success then RightShifted(old(Table()), k, shift) else old(Table())
    {
      if shift == 0 { return InvalidOperation; }
      if extents[k].isEmpty { return InvalidArgument; }
      var last;
      status, last := GetLastChunkExtent();
      if status != Success { return status; }
      if last + shift >= MAX_FILE_CHUNK_EXTENTS_AMOUNT { return DataOverFlow; }
      ghost var table := Table();
      MoveRight(k, shift, last);
      assert Table() == RightShifted(table, k, shift);
      return Success;
    }

    /** The loop of chunk_extent_right_shift, from the last occupied extent down to k. */
    method MoveRight(k: nat, shift: nat, last: nat)
      requires Shaped() && 0 < shift && k <= last && last + shift < MAX_FILE_CHUNK_EXTENTS_AMOUNT
      requires forall j :: k <= j <= last ==> !extents[j].isEmpty
      requires forall j :: last < j < MAX_FILE_CHUNK_EXTENTS_AMOUNT ==> extents[j].isEmpty
      modifies extents
      ensures forall j :: 0 <= j < k || last + shift < j < MAX_FILE_CHUNK_EXTENTS_AMOUNT ==>
                extents[j] == old(extents[j])
      ensures forall j :: k <= j < k + shift ==> extents[j] == Emptied(old(extents[j]))
      ensures forall j :: k + shift <= j <= last + shift ==> extents[j] == old(extents[j - shift])
    {
      var cur: int := last;
      while cur >= k
        invariant k - 1 <= cur <= last
        invariant forall j :: 0 <= j <= cur || last + shift < j < MAX_FILE_CHUNK_EXTENTS_AMOUNT ==>
                    extents[j] == old(extents[j])
        invariant forall j :: cur < j <= cur + shift ==> extents[j] == Emptied(old(extents[j]))
        invariant forall j :: cur + shift < j <= last + shift ==> extents[j] == old(extents[j - shift])
      {
        extents[cur + shift] := ChunkExtent(false, extents[cur].start, extents[cur].chunkAmount);
        extents[cur] := extents[cur].(isEmpty := true);
        cur := cur - 1;
      }
    }

    /** file_truncate_chunk_extent: gives back the last amount chunks of extent k. Its loop frees them in ascending
        order while the extent shrinks from its end, so extent and map agree again only when the loop is done. */
    method TruncateChunkExtent(k: nat, amount: nat, man: StorageMan) returns (status: Status)
      requires Shaped() && man.Valid() && k < MAX_FILE_CHUNK_EXTENTS_AMOUNT
      requires var e := extents[k];
               !e.isEmpty ==>
                 && e.start + e.chunkAmount <= CHUNKS_AMOUNT && e.chunkAmount <= allocatedSize
                 && forall c :: e.start <= c < e.start + e.chunkAmount ==> man.Marks()[c]
      modifies this`allocatedSize, extents, man`freeChunkCount, man.allocationMap
      ensures man.Valid()
      ensures status == (if old(Table())[k].isEmpty then InvalidArgument
                         else if amount > old(Table())[k].chunkAmount then IndexOutOfBounds
                         else Success)
      ensures status != Success ==>
                && Table() == old(Table()) && allocatedSize == old(allocatedSize)
                && man.Marks() == old(man.Marks()) && man.freeChunkCount == old(man.freeChunkCount)
      ensures status == Success ==>
                var e := old(Table())[k];
                && Table() == (if amount == e.chunkAmount then LeftShifted(old(Table())[k := Emptied(e)], k)
                               else old(Table())[k := e.(chunkAmount := e.chunkAmount - amount)])
                && allocatedSize == old(allocatedSize) - amount
                && man.Marks() == Unmarked(old(man.Marks()), e.start + e.chunkAmount - amount, amount)
                && man.freeChunkCount == old(man.freeChunkCount) + amount
    {
      if extents[k].isEmpty { return InvalidArgument; }
      if amount > extents[k].chunkAmount { return IndexOutOfBounds; }
      if amount == extents[k].chunkAmount {
        status := FreeChunkExtent(k, man);
        return status;
      }
      ghost var e := extents[k];
      var upper := extents[k].start + extents[k].chunkAmount;
      hide LeftShifted;
      for c := upper - amount to upper
        invariant man.Valid()
        invariant var freed := c - (upper - amount);
                  && allocatedSize == old(allocatedSize) - freed
                  && Table() == old(Table())[k := e.(chunkAmount := e.chunkAmount - freed)]
                  && man.Marks() == Unmarked(old(man.Marks()), upper - amount, freed)
                  && man.freeChunkCount == old(man.freeChunkCount) + freed
      {
        var s := man.Chfree(c);
        if s != Success { return s; }
        allocatedSize := allocatedSize - 1;
        extents[k] := extents[k].(chunkAmount := extents[k].chunkAmount - 1);
      }
      return Success;
    }

    /** file_owns_chunk */
    method OwnsChunk(c: nat) returns (owns: bool)
      requires Shaped()
      ensures owns <==> c in Chunks()
    {
      ghost var runs := Table()[..Used(Table())];
      ChunksOfMember(runs, c);
      for i := 0 to MAX_FILE_CHUNK_EXTENTS_AMOUNT
        invariant i <= |runs|
        invariant forall j :: 0 <= j < i ==> !(runs[j].start <= c < runs[j].start + runs[j].chunkAmount)
      {
        if extents[i].isEmpty { return false; }
        assert i < |runs|;
        assert runs[i] == extents[i];
        if extents[i].start <= c && extents[i].start + extents[i].chunkAmount > c { return true; }
      }
      return false;
    }

    /** file_write_chunk */
    method WriteChunk(man: StorageMan, c: nat, data: seq<byte>) returns (status: Status)
      requires Shaped() && man.Sized()
      modifies man.storage
      ensures status == (if c >= CHUNKS_AMOUNT then InvalidArgument
                         else if c !in Chunks() then ChunkDoesNotBelongToFile
                         else if |data| > CHUNK_SIZE then DataOverFlow
                         else if !man.Marks()[c] then FreeChunkAccessAttempt
                         else Success)
      ensures status != Success ==> man.Bytes() == old(man.Bytes())
      ensures status == Success ==>
                && SameOutside(old(man.Bytes()), man.Bytes(), c)
                && ChunkBytes(man.Bytes(), c) == data + ChunkBytes(old(man.Bytes()), c)[|data|..]
    {
      if c >= CHUNKS_AMOUNT { return InvalidArgument; }
      var owns := OwnsChunk(c);
      if !owns { return ChunkDoesNotBelongToFile; }
      status := man.Chwrite(c, data);
    }

    /** file_read_chunk */
    method ReadChunk(man: StorageMan, c: nat, buffer: array<byte>, at: nat, room: nat) returns (status: Status)
      requires Shaped() && man.Sized() && buffer != man.storage && at + room <= buffer.Length
      modifies buffer
      ensures status == (if c >= CHUNKS_AMOUNT then InvalidArgument
                         else if c !in Chunks() then ChunkDoesNotBelongToFile
                         else if room < CHUNK_SIZE then InsufficientArrayPassed
                         else if !man.Marks()[c] then FreeChunkAccessAttempt
                         else Success)
      ensures status != Success ==> buffer[..] == old(buffer[..])
      ensures status == Success ==>
                Copied(old(buffer[..]), buffer[..], at, ChunkBytes(man.Bytes(), c), 0, CHUNK_SIZE)
    {
      if c >= CHUNKS_AMOUNT { return InvalidArgument; }
      var owns := OwnsChunk(c);
      if !owns { return ChunkDoesNotBelongToFile; }
      status := man.Chread(c, buffer, at, room);
    }
  }
}
