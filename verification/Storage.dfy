/** The virtual disk and its first-fit chunk allocator (system/storage.c). */
module Storage {
  import opened Settings
  import opened ChunkMath

  // ---- The allocation map as a value -------------------------------------------------

  /** The number of unmarked chunks. */
  ghost function CountFree(marks: seq<bool>): nat {
    if marks == [] then 0
    else CountFree(marks[..|marks| - 1]) + if marks[|marks| - 1] then 0 else 1
  }

  /** Chunks start .. start + amount exist and are all free. */
  ghost predicate FreeRun(marks: seq<bool>, start: nat, amount: nat) {
    start + amount <= |marks| && forall c :: start <= c < start + amount ==> !marks[c]
  }

  ghost function Marked(marks: seq<bool>, start: nat, amount: nat): seq<bool>
    requires start + amount <= |marks|
  {
    seq(|marks|, c requires 0 <= c < |marks| => marks[c] || start <= c < start + amount)
  }

  lemma {:induction false} CountFreeUpdate(marks: seq<bool>, c: nat, b: bool)
    requires c < |marks|
    ensures CountFree(marks[c := b]) + (if b then 1 else 0) == CountFree(marks) + (if marks[c] then 1 else 0)
  {
    var n := |marks| - 1;
    if c == n {
      assert marks[c := b][..n] == marks[..n];
    } else {
      CountFreeUpdate(marks[..n], c, b);
      assert marks[c := b][..n] == marks[..n][c := b];
    }
  }

  /** Marking a free run takes exactly its length from the free count. */
  lemma {:induction false} CountFreeMarked(marks: seq<bool>, start: nat, amount: nat)
    requires FreeRun(marks, start, amount)
    ensures CountFree(Marked(marks, start, amount)) + amount == CountFree(marks)
  {
    if amount == 0 {
      assert Marked(marks, start, 0) == marks;
    } else {
      var less := Marked(marks, start, amount - 1);
      CountFreeMarked(marks, start, amount - 1);
      CountFreeUpdate(less, start + amount - 1, true);
      assert Marked(marks, start, amount) == less[start + amount - 1 := true];
    }
  }

  /** The counting fact behind the NO_SPACE answer: a free run is never longer than the free count,
      so a request above the free count is refused by the scan itself. */
  lemma FreeRunWithinFreeCount(marks: seq<bool>, amount: nat)
    requires amount > CountFree(marks)
    ensures !exists start: nat :: FreeRun(marks, start, amount)
  {
    forall start: nat | FreeRun(marks, start, amount) ensures false {
      CountFreeMarked(marks, start, amount);
    }
  }

  /** The lowest free run of the given length. */
  ghost predicate FirstFit(marks: seq<bool>, start: nat, amount: nat) {
    FreeRun(marks, start, amount) && forall lower: nat :: lower < start ==> !FreeRun(marks, lower, amount)
  }

  ghost predicate HasRoom(marks: seq<bool>, amount: nat) {
    exists start: nat :: FreeRun(marks, start, amount)
  }

  /** Where first fit puts a run. */
  ghost function FirstStart(marks: seq<bool>, amount: nat): (start: nat)
    requires HasRoom(marks, amount)
    ensures FirstFit(marks, start, amount)
  {
    var start: nat :| FreeRun(marks, start, amount);
    LowestFrom(marks, start, amount, 0)
  }

  ghost function LowestFrom(marks: seq<bool>, found: nat, amount: nat, from: nat): (start: nat)
    requires FreeRun(marks, found, amount) && from <= found
    requires forall lower: nat :: lower < from ==> !FreeRun(marks, lower, amount)
    ensures FirstFit(marks, start, amount)
    decreases found - from
  {
    if FreeRun(marks, from, amount) then from else LowestFrom(marks, found, amount, from + 1)
  }

  lemma OneFirstFit(marks: seq<bool>, start: nat, amount: nat)
    requires FirstFit(marks, start, amount)
    ensures HasRoom(marks, amount) && FirstStart(marks, amount) == start
  {
  }

  /** Room in terms of single chunks: any window of free chunks makes room, and first fit takes the lowest. */
  lemma RoomMeans(marks: seq<bool>, amount: nat, window: nat)
    ensures window + amount <= |marks| && (forall c :: window <= c < window + amount ==> !marks[c]) ==>
              HasRoom(marks, amount) && FirstStart(marks, amount) <= window
    ensures HasRoom(marks, amount) ==>
              var start := FirstStart(marks, amount);
              start + amount <= |marks| && forall c :: start <= c < start + amount ==> !marks[c]
  {
    if window + amount <= |marks| && (forall c :: window <= c < window + amount ==> !marks[c]) {
      assert FreeRun(marks, window, amount);
    }
  }

  lemma CountFreeLast(marks: seq<bool>)
    requires marks != []
    ensures CountFree(marks) == CountFree(marks[..|marks| - 1]) + if marks[|marks| - 1] then 0 else 1
  {
  }

  /** The free count is the number of free chunks. */
  lemma {:induction false} CountFreeIsCardinality(marks: seq<bool>)
    ensures CountFree(marks) == |set c | 0 <= c < |marks| && !marks[c]|
  {
    var all := set c | 0 <= c < |marks| && !marks[c];
    if marks == [] {
      assert all == {};
    } else {
      var n := |marks| - 1;
      CountFreeIsCardinality(marks[..n]);
      var less := set c | 0 <= c < n && !marks[..n][c];
      hide CountFree;
      assert all == if marks[n] then less else less + {n};
      CountFreeLast(marks);
    }
  }

  lemma {:induction false} CountFreeAllFree(marks: seq<bool>)
    requires forall c :: 0 <= c < |marks| ==> !marks[c]
    ensures CountFree(marks) == |marks|
  {
    if marks != [] { CountFreeAllFree(marks[..|marks| - 1]); }
  }

  // ---- Storage bytes as a value ------------------------------------------------------

  /** The bytes of chunk c; a chunk beyond the storage, which no operation touches, reads as padding. */
  ghost function ChunkBytes(bytes: seq<byte>, c: nat): (r: seq<byte>)
    ensures |r| == CHUNK_SIZE
  {
    if Span(c) + CHUNK_SIZE <= |bytes| then bytes[Span(c)..Span(c) + CHUNK_SIZE] else Eoc(CHUNK_SIZE)
  }

  /** bytes and bytes' hold the same data in every chunk but c. */
  ghost predicate SameOutside(bytes: seq<byte>, bytes': seq<byte>, c: nat) {
    forall d: nat :: d < CHUNKS_AMOUNT && d != c ==> ChunkBytes(bytes', d) == ChunkBytes(bytes, d)
  }

  lemma OtherChunk(bytes: seq<byte>, bytes': seq<byte>, c: nat, d: nat)
    requires c < CHUNKS_AMOUNT && d < CHUNKS_AMOUNT && d != c
    requires |bytes| == |bytes'| >= Span(CHUNKS_AMOUNT)
    requires forall k :: 0 <= k < |bytes| && !(Span(c) <= k < Span(c) + CHUNK_SIZE) ==> bytes'[k] == bytes[k]
    ensures ChunkBytes(bytes', d) == ChunkBytes(bytes, d)
  {
    SpanOrder(d, CHUNKS_AMOUNT);
    if c < d { SpanOrder(c, d); } else { SpanOrder(d, c); }
    forall k | Span(d) <= k < Span(d) + CHUNK_SIZE ensures bytes'[k] == bytes[k] {
    }
  }

  lemma OverwriteInChunk(bytes: seq<byte>, bytes': seq<byte>, c: nat, from: nat, to: nat)
    requires c < CHUNKS_AMOUNT && from <= to <= CHUNK_SIZE
    requires |bytes| == |bytes'| >= Span(CHUNKS_AMOUNT)
    requires forall k :: 0 <= k < |bytes| && !(Span(c) + from <= k < Span(c) + to) ==> bytes'[k] == bytes[k]
    ensures SameOutside(bytes, bytes', c)
    ensures ChunkBytes(bytes', c)[..from] == ChunkBytes(bytes, c)[..from]
    ensures ChunkBytes(bytes', c)[to..] == ChunkBytes(bytes, c)[to..]
    ensures Span(c) + CHUNK_SIZE <= |bytes'|
    ensures forall k :: from <= k < to ==> ChunkBytes(bytes', c)[k] == bytes'[Span(c) + k]
  {
    hide *;
    SpanOrder(c, CHUNKS_AMOUNT);
    OtherChunks(bytes, bytes', c);
    ChunkBytesIs(bytes, c);
    ChunkBytesIs(bytes', c);
    SameSlices(bytes, bytes', Span(c), from, to, CHUNK_SIZE);
  }

  lemma ChunkBytesIs(bytes: seq<byte>, c: nat)
    requires Span(c) + CHUNK_SIZE <= |bytes|
    ensures ChunkBytes(bytes, c) == bytes[Span(c)..Span(c) + CHUNK_SIZE]
  {
  }

  /** Chunk c begins at byte c * CHUNK_SIZE of the storage. */
  lemma ChunkAddress(bytes: seq<byte>, c: nat, j: nat)
    requires j < CHUNK_SIZE && c * CHUNK_SIZE + CHUNK_SIZE <= |bytes|
    ensures c * CHUNK_SIZE + j < |bytes| && ChunkBytes(bytes, c)[j] == bytes[c * CHUNK_SIZE + j]
  {
    SpanIsProduct(c);
  }

  lemma OtherChunks(bytes: seq<byte>, bytes': seq<byte>, c: nat)
    requires c < CHUNKS_AMOUNT && |bytes| == |bytes'| >= Span(CHUNKS_AMOUNT)
    requires forall k :: 0 <= k < |bytes| && !(Span(c) <= k < Span(c) + CHUNK_SIZE) ==> bytes'[k] == bytes[k]
    ensures SameOutside(bytes, bytes', c)
  {
    forall d: nat | d < CHUNKS_AMOUNT && d != c ensures ChunkBytes(bytes', d) == ChunkBytes(bytes, d) {
      OtherChunk(bytes, bytes', c, d);
    }
  }

  lemma SameSlices(x: seq<byte>, y: seq<byte>, at: nat, from: nat, to: nat, n: nat)
    requires from <= to <= n && at + n <= |x| == |y|
    requires forall k :: 0 <= k < |x| && !(at + from <= k < at + to) ==> y[k] == x[k]
    ensures y[at..at + n][..from] == x[at..at + n][..from] && y[at..at + n][to..] == x[at..at + n][to..]
    ensures var s := y[at..at + n]; forall k :: from <= k < to ==> s[k] == y[at + k]
  {
  }

  /** From was to now nothing has changed but positions at .. at + n, and these hold text[from .. from + n]. */
  ghost predicate Copied<T>(was: seq<T>, now: seq<T>, at: nat, text: seq<T>, from: nat, n: nat) {
    && at + n <= |was| == |now| && from + n <= |text|
    && forall k: nat :: k < |now| ==> CopiedAt(was, now, at, text, from, n, k)
  }

  ghost predicate CopiedAt<T>(was: seq<T>, now: seq<T>, at: nat, text: seq<T>, from: nat, n: nat, k: nat)
    requires k < |was| == |now| && from + n <= |text|
  {
    now[k] == if at <= k < at + n then text[from + (k - at)] else was[k]
  }

  // ---- The storage manager -----------------------------------------------------------

  class StorageMan {
    const storage: array<byte>
    const allocationMap: array<bool>
    var freeChunkCount: nat

    /** The sizes that storage_man_init checks. */
    ghost predicate Sized() {
      storage.Length >= Span(CHUNKS_AMOUNT) && allocationMap.Length >= CHUNKS_AMOUNT
    }

    ghost function Marks(): seq<bool>
      requires Sized()
      reads allocationMap
    {
      allocationMap[..CHUNKS_AMOUNT]
    }

    ghost function Bytes(): seq<byte>
      reads storage
    {
      storage[..]
    }

    /** The cached free count is the number of free chunks. */
    ghost predicate Valid()
      reads this, allocationMap
    {
      Sized() && freeChunkCount == CountFree(Marks())
    }

    constructor (storage: array<byte>, allocationMap: array<bool>)
      ensures this.storage == storage && this.allocationMap == allocationMap
      ensures freeChunkCount == storage.Length / CHUNK_SIZE
    {
      this.storage, this.allocationMap := storage, allocationMap;
      freeChunkCount := storage.Length / CHUNK_SIZE;
    }

    /** storage_man_init: refuses buffers that are too small, otherwise clears the map. The cached count it sets is
        right exactly when the storage holds CHUNKS_AMOUNT chunks and not more. */
    static method Init(storage: array<byte>, allocationMap: array<bool>) returns (status: Status, man: StorageMan?)
      modifies allocationMap
      ensures status == Success <==> storage.Length >= Span(CHUNKS_AMOUNT) && allocationMap.Length >= CHUNKS_AMOUNT
      ensures status != Success ==> status == InsufficientArrayPassed && man == null && unchanged(allocationMap)
      ensures status == Success ==>
                && man != null && fresh(man) && man.Sized() && man.storage == storage
                && man.allocationMap == allocationMap
                && (forall c :: 0 <= c < CHUNKS_AMOUNT ==> !man.Marks()[c])
                && (man.Valid() <==> storage.Length / CHUNK_SIZE == CHUNKS_AMOUNT)
    {
      SpanIsProduct(CHUNKS_AMOUNT);
      if storage.Length < CHUNK_SIZE * CHUNKS_AMOUNT { return InsufficientArrayPassed, null; }
      if allocationMap.Length < CHUNKS_AMOUNT { return InsufficientArrayPassed, null; }
      man := new StorageMan(storage, allocationMap);
      man.ClearMap();
      CountFreeAllFree(man.Marks());
      return Success, man;
    }

    /** allocation_map_init */
    method ClearMap()
      requires Sized()
      modifies allocationMap
      ensures forall c :: 0 <= c < CHUNKS_AMOUNT ==> !Marks()[c]
    {
      for c := 0 to CHUNKS_AMOUNT
        invariant forall k :: 0 <= k < c ==> !allocationMap[k]
      {
        allocationMap[c] := false;
      }
    }

    method MarkAsAllocated(start: nat, amount: nat)
      requires Sized() && start + amount <= CHUNKS_AMOUNT
      modifies allocationMap
      ensures Marks() == Marked(old(Marks()), start, amount)
    {
      for c := start to start + amount
        invariant forall k :: 0 <= k < CHUNKS_AMOUNT ==> allocationMap[k] == (old(allocationMap[k]) || start <= k < c)
      {
        allocationMap[c] := true;
      }
    }

    /** challoc: complete first fit. The comparison of the request with the free count at storage.c:67-70 has no
        effect, so the scan alone decides; FreeRunWithinFreeCount is why such a request still answers NoSpace. */
    method Challoc(amount: nat) returns (status: Status, first: nat)
      requires Valid()
      modifies this`freeChunkCount, allocationMap
      ensures Valid()
      ensures amount == 0 || amount > CHUNKS_AMOUNT <==> status == InvalidArgument
      ensures status == Success <==> 0 < amount && HasRoom(old(Marks()), amount)
      ensures status in {Success, InvalidArgument, NoSpace}
      ensures 0 < amount <= CHUNKS_AMOUNT && amount > old(freeChunkCount) ==> status == NoSpace
      ensures status != Success ==> Marks() == old(Marks()) && freeChunkCount == old(freeChunkCount)
      ensures status == Success ==>
                && FirstFit(old(Marks()), first, amount)
                && Marks() == Marked(old(Marks()), first, amount)
                && freeChunkCount == old(freeChunkCount) - amount
    {
      first := 0;
      ghost var marks := Marks();
      if amount == 0 || amount > CHUNKS_AMOUNT {
        assert forall start: nat :: FreeRun(marks, start, amount) ==> amount <= CHUNKS_AMOUNT;
        return InvalidArgument, first;
      }
      if amount > freeChunkCount { FreeRunWithinFreeCount(marks, amount); }
      var curPos, available := 0, 0;
      for i := 0 to CHUNKS_AMOUNT
        invariant curPos + available == i && available < amount
        invariant Marks() == marks && freeChunkCount == old(freeChunkCount)
        invariant forall c :: curPos <= c < i ==> !marks[c]
        invariant forall start: nat :: start < curPos ==> !FreeRun(marks, start, amount)
      {
        assert allocationMap[i] == marks[i];
        if allocationMap[i] {
          curPos := i + 1;
          available := 0;
          continue;
        }
        available := available + 1;
        if available >= amount {
          assert FreeRun(marks, curPos, amount);
          CountFreeMarked(marks, curPos, amount);
          MarkAsAllocated(curPos, amount);
          freeChunkCount := freeChunkCount - amount;
          return Success, curPos;
        }
      }
      return NoSpace, first;
    }

    /** chfree: unmarks one chunk and counts it as free, without asking whether it was marked. The count therefore stays
        right exactly when the chunk was allocated. */
    method Chfree(chunk: nat) returns (status: Status)
      requires Sized()
      modifies this`freeChunkCount, allocationMap
      ensures status == (if chunk < CHUNKS_AMOUNT then Success else IndexOutOfBounds)
      ensures status != Success ==> Marks() == old(Marks()) && freeChunkCount == old(freeChunkCount)
      ensures status == Success ==> Marks() == old(Marks())[chunk := false] && freeChunkCount == old(freeChunkCount) + 1
      ensures old(Valid()) && status == Success ==> (Valid() <==> old(Marks())[chunk])
    {
      if chunk >= CHUNKS_AMOUNT { return IndexOutOfBounds; }
      CountFreeUpdate(Marks(), chunk, false);
      allocationMap[chunk] := false;
      freeChunkCount := freeChunkCount + 1;
      assert Marks() == old(Marks())[chunk := false];
      return Success;
    }

    method Chwrite(chunk: nat, data: seq<byte>) returns (status: Status)
      requires Sized()
      modifies storage
      ensures status == (if |data| > CHUNK_SIZE then DataOverFlow
                         else if chunk >= CHUNKS_AMOUNT then IndexOutOfBounds
                         else if !old(Marks())[chunk] then FreeChunkAccessAttempt
                         else Success)
      ensures status != Success ==> Bytes() == old(Bytes())
      ensures status == Success ==>
                && SameOutside(old(Bytes()), Bytes(), chunk)
                && ChunkBytes(Bytes(), chunk) == data + ChunkBytes(old(Bytes()), chunk)[|data|..]
    {
      if |data| > CHUNK_SIZE { return DataOverFlow; }
      if chunk >= CHUNKS_AMOUNT { return IndexOutOfBounds; }
      if !allocationMap[chunk] { return FreeChunkAccessAttempt; }
      var addr := Product(chunk);
      SpanOrder(chunk, CHUNKS_AMOUNT);
      for i := 0 to |data|
        invariant forall k :: 0 <= k < i ==> storage[addr + k] == data[k]
        invariant forall k :: 0 <= k < storage.Length && !(addr <= k < addr + i) ==> storage[k] == old(storage[k])
      {
        storage[addr + i] := data[i];
      }
      OverwriteInChunk(old(Bytes()), Bytes(), chunk, 0, |data|);
      assert ChunkBytes(Bytes(), chunk)[..|data|] == data;
      return Success;
    }

    /** chread: copies chunk into buffer[at .. at + CHUNK_SIZE]; room is the size the caller vouches for. */
    method Chread(chunk: nat, buffer: array<byte>, at: nat, room: nat) returns (status: Status)
      requires Sized() && buffer != storage && at + room <= buffer.Length
      modifies buffer
      ensures status == (if room < CHUNK_SIZE then InsufficientArrayPassed
                         else if chunk >= CHUNKS_AMOUNT then IndexOutOfBounds
                         else if !old(Marks())[chunk] then FreeChunkAccessAttempt
                         else Success)
      ensures status != Success ==> buffer[..] == old(buffer[..])
      ensures status == Success ==>
                Copied(old(buffer[..]), buffer[..], at, ChunkBytes(Bytes(), chunk), 0, CHUNK_SIZE)
    {
      if room < CHUNK_SIZE { return InsufficientArrayPassed; }
      if chunk >= CHUNKS_AMOUNT { return IndexOutOfBounds; }
      if !allocationMap[chunk] { return FreeChunkAccessAttempt; }
      var addr := Product(chunk);
      SpanOrder(chunk, CHUNKS_AMOUNT);
      for i := 0 to CHUNK_SIZE
        invariant forall k :: at <= k < at + i ==> buffer[k] == storage[addr + (k - at)]
        invariant forall k :: 0 <= k < buffer.Length && !(at <= k < at + i) ==> buffer[k] == old(buffer[k])
      {
        buffer[at + i] := storage[addr + i];
      }
      return Success;
    }

    /** chtrunc: overwrites the last amount bytes of a chunk with EOC. It does not look at the allocation map. */
    method Chtrunc(chunk: nat, amount: nat) returns (status: Status)
      requires Sized()
      modifies storage
      ensures status == (if chunk >= CHUNKS_AMOUNT || amount > CHUNK_SIZE then IndexOutOfBounds
                         else if amount == 0 then InvalidOperation
                         else Success)
      ensures status != Success ==> Bytes() == old(Bytes())
      ensures status == Success ==>
                && SameOutside(old(Bytes()), Bytes(), chunk)
                && ChunkBytes(Bytes(), chunk) == ChunkBytes(old(Bytes()), chunk)[..CHUNK_SIZE - amount] + Eoc(amount)
    {
      if chunk >= CHUNKS_AMOUNT { return IndexOutOfBounds; }
      if amount > CHUNK_SIZE { return IndexOutOfBounds; }
      if amount == 0 { return InvalidOperation; }
      var addr := Product(chunk);
      SpanOrder(chunk, CHUNKS_AMOUNT);
      for i := CHUNK_SIZE - amount to CHUNK_SIZE
        invariant forall k :: addr + CHUNK_SIZE - amount <= k < addr + i ==> storage[k] == EOC_OPERATOR
        invariant forall k :: 0 <= k < storage.Length && !(addr + CHUNK_SIZE - amount <= k < addr + i) ==>
                    storage[k] == old(storage[k])
      {
        storage[addr + i] := EOC_OPERATOR;
      }
      OverwriteInChunk(old(Bytes()), Bytes(), chunk, CHUNK_SIZE - amount, CHUNK_SIZE);
      assert ChunkBytes(Bytes(), chunk)[CHUNK_SIZE - amount..] == Eoc(amount);
      return Success;
    }
  }

  /** n bytes of padding. */
  function Eoc(n: nat): (r: seq<byte>)
    ensures |r| == n && forall i :: 0 <= i < n ==> r[i] == 0x1E
  {
    seq(n, _ => EOC_OPERATOR)
  }
}
